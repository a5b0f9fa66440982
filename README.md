# AnecdoteBox story retrieval and prompt building, in Dafny

AnecdoteBox is a small chat front end over a catalog of stories. Each story
row has a title, category, summary, tags and url. When a visitor types a
request, the program does two things:

- `find_stories` picks the few catalog rows that best match the request.
  It scores each row with keyword hits, sorts by score and keeps the top
  `n` rows that score above zero.
- `get_response` builds a numbered "story context" from those rows, puts
  the visitor's words and the context into a fixed storyteller prompt, and
  asks a text generator for a reply. The reply is trimmed. If the call
  raises, a fixed apology is returned instead.

The project models both operations as imperative Dafny methods and proves
each one equal to a specification function. It then proves what those
functions promise about the result.

- `text.dfy` (`Text`): the string primitives the code uses.
  - `str.lower()`, limited to ASCII letters.
  - `str.split()`, which splits on runs of whitespace and drops empty
    pieces.
  - `str.strip()`.
  - The `in` substring test.
  - Decimal formatting of `{i+1}`.
  - Concatenation of pieces, the way an f-string builds its text.
- `catalog.dfy` (`Catalog`): the story record and the keyword score.
  - A tags hit earns 3 points, a title hit 2 and a summary hit 1.
  - A record whose category contains "stories" earns 1 more point.
- `ranking.dfy` (`Ranking`): specification functions for the rest of
  `find_stories`.
  - The score list in catalog order.
  - The descending sort, which is stable because Python's `list.sort` is
    stable.
  - The slice `[:n]`, with Python's meaning for negative `n`.
  - The `score > 0` filter.
- `find_stories.dfy` (`Retrieval`): `find_stories` as an imperative
  method.
  - A scoring loop over the catalog with a nested loop over the query
    words.
  - An in-place stable insertion sort of an array of (score, row) entries.
  - The cut-off and the filter.
- `prompt.dfy` (`Prompting`): `get_response`.
  - The context-building loop.
  - The prompt template.
  - The generator call, which is a function parameter that returns either
    a text or `Raised`.

Where the category bonus goes. The source text has lost its indentation,
so lines 115-116 of `app.py` can belong inside the loop over query words
(the bonus is paid once per word) or after it (once per record). The model
keeps both readings as the parameter `BonusPlacement`, either `PerWord` or
`PerStory`. Every property is proved for both, or says which one it needs.

Under either reading, the code gives a row of the "stories" category a
positive score for any query that has at least one word. Under `PerStory`
it does so even for a query with no words. So the `score > 0` filter never
removes such a row, although the cut at `n` still can
(`Catalog.ScorePositiveIff` with `Ranking.PositiveMembers`). `Ranking.RankBonusKeepsAll` states the whole
effect for a catalog made only of such rows.

## Model

| member | source | states |
|---|---|---|
| Retrieval.FindStories | app.py:99-119 | The scoring loop, the in-place sort and the cut-off return exactly the specification result `Rank(catalog, query, n, placement)` for every catalog, query, `n` (including negative `n`) and bonus placement; `n` defaults to 3. |
| Retrieval.ScoreRow | app.py:103-116 | The loop over the query words, with the category bonus, adds up to exactly the record's `Score`. |
| Retrieval.SortByScore | app.py:118 | Sorting the score array in place leaves it equal to the stable descending sort `SortDesc` of its old contents. |
| Retrieval.InsertLast | app.py:118 | One insertion step moves the last entry of the sorted prefix past the entries that score strictly less than it, and leaves the rest of the array unchanged. |
| Ranking.InsertSplit | app.py:118 | An entry is inserted after every entry scoring at least as much and before the entries scoring strictly less. |
| Ranking.SortPerm | app.py:118 | The sort is a permutation of its input: same multiset, same length. |
| Ranking.SortSorted | app.py:118 | The sort's output has non-increasing scores. |
| Ranking.SortStable | app.py:118 | Given entries in catalog order, the sort keeps equal-score entries in catalog order (`reverse=True` keeps Python's stability). |
| Ranking.SliceStop | app.py:119 | `[:n]` keeps exactly the indices below its stop, which are the indices Python's rule keeps: below `n`, or below `len + n` when `n` is negative. |
| Ranking.PositiveMembers | app.py:119 | The filter keeps exactly the entries that score above zero, and the result is never longer than its input. |
| Ranking.PositiveRanked | app.py:119 | Filtering keeps the rank order. |
| Ranking.PositiveAllZero | app.py:119 | If every entry scores zero, nothing is left. |
| Ranking.PositiveKeepsAll | app.py:119 | If no entry scores zero, the filter keeps everything. |
| Ranking.SliceFilterCommute | app.py:118-119 | On a sorted list, cutting at `n` and then dropping zeros gives the same result as dropping zeros and then cutting at `n`. |
| Ranking.TopComplete | app.py:118-119 | A positive entry missing from the cut means the cut is full, and every kept entry ranks before it. |
| Ranking.RankBound | app.py:119 | The result has at most `SliceStop(len, n)` records, at most `n` records, and none when `n == 0`. |
| Ranking.RankSound | app.py:102-119 | Every kept entry is a catalog row at its own index, carrying that row's score, and the score is positive. |
| Ranking.RankOrdered | app.py:118-119 | The result runs from the highest score down; equal scores stay in catalog order. |
| Ranking.RankComplete | app.py:118-119 | A positive-scoring row is left out only when the result already holds `n` rows, and every row kept ranks before it. |
| Ranking.RankEmptyQuery | app.py:100-119 | With the bonus per word, a query of only whitespace returns nothing. |
| Ranking.RankEmptyQueryPerStory | app.py:100-119 | With the bonus per record, a whitespace-only query returns only "stories" rows, and all of them while the result is not full. |
| Ranking.RankAllPositive | app.py:118-119 | When every row scores above zero and `n` covers the catalog, every row is returned and the result has the catalog's length. |
| Ranking.RankBonusKeepsAll | app.py:115-119 | A catalog of "stories" rows comes back whole for any query with a word (any query at all under `PerStory`) once `n` covers it. |
| Ranking.RankCaseInsensitive | app.py:100 | Changing the query's letters to lowercase never changes the result. |
| Catalog.WordsScoreAppend | app.py:108-116 | The word loop's total is additive over a split of the query words. |
| Catalog.ScoreMonotone | app.py:108-116 | Adding words to a query never lowers a row's score; the gain is the added words' own points. |
| Catalog.ScoreRepeated | app.py:108-116 | Repeated words count again: a doubled query scores twice the word total. |
| Catalog.ScoreBounds | app.py:108-116 | A row scores at most 7 points per word with the bonus per word, and at most 6 per word plus 1 with the bonus per record. |
| Catalog.ScorePositiveIff | app.py:108-116 | A row scores above zero exactly when some query word is in its tags, title or summary, or it earns the category bonus (per word only when the query has a word). |
| Catalog.EmptyQueryScore | app.py:100-116 | A query of only whitespace scores only the per-record bonus, and otherwise zero. |
| Catalog.QueryCaseInsensitive | app.py:100-108 | The query words of a query and of its lowercase form are the same. |
| Catalog.QueryJoinScore | app.py:100-116 | Joining two queries with a space joins their word lists, and the joined query scores at least what either part does. |
| Text.LowerChar | app.py:100-107 | An ASCII capital maps to its small letter; every other character is unchanged; no capital is left. |
| Text.Lower | app.py:100-107 | Lowercasing keeps the length and leaves no capital letter; a character changes exactly when it is a capital. |
| Text.LowerIdempotent | app.py:100-107 | Lowercasing an already lowercased text changes nothing. |
| Text.LowerConcat | app.py:100-107 | Lowercasing distributes over concatenation. |
| Text.ContainsIff | app.py:109-115 | `word in text` holds exactly when the word occurs at some index of the text. |
| Text.ContainsEdges | app.py:109-115 | The empty string is in every text; nothing longer than the text is in it. |
| Text.SplitWords | app.py:108 | Every piece of `split()` is non-empty and has no whitespace. |
| Text.SplitEmptyIff | app.py:108 | `split()` gives no pieces exactly when the text is all whitespace. |
| Text.SplitWord | app.py:108 | A single word without whitespace splits into itself. |
| Text.SplitDropSpace | app.py:108 | Leading whitespace does not change the split. |
| Text.SplitJoin | app.py:108 | Two texts joined by one whitespace character split into the pieces of the first followed by those of the second. |
| Text.StripShape | app.py:154 | `strip()` returns a slice of its input with only whitespace cut from each end; the result is empty or starts and ends with non-whitespace. |
| Text.StripAllSpace | app.py:154 | All-whitespace text strips to the empty string. |
| Text.NatToStringRoundTrip | app.py:127 | The decimal numeral of `i+1` is non-empty, all digits, has no leading zero, and parses back to `i+1`. |
| Text.ConcatPart | app.py:126-151 | Each piece of an f-string-style concatenation sits at the offset given by the combined length of the pieces before it. |
| Prompting.BuildContext | app.py:124-133 | The `+=` loop over `enumerate(stories)` builds exactly `Context(stories)`: the blocks numbered 1, 2, ... in list order. |
| Prompting.GetResponse | app.py:123-156 | The reply is the stripped generated text for the prompt made from the input and the context, sent with the model name; it is the apology if the call raises. |
| Prompting.BlocksConcat | app.py:125-133 | The context of two consecutive runs of stories is the first run's blocks followed by the second's, numbered on from where the first stopped. |
| Prompting.ContextAt | app.py:125-133 | The block of story `i`, numbered `i+1`, sits between the blocks of the stories before it and those after it. |
| Prompting.ContextLength | app.py:124-133 | The context is empty exactly when there are no stories, and each story adds text. |
| Prompting.BlockHolds | app.py:126-133 | A block carries its number right after the "Story " label (the number parses back to `i+1`) and holds the story's title, category, summary, tags and url. |
| Prompting.ContextHolds | app.py:125-133 | Every story's title and url appear in the context. |
| Prompting.PromptEmbeds | app.py:134-151 | The prompt starts with the persona text, has the user's input verbatim right after it, and has the context verbatim after the "Available stories" heading. |
| Prompting.ReplyShape | app.py:152-156 | A raised call gives the fixed, non-empty apology. Otherwise the reply is the generated text minus surrounding whitespace. |

## Left out

- The web page is not modelled: the header, CSS, mood buttons, chat history rendering and story cards, including the card's `[:150]` summary cut. It is presentation only.
- Loading the catalog from its CSV file and caching it are not modelled. The catalog is a parameter, and missing cells are taken to have already become "".
- The generator client, the API key and the network call are not modelled. The call is the parameter `generate`, and any exception it raises is the single outcome `Raised`.
- `process_input` and the session message list are not modelled. This includes its guard at app.py:222, which skips blank input before `find_stories` is called; `find_stories` itself accepts any query, and the model does the same.
- Text.Lower: lowercases only the ASCII letters, where Python's `str.lower()` maps all of Unicode.
- Text.IsSpace: `split()` and `strip()` use a fixed whitespace set: ASCII whitespace and U+001C..U+001F. Python also splits on U+0085, U+00A0 and the other Unicode space characters.
- The model assumes the catalog has all five columns. `find_stories` reads its fields with `row.get(..., "")` (app.py:104-107), so a missing column counts as "" there. `get_response` instead reads `s['title']` through `s['url']` (app.py:128-132), outside its `try` (app.py:152), so a catalog without one of these columns raises `KeyError` before the generator is called. The `Story` record always has all five fields, so the model does not include this `KeyError` path.
- `str(...)` of a non-text cell, such as a number or NaN, is not modelled; every field is already text.
- The prompt template's indentation inside the triple-quoted strings cannot be recovered from the source text. The template is modelled with no indentation, and each line break sits where the source shows one.
- There is no random fallback when nothing matches: with an empty story list, `get_response` builds an empty context and the prompt asks the generator to suggest another mood.
