/** Story records and the keyword score find_stories gives each of them. */
module Catalog {
  import opened Text

  /** One catalog row. Missing cells have already become "" when the table
      is loaded, so every field is plain text. */
  datatype Story = Story(title: string, category: string, summary: string, tags: string, url: string)

  /** Where the "stories"-category bonus sits relative to the loop over query
      words, which the flattened indentation of the scorer leaves open:
      PerWord awards it once for every query word, PerStory once per record
      after the word loop. */
  datatype BonusPlacement = PerWord | PerStory

  const TagPoints: nat := 3
  const TitlePoints: nat := 2
  const SummaryPoints: nat := 1
  const CategoryPoints: nat := 1
  const CategoryKeyword: string := "stories"

  /** The query as the scorer sees it: lowercased, split on whitespace runs,
      duplicates kept. */
  function QueryWords(query: string): seq<string> {
    Split(Lower(query))
  }

  predicate HasCategoryBonus(s: Story) {
    Contains(Lower(s.category), CategoryKeyword)
  }

  /** The points one query word earns a record through its text fields. */
  function FieldPoints(word: string, s: Story): nat {
    (if Contains(Lower(s.tags), word) then TagPoints else 0) +
    (if Contains(Lower(s.title), word) then TitlePoints else 0) +
    (if Contains(Lower(s.summary), word) then SummaryPoints else 0)
  }

  /** The points one pass of the word loop adds. */
  function WordPoints(word: string, s: Story, placement: BonusPlacement): nat {
    FieldPoints(word, s) +
    (if placement == PerWord && HasCategoryBonus(s) then CategoryPoints else 0)
  }

  /** The word loop's total, accumulated in query order. */
  function WordsScore(words: seq<string>, s: Story, placement: BonusPlacement): nat {
    if words == [] then 0
    else WordsScore(words[..|words| - 1], s, placement) + WordPoints(words[|words| - 1], s, placement)
  }

  /** A record's score for a list of query words. */
  function Score(words: seq<string>, s: Story, placement: BonusPlacement): nat {
    WordsScore(words, s, placement) +
    (if placement == PerStory && HasCategoryBonus(s) then CategoryPoints else 0)
  }

  predicate Hits(word: string, s: Story) {
    Contains(Lower(s.tags), word) || Contains(Lower(s.title), word) || Contains(Lower(s.summary), word)
  }

  // ---------------------------------------------------------------------
  // Properties of the score

  /** The score is additive over the query: the words of a longer query
      contribute on top of the words of a shorter one. */
  lemma {:induction false} WordsScoreAppend(a: seq<string>, b: seq<string>, s: Story, placement: BonusPlacement)
    ensures WordsScore(a + b, s, placement) == WordsScore(a, s, placement) + WordsScore(b, s, placement)
    decreases |b|
  {
    if b == [] {
      assert a + b == a;
    } else {
      var b' := b[..|b| - 1];
      assert (a + b)[..|a + b| - 1] == a + b';
      assert (a + b)[|a + b| - 1] == b[|b| - 1];
      WordsScoreAppend(a, b', s, placement);
    }
  }

  /** Adding words to a query never lowers a record's score. */
  lemma {:induction false} ScoreMonotone(a: seq<string>, b: seq<string>, s: Story, placement: BonusPlacement)
    ensures Score(a + b, s, placement) >= Score(a, s, placement)
    ensures Score(a + b, s, placement) == Score(a, s, placement) + WordsScore(b, s, placement)
  {
    WordsScoreAppend(a, b, s, placement);
  }

  /** A repeated query counts every hit again. */
  lemma {:induction false} ScoreRepeated(words: seq<string>, s: Story, placement: BonusPlacement)
    ensures WordsScore(words + words, s, placement) == 2 * WordsScore(words, s, placement)
  {
    WordsScoreAppend(words, words, s, placement);
  }

  /** The most a query can score: seven points a word with the bonus inside
      the word loop; six a word, plus one, with the bonus outside it. */
  lemma {:induction false} ScoreBounds(words: seq<string>, s: Story, placement: BonusPlacement)
    ensures WordsScore(words, s, placement) <= (if placement == PerWord then 7 else 6) * |words|
    ensures Score(words, s, placement) <= if placement == PerWord then 7 * |words| else 6 * |words| + 1
    decreases |words|
  {
    if words != [] {
      ScoreBounds(words[..|words| - 1], s, placement);
    }
  }

  /** A record scores above zero exactly when some query word occurs in its
      tags, title or summary, or it earns the category bonus: with the bonus
      inside the word loop only when the query has a word at all. */
  lemma {:induction false} ScorePositiveIff(words: seq<string>, s: Story, placement: BonusPlacement)
    ensures Score(words, s, placement) > 0 <==>
      (exists k :: 0 <= k < |words| && Hits(words[k], s)) ||
      (HasCategoryBonus(s) && (placement == PerStory || |words| > 0))
    decreases |words|
  {
    if words != [] {
      var init := words[..|words| - 1];
      ScorePositiveIff(init, s, placement);
      if exists k :: 0 <= k < |init| && Hits(init[k], s) {
        var k :| 0 <= k < |init| && Hits(init[k], s);
        assert words[k] == init[k];
      }
      if exists k :: 0 <= k < |words| && Hits(words[k], s) {
        var k :| 0 <= k < |words| && Hits(words[k], s);
        if k < |init| {
          assert init[k] == words[k];
        }
      }
    }
  }

  /** A query with no words scores every record zero when the bonus is per
      word, and only the bonus when it is per record. */
  lemma {:induction false} EmptyQueryScore(query: string, s: Story, placement: BonusPlacement)
    requires AllSpace(query)
    ensures Score(QueryWords(query), s, placement) ==
      (if placement == PerStory && HasCategoryBonus(s) then CategoryPoints else 0)
  {
    forall k | 0 <= k < |Lower(query)| ensures IsSpace(Lower(query)[k]) {
      LowerKeepsSpace(query[k]);
    }
    SplitEmptyIff(Lower(query));
  }

  /** The score depends on the query only through its lowercase form. */
  lemma {:induction false} QueryCaseInsensitive(query: string)
    ensures QueryWords(Lower(query)) == QueryWords(query)
  {
    LowerIdempotent(query);
  }

  /** Joining two queries with a space joins their words, so the joined
      query scores every record at least what either part does. */
  lemma {:induction false} QueryJoinScore(q1: string, q2: string, s: Story, placement: BonusPlacement)
    ensures QueryWords(q1 + " " + q2) == QueryWords(q1) + QueryWords(q2)
    ensures Score(QueryWords(q1 + " " + q2), s, placement) >= Score(QueryWords(q1), s, placement)
    ensures Score(QueryWords(q1 + " " + q2), s, placement) >= Score(QueryWords(q2), s, placement)
  {
    LowerConcat(q1 + " ", q2);
    LowerConcat(q1, " ");
    assert Lower(" ") == [' '];
    SplitJoin(Lower(q1), ' ', Lower(q2));
    ScoreMonotone(QueryWords(q1), QueryWords(q2), s, placement);
    WordsScoreAppend(QueryWords(q1), QueryWords(q2), s, placement);
  }
}
