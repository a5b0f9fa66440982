/** find_stories as the step-by-step procedure it is: a scoring pass over
    the catalog with a nested pass over the query words, an in-place stable
    sort of the (score, row) list, and the final cut-off and filter. */
module Retrieval {
  import opened Text
  import opened Catalog
  import opened Ranking

  /** The default number of stories asked for. */
  const DefaultCount: int := 3

  method FindStories(catalog: seq<Story>, query: string, placement: BonusPlacement, n: int := DefaultCount)
    returns (stories: seq<Story>)
    ensures stories == Rank(catalog, query, n, placement)
  {
    var queryLower := Lower(query);
    var words := Split(queryLower);
    var scores := new Scored[|catalog|];
    var i := 0;
    while i < |catalog|
      invariant 0 <= i <= |catalog|
      invariant forall k :: 0 <= k < i ==> scores[k] == Scored(Score(words, catalog[k], placement), k, catalog[k])
    {
      var row := catalog[i];
      var score := ScoreRow(words, row, placement);
      scores[i] := Scored(score, i, row);
      i := i + 1;
    }
    assert scores[..] == ScoreAll(catalog, words, placement);
    SortByScore(scores);
    stories := Stories(Top(scores[..], n));
  }

  /** The body of the loop over rows: the four lowercased fields, the loop
      over the query words and the category bonus. */
  method ScoreRow(words: seq<string>, row: Story, placement: BonusPlacement) returns (score: nat)
    ensures score == Score(words, row, placement)
  {
    score := 0;
    var tags := Lower(row.tags);
    var title := Lower(row.title);
    var summary := Lower(row.summary);
    var category := Lower(row.category);
    var j := 0;
    while j < |words|
      invariant 0 <= j <= |words|
      invariant score == WordsScore(words[..j], row, placement)
    {
      var word := words[j];
      assert words[..j + 1][..j] == words[..j];
      if Contains(tags, word) {
        score := score + TagPoints;
      }
      if Contains(title, word) {
        score := score + TitlePoints;
      }
      if Contains(summary, word) {
        score := score + SummaryPoints;
      }
      if placement == PerWord && Contains(category, CategoryKeyword) {
        score := score + CategoryPoints;
      }
      j := j + 1;
    }
    assert words[..j] == words;
    if placement == PerStory && Contains(category, CategoryKeyword) {
      score := score + CategoryPoints;
    }
  }

  /** list.sort(key=score, reverse=True) on the scores list: an insertion
      sort that moves an entry left only past entries scoring strictly less,
      so equal scores keep their order. */
  method SortByScore(a: array<Scored>)
    modifies a
    ensures a[..] == SortDesc(old(a[..]))
  {
    ghost var input := a[..];
    var i := 0;
    while i < a.Length
      invariant 0 <= i <= a.Length
      invariant a[..i] == SortDesc(input[..i])
      invariant forall k :: i <= k < a.Length ==> a[k] == input[k]
    {
      assert input[..i + 1] == input[..i] + [input[i]];
      assert input[..i + 1][..i] == input[..i];
      InsertLast(a, i);
      i := i + 1;
    }
    assert a[..] == a[..a.Length];
    assert input == input[..a.Length];
  }

  /** One pass of the insertion sort: a[i] moves left past the entries of the
      sorted prefix a[..i] that score strictly less than it. */
  method InsertLast(a: array<Scored>, i: nat)
    requires i < a.Length
    modifies a
    ensures a[..i + 1] == InsertByScore(old(a[..i]), old(a[i]))
    ensures forall k :: i < k < a.Length ==> a[k] == old(a[k])
  {
    var x := a[i];
    ghost var t := a[..i];
    ghost var at := InsertSplit(t, x);
    ghost var r := InsertByScore(t, x);
    var j := i;
    while j > 0 && a[j - 1].score < x.score
      invariant at <= j <= i
      invariant forall k :: 0 <= k < j ==> a[k] == t[k]
      invariant forall k :: j < k <= i ==> a[k] == t[k - 1]
      invariant forall k :: i < k < a.Length ==> a[k] == old(a[k])
    {
      a[j] := a[j - 1];
      j := j - 1;
    }
    assert j == at;
    a[j] := x;
    forall k | 0 <= k < i + 1 ensures a[k] == r[k] {
      if k < j {
        assert r[k] == t[k];
      } else if k > j {
        assert r[k] == t[k - 1];
      }
    }
    assert a[..i + 1] == r;
  }
}
