/** What find_stories returns, as specification functions: every record
    scored, a stable sort by descending score, the first n kept, and the
    zero scores dropped. */
module Ranking {
  import opened Text
  import opened Catalog

  /** One (score, row) pair of the scores list; pos is the row's position in
      the catalog, which is what tells equal rows apart. */
  datatype Scored = Scored(score: nat, pos: nat, story: Story)

  function ScoreAll(catalog: seq<Story>, words: seq<string>, placement: BonusPlacement): (r: seq<Scored>)
    ensures |r| == |catalog|
    ensures forall i :: 0 <= i < |catalog| ==> r[i] == Scored(Score(words, catalog[i], placement), i, catalog[i])
  {
    seq(|catalog|, i requires 0 <= i < |catalog| => Scored(Score(words, catalog[i], placement), i, catalog[i]))
  }

  // ---------------------------------------------------------------------
  // The stable descending sort (list.sort with reverse=True)

  /** Put x behind every entry that scores at least as much: where a stable
      descending sort places an entry that came later. */
  function InsertByScore(t: seq<Scored>, x: Scored): seq<Scored> {
    if t == [] || t[|t| - 1].score >= x.score then t + [x]
    else InsertByScore(t[..|t| - 1], x) + [t[|t| - 1]]
  }

  /** Insertion sort, taking the entries in list order. */
  function SortDesc(s: seq<Scored>): seq<Scored> {
    if s == [] then [] else InsertByScore(SortDesc(s[..|s| - 1]), s[|s| - 1])
  }

  predicate NonIncreasing(r: seq<Scored>) {
    forall i, j :: 0 <= i < j < |r| ==> r[i].score >= r[j].score
  }

  /** The order find_stories puts entries in: higher score first, equal
      scores in catalog order. */
  predicate Before(a: Scored, b: Scored) {
    a.score > b.score || (a.score == b.score && a.pos < b.pos)
  }

  predicate Ranked(r: seq<Scored>) {
    forall i, j :: 0 <= i < j < |r| ==> Before(r[i], r[j])
  }

  predicate PosIncreasing(s: seq<Scored>) {
    forall i, j :: 0 <= i < j < |s| ==> s[i].pos < s[j].pos
  }

  /** Inserting puts x between the entries that score at least as much and
      those that score less. */
  lemma {:induction false} InsertSplit(t: seq<Scored>, x: Scored) returns (k: nat)
    ensures k <= |t|
    ensures InsertByScore(t, x) == t[..k] + [x] + t[k..]
    ensures forall j :: k <= j < |t| ==> t[j].score < x.score
    ensures k > 0 ==> t[k - 1].score >= x.score
    decreases |t|
  {
    if t == [] || t[|t| - 1].score >= x.score {
      k := |t|;
      assert t[..k] == t && t[k..] == [];
    } else {
      var init := t[..|t| - 1];
      k := InsertSplit(init, x);
      assert init[..k] == t[..k];
      assert init[k..] + [t[|t| - 1]] == t[k..];
    }
  }

  lemma {:induction false} InsertPerm(t: seq<Scored>, x: Scored)
    ensures multiset(InsertByScore(t, x)) == multiset(t) + multiset{x}
  {
    var k := InsertSplit(t, x);
    assert t == t[..k] + t[k..];
  }

  /** The sort returns a permutation of its input. */
  lemma {:induction false} SortPerm(s: seq<Scored>)
    ensures multiset(SortDesc(s)) == multiset(s)
    ensures |SortDesc(s)| == |s|
    decreases |s|
  {
    if s != [] {
      var init := s[..|s| - 1];
      SortPerm(init);
      InsertPerm(SortDesc(init), s[|s| - 1]);
      assert s == init + [s[|s| - 1]];
    }
  }

  lemma {:induction false} InsertSorted(t: seq<Scored>, x: Scored)
    requires NonIncreasing(t)
    ensures NonIncreasing(InsertByScore(t, x))
  {
    var k := InsertSplit(t, x);
    var r := InsertByScore(t, x);
    forall i, j | 0 <= i < j < |r| ensures r[i].score >= r[j].score {
      assert r[i] == if i < k then t[i] else if i == k then x else t[i - 1];
      assert r[j] == if j < k then t[j] else if j == k then x else t[j - 1];
    }
  }

  /** The sort's output never rises in score. */
  lemma {:induction false} SortSorted(s: seq<Scored>)
    ensures NonIncreasing(SortDesc(s))
    decreases |s|
  {
    if s != [] {
      SortSorted(s[..|s| - 1]);
      InsertSorted(SortDesc(s[..|s| - 1]), s[|s| - 1]);
    }
  }

  lemma {:induction false} InsertRanked(t: seq<Scored>, x: Scored)
    requires Ranked(t)
    requires forall y :: y in t ==> y.pos < x.pos
    ensures Ranked(InsertByScore(t, x))
  {
    var k := InsertSplit(t, x);
    var r := InsertByScore(t, x);
    forall i, j | 0 <= i < j < |r| ensures Before(r[i], r[j]) {
      assert r[i] == if i < k then t[i] else if i == k then x else t[i - 1];
      assert r[j] == if j < k then t[j] else if j == k then x else t[j - 1];
      if i < k && j == k {
        assert t[i] in t;
        assert i == k - 1 || Before(t[i], t[k - 1]);
      }
    }
  }

  /** The sort is stable: entries that came in catalog order leave it
      ordered by score and, between equal scores, still in catalog order. */
  lemma {:induction false} SortStable(s: seq<Scored>)
    requires PosIncreasing(s)
    ensures Ranked(SortDesc(s))
    decreases |s|
  {
    if s != [] {
      var init := s[..|s| - 1];
      var x := s[|s| - 1];
      SortStable(init);
      SortPerm(init);
      forall y | y in SortDesc(init) ensures y.pos < x.pos {
        assert y in multiset(init);
        var i :| 0 <= i < |init| && init[i] == y;
      }
      InsertRanked(SortDesc(init), x);
    }
  }

  // ---------------------------------------------------------------------
  // Cut-off and filter (the comprehension over scores[:n])

  /** Python's rule for s[:n]: index k is kept when it is below n, or, for
      a negative n, below the length plus n. */
  predicate SliceKeeps(len: nat, n: int, k: nat) {
    if n >= 0 then k < n else k < len + n
  }

  /** Where Python's slice s[:n] stops, negative n counting from the end. */
  function SliceStop(len: nat, n: int): (stop: nat)
    ensures stop <= len
    ensures forall k: nat :: k < len ==> (k < stop <==> SliceKeeps(len, n, k))
  {
    if n >= 0 then (if n <= len then n else len)
    else if len + n >= 0 then len + n else 0
  }

  function Take(s: seq<Scored>, n: int): seq<Scored> {
    s[..SliceStop(|s|, n)]
  }

  /** The entries with a positive score, in order. */
  function Positive(s: seq<Scored>): seq<Scored> {
    if s == [] then []
    else (if s[0].score > 0 then [s[0]] else []) + Positive(s[1..])
  }

  /** `[row for score, row in scores[:n] if score > 0]`, before the rows are
      taken out of their pairs. */
  function Top(sorted: seq<Scored>, n: int): seq<Scored> {
    Positive(Take(sorted, n))
  }

  function Stories(r: seq<Scored>): (stories: seq<Story>)
    ensures |stories| == |r|
    ensures forall k :: 0 <= k < |r| ==> stories[k] == r[k].story
  {
    seq(|r|, k requires 0 <= k < |r| => r[k].story)
  }

  /** The scored entries find_stories keeps. */
  function RankScored(catalog: seq<Story>, query: string, n: int, placement: BonusPlacement): seq<Scored> {
    Top(SortDesc(ScoreAll(catalog, QueryWords(query), placement)), n)
  }

  /** The records find_stories returns. */
  function Rank(catalog: seq<Story>, query: string, n: int, placement: BonusPlacement): seq<Story> {
    Stories(RankScored(catalog, query, n, placement))
  }

  // ---------------------------------------------------------------------
  // Properties of the filter

  /** The filter keeps exactly the positive entries. */
  lemma {:induction false} PositiveMembers(s: seq<Scored>)
    ensures |Positive(s)| <= |s|
    ensures forall e :: e in Positive(s) <==> e in s && e.score > 0
    decreases |s|
  {
    if s != [] {
      PositiveMembers(s[1..]);
      assert s == [s[0]] + s[1..];
    }
  }

  /** Filtering keeps the relative order, so a ranked list stays ranked. */
  lemma {:induction false} PositiveRanked(s: seq<Scored>)
    requires Ranked(s)
    ensures Ranked(Positive(s))
    decreases |s|
  {
    if s != [] {
      var rest := s[1..];
      assert Ranked(rest);
      PositiveRanked(rest);
      PositiveMembers(rest);
      var r := Positive(s);
      if s[0].score > 0 {
        forall j | 0 < j < |r| ensures Before(r[0], r[j]) {
          assert r[j] in Positive(rest);
          var m :| 0 <= m < |rest| && rest[m] == r[j];
          assert s[m + 1] == rest[m];
        }
      }
    }
  }

  lemma {:induction false} PositiveAllZero(s: seq<Scored>)
    requires forall k :: 0 <= k < |s| ==> s[k].score == 0
    ensures Positive(s) == []
    decreases |s|
  {
    if s != [] {
      PositiveAllZero(s[1..]);
    }
  }

  /** On a list sorted by descending score, cutting at n and then dropping
      zero scores is the same as dropping zero scores and then cutting at n. */
  lemma {:induction false} SliceFilterCommute(s: seq<Scored>, n: nat)
    requires NonIncreasing(s)
    ensures Positive(Take(s, n)) == Take(Positive(s), n)
    decreases |s|
  {
    if s == [] || n == 0 {
      PositiveMembers(s);
    } else if s[0].score > 0 {
      var rest := s[1..];
      SliceFilterCommute(rest, n - 1);
      TakeCons(s, n);
    } else {
      var cut := Take(s, n);
      assert forall k :: 0 <= k < |s| ==> s[k].score == 0 by {
        forall k | 0 <= k < |s| ensures s[k].score == 0 {
          assert k == 0 || s[0].score >= s[k].score;
        }
      }
      PositiveAllZero(s);
      PositiveAllZero(cut);
    }
  }

  lemma {:induction false} TakeCons(s: seq<Scored>, n: nat)
    requires s != [] && n > 0
    ensures Take(s, n) == [s[0]] + Take(s[1..], n - 1)
  {
  }

  /** A positive entry that the cut-off leaves out has n entries ahead of it
      in the result, each ranking before it. */
  lemma {:induction false} TopComplete(sorted: seq<Scored>, n: nat, x: Scored)
    requires Ranked(sorted)
    requires x in sorted && x.score > 0
    requires x !in Top(sorted, n)
    ensures |Top(sorted, n)| == n
    ensures forall e :: e in Top(sorted, n) ==> Before(e, x)
  {
    assert NonIncreasing(sorted);
    SliceFilterCommute(sorted, n);
    var pos := Positive(sorted);
    var r := Top(sorted, n);
    PositiveMembers(sorted);
    PositiveRanked(sorted);
    var k :| 0 <= k < |pos| && pos[k] == x;
    assert k >= n;
    forall e | e in r ensures Before(e, x) {
      var j :| 0 <= j < |r| && r[j] == e;
      assert pos[j] == e;
    }
  }

  // ---------------------------------------------------------------------
  // Properties of find_stories' result

  /** The result never holds more than the slice lets through: at most n
      records, and none at all for n == 0. */
  lemma {:induction false} RankBound(catalog: seq<Story>, query: string, n: int, placement: BonusPlacement)
    ensures |Rank(catalog, query, n, placement)| <= SliceStop(|catalog|, n)
    ensures n >= 0 ==> |Rank(catalog, query, n, placement)| <= n
    ensures n == 0 ==> Rank(catalog, query, n, placement) == []
  {
    var all := ScoreAll(catalog, QueryWords(query), placement);
    SortPerm(all);
    PositiveMembers(Take(SortDesc(all), n));
  }

  /** Every kept entry is a catalog record with its own positive score. */
  lemma {:induction false} RankSound(catalog: seq<Story>, query: string, n: int, placement: BonusPlacement)
    ensures forall e :: e in RankScored(catalog, query, n, placement) ==>
      e.pos < |catalog| && e.story == catalog[e.pos] &&
      e.score == Score(QueryWords(query), catalog[e.pos], placement) && e.score > 0
  {
    var all := ScoreAll(catalog, QueryWords(query), placement);
    var sorted := SortDesc(all);
    SortPerm(all);
    PositiveMembers(Take(sorted, n));
    forall e | e in RankScored(catalog, query, n, placement)
      ensures e.pos < |catalog| && e.story == catalog[e.pos]
      ensures e.score == Score(QueryWords(query), catalog[e.pos], placement) && e.score > 0
    {
      assert e in Take(sorted, n);
      assert e in multiset(all);
      var i :| 0 <= i < |all| && all[i] == e;
    }
  }

  /** The kept entries run from the highest score down, and entries with
      equal scores appear in catalog order. */
  lemma {:induction false} RankOrdered(catalog: seq<Story>, query: string, n: int, placement: BonusPlacement)
    ensures Ranked(RankScored(catalog, query, n, placement))
  {
    var all := ScoreAll(catalog, QueryWords(query), placement);
    SortStable(all);
    var sorted := SortDesc(all);
    var cut := Take(sorted, n);
    assert Ranked(cut) by {
      forall i, j | 0 <= i < j < |cut| ensures Before(cut[i], cut[j]) {
        assert cut[i] == sorted[i] && cut[j] == sorted[j];
      }
    }
    PositiveRanked(cut);
  }

  /** No positive record is passed over unless the result is full, and a
      record that is passed over ranks behind every record that is kept. */
  lemma {:induction false} RankComplete(catalog: seq<Story>, query: string, n: nat, placement: BonusPlacement, i: nat)
    requires i < |catalog|
    requires Score(QueryWords(query), catalog[i], placement) > 0
    requires forall e :: e in RankScored(catalog, query, n, placement) ==> e.pos != i
    ensures |RankScored(catalog, query, n, placement)| == n
    ensures forall e :: e in RankScored(catalog, query, n, placement) ==>
      Before(e, Scored(Score(QueryWords(query), catalog[i], placement), i, catalog[i]))
  {
    var all := ScoreAll(catalog, QueryWords(query), placement);
    var x := all[i];
    var sorted := SortDesc(all);
    SortPerm(all);
    SortStable(all);
    assert x in multiset(sorted);
    TopComplete(sorted, n, x);
  }

  /** With the bonus inside the word loop, a query of whitespace only has no
      words, every record scores zero and nothing is returned. */
  lemma {:induction false} RankEmptyQuery(catalog: seq<Story>, query: string, n: int)
    requires AllSpace(query)
    ensures Rank(catalog, query, n, PerWord) == []
  {
    var r := RankScored(catalog, query, n, PerWord);
    RankSound(catalog, query, n, PerWord);
    if r != [] {
      assert r[0] in r;
      EmptyQueryScore(query, catalog[r[0].pos], PerWord);
      assert false;
    }
  }

  /** With the bonus after the word loop, a query of whitespace only returns
      records of the "stories" category only, all of them while fewer than n
      are returned. */
  lemma {:induction false} RankEmptyQueryPerStory(catalog: seq<Story>, query: string, n: nat, i: nat)
    requires AllSpace(query)
    requires i < |catalog| && HasCategoryBonus(catalog[i])
    ensures forall s :: s in Rank(catalog, query, n, PerStory) ==> HasCategoryBonus(s)
    ensures |Rank(catalog, query, n, PerStory)| < n ==> catalog[i] in Rank(catalog, query, n, PerStory)
  {
    var r := RankScored(catalog, query, n, PerStory);
    RankSound(catalog, query, n, PerStory);
    forall s | s in Rank(catalog, query, n, PerStory) ensures HasCategoryBonus(s) {
      var k :| 0 <= k < |r| && Stories(r)[k] == s;
      assert r[k] in r;
      EmptyQueryScore(query, catalog[r[k].pos], PerStory);
    }
    if |r| < n {
      EmptyQueryScore(query, catalog[i], PerStory);
      if forall e :: e in r ==> e.pos != i {
        RankComplete(catalog, query, n, PerStory, i);
      }
      var e :| e in r && e.pos == i;
      var k :| 0 <= k < |r| && r[k] == e;
      assert Stories(r)[k] == catalog[i];
    }
  }

  /** Capitalisation of the query never changes the result. */
  lemma {:induction false} RankCaseInsensitive(catalog: seq<Story>, query: string, n: int, placement: BonusPlacement)
    ensures Rank(catalog, Lower(query), n, placement) == Rank(catalog, query, n, placement)
  {
    QueryCaseInsensitive(query);
  }

  /** With nothing scoring zero, the filter keeps every entry. */
  lemma {:induction false} PositiveKeepsAll(s: seq<Scored>)
    requires forall k :: 0 <= k < |s| ==> s[k].score > 0
    ensures Positive(s) == s
    decreases |s|
  {
    if s != [] {
      PositiveKeepsAll(s[1..]);
    }
  }

  /** When n covers the whole catalog and every record scores above zero,
      find_stories returns every record, each once. */
  lemma {:induction false} RankAllPositive(catalog: seq<Story>, query: string, n: int, placement: BonusPlacement)
    requires n >= |catalog|
    requires forall i :: 0 <= i < |catalog| ==> Score(QueryWords(query), catalog[i], placement) > 0
    ensures |Rank(catalog, query, n, placement)| == |catalog|
    ensures forall i :: 0 <= i < |catalog| ==> catalog[i] in Rank(catalog, query, n, placement)
  {
    var all := ScoreAll(catalog, QueryWords(query), placement);
    var sorted := SortDesc(all);
    SortPerm(all);
    assert Take(sorted, n) == sorted;
    forall k | 0 <= k < |sorted| ensures sorted[k].score > 0 {
      assert sorted[k] in multiset(all);
    }
    PositiveKeepsAll(sorted);
    var r := RankScored(catalog, query, n, placement);
    assert r == sorted;
    forall i | 0 <= i < |catalog| ensures catalog[i] in Rank(catalog, query, n, placement) {
      assert all[i] in multiset(sorted);
      var k :| 0 <= k < |r| && r[k] == all[i];
      assert Stories(r)[k] == catalog[i];
    }
  }

  /** Every record of the "stories" category earns the bonus, so once the
      query has a word (or with the bonus per record, even without one) no
      such record is ever filtered out: a catalog made only of them comes
      back whole whenever n covers it. */
  lemma {:induction false} RankBonusKeepsAll(catalog: seq<Story>, query: string, n: int, placement: BonusPlacement)
    requires n >= |catalog|
    requires forall i :: 0 <= i < |catalog| ==> HasCategoryBonus(catalog[i])
    requires placement == PerStory || QueryWords(query) != []
    ensures |Rank(catalog, query, n, placement)| == |catalog|
    ensures forall i :: 0 <= i < |catalog| ==> catalog[i] in Rank(catalog, query, n, placement)
  {
    forall i | 0 <= i < |catalog| ensures Score(QueryWords(query), catalog[i], placement) > 0 {
      ScorePositiveIff(QueryWords(query), catalog[i], placement);
    }
    RankAllPositive(catalog, query, n, placement);
  }
}

