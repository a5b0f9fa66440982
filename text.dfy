/** String primitives the story scorer and the prompt builder rely on:
    Python's str.lower(), str.split(), str.strip(), the `in` substring test
    and the decimal formatting of an f-string placeholder. */
module Text {

  /** The whitespace set used by split() and strip(): ASCII whitespace plus
      the four separator controls U+001C..U+001F that Python also treats as
      whitespace. */
  predicate IsSpace(c: char) {
    c == ' ' || c == '\t' || c == '\n' || c == '\r' ||
    c == '\U{000B}' || c == '\U{000C}' ||
    ('\U{001C}' <= c <= '\U{001F}')
  }

  predicate AllSpace(s: string) {
    forall k :: 0 <= k < |s| ==> IsSpace(s[k])
  }

  predicate NoSpace(s: string) {
    forall k :: 0 <= k < |s| ==> !IsSpace(s[k])
  }

  // ---------------------------------------------------------------------
  // Lowercasing (ASCII letters only)

  function LowerChar(c: char): (d: char)
    ensures 'A' <= c <= 'Z' ==> d as int == c as int + 32
    ensures !('A' <= c <= 'Z') ==> d == c
    ensures !('A' <= d <= 'Z')
  {
    if 'A' <= c <= 'Z' then (c as int + 32) as char else c
  }

  function Lower(s: string): (r: string)
    ensures |r| == |s|
    ensures forall k :: 0 <= k < |r| ==> !('A' <= r[k] <= 'Z')
    ensures forall k :: 0 <= k < |s| ==> ('A' <= s[k] <= 'Z' <==> r[k] != s[k])
  {
    seq(|s|, k requires 0 <= k < |s| => LowerChar(s[k]))
  }

  /** Lowercasing twice is lowercasing once; it keeps whitespace in place and
      distributes over concatenation. */
  lemma {:induction false} LowerIdempotent(s: string)
    ensures Lower(Lower(s)) == Lower(s)
  {
  }

  lemma {:induction false} LowerKeepsSpace(c: char)
    ensures IsSpace(LowerChar(c)) <==> IsSpace(c)
  {
  }

  lemma {:induction false} LowerConcat(a: string, b: string)
    ensures Lower(a + b) == Lower(a) + Lower(b)
  {
    assert forall k :: 0 <= k < |a + b| ==> Lower(a + b)[k] == (Lower(a) + Lower(b))[k];
  }

  // ---------------------------------------------------------------------
  // Substring test: Python's `needle in hay` on two strings

  predicate IsPrefix(p: string, s: string) {
    |p| <= |s| && s[..|p|] == p
  }

  predicate Contains(hay: string, needle: string)
    decreases |hay|
  {
    IsPrefix(needle, hay) || (|hay| > 0 && Contains(hay[1..], needle))
  }

  predicate OccursAt(hay: string, needle: string, i: int) {
    0 <= i && i + |needle| <= |hay| && hay[i..i + |needle|] == needle
  }

  /** Contains is exactly "occurs at some offset". */
  lemma {:induction false} ContainsIff(hay: string, needle: string)
    ensures Contains(hay, needle) <==> exists i :: OccursAt(hay, needle, i)
    decreases |hay|
  {
    if Contains(hay, needle) {
      if IsPrefix(needle, hay) {
        assert OccursAt(hay, needle, 0);
      } else {
        ContainsIff(hay[1..], needle);
        var i :| OccursAt(hay[1..], needle, i);
        assert hay[1..][i..i + |needle|] == hay[i + 1..i + 1 + |needle|];
        assert OccursAt(hay, needle, i + 1);
      }
    }
    if exists i :: OccursAt(hay, needle, i) {
      var i :| OccursAt(hay, needle, i);
      if i == 0 {
        assert IsPrefix(needle, hay);
      } else {
        assert hay[1..][i - 1..i - 1 + |needle|] == hay[i..i + |needle|];
        assert OccursAt(hay[1..], needle, i - 1);
        ContainsIff(hay[1..], needle);
      }
    }
  }

  /** The empty string is in every string; nothing longer than the haystack is. */
  lemma {:induction false} ContainsEdges(hay: string, needle: string)
    ensures Contains(hay, "")
    ensures |needle| > |hay| ==> !Contains(hay, needle)
  {
    ContainsIff(hay, "");
    assert OccursAt(hay, "", 0);
    ContainsIff(hay, needle);
  }

  // ---------------------------------------------------------------------
  // Concatenation of a list of pieces, as an f-string assembles its text

  function Concat(parts: seq<string>): string {
    if parts == [] then "" else Concat(parts[..|parts| - 1]) + parts[|parts| - 1]
  }

  lemma {:induction false} ConcatAppend(a: seq<string>, b: seq<string>)
    ensures Concat(a + b) == Concat(a) + Concat(b)
    decreases |b|
  {
    if b == [] {
      assert a + b == a;
    } else {
      var b' := b[..|b| - 1];
      assert (a + b)[..|a + b| - 1] == a + b';
      assert (a + b)[|a + b| - 1] == b[|b| - 1];
      ConcatAppend(a, b');
    }
  }

  /** Piece k sits in the concatenation right after the pieces before it. */
  lemma {:induction false} ConcatPart(parts: seq<string>, k: nat)
    requires k < |parts|
    ensures OccursAt(Concat(parts), parts[k], |Concat(parts[..k])|)
  {
    assert parts == parts[..k] + [parts[k]] + parts[k + 1..];
    ConcatAppend(parts[..k] + [parts[k]], parts[k + 1..]);
    ConcatAppend(parts[..k], [parts[k]]);
    assert Concat([parts[k]]) == parts[k] by {
      assert [parts[k]][..0] == [];
    }
    var pre := Concat(parts[..k]);
    var all := Concat(parts);
    assert all == pre + parts[k] + Concat(parts[k + 1..]);
    assert all[|pre|..|pre| + |parts[k]|] == parts[k];
  }

  lemma {:induction false} ConcatContains(parts: seq<string>, k: nat)
    requires k < |parts|
    ensures Contains(Concat(parts), parts[k])
  {
    ConcatPart(parts, k);
    ContainsIff(Concat(parts), parts[k]);
  }

  // ---------------------------------------------------------------------
  // Splitting on runs of whitespace: Python's str.split() without arguments

  /** Length of the leading run of whitespace. */
  function SpanSpace(s: string): (k: nat)
    ensures k <= |s|
    ensures k < |s| ==> !IsSpace(s[k])
  {
    if s == [] || !IsSpace(s[0]) then 0 else 1 + SpanSpace(s[1..])
  }

  lemma {:induction false} SpanSpacePrefix(s: string)
    ensures AllSpace(s[..SpanSpace(s)])
  {
    if s != [] && IsSpace(s[0]) {
      SpanSpacePrefix(s[1..]);
      assert s[..SpanSpace(s)] == [s[0]] + s[1..][..SpanSpace(s[1..])];
    }
  }

  /** Length of the leading run of non-whitespace. */
  function SpanWord(s: string): (k: nat)
    ensures k <= |s|
    ensures k < |s| ==> IsSpace(s[k])
    ensures s != [] && !IsSpace(s[0]) ==> k > 0
  {
    if s == [] || IsSpace(s[0]) then 0 else 1 + SpanWord(s[1..])
  }

  lemma {:induction false} SpanWordPrefix(s: string)
    ensures NoSpace(s[..SpanWord(s)])
  {
    if s != [] && !IsSpace(s[0]) {
      SpanWordPrefix(s[1..]);
      assert s[..SpanWord(s)] == [s[0]] + s[1..][..SpanWord(s[1..])];
    }
  }

  /** Skip one whitespace character, or cut one maximal word. */
  function Split(s: string): seq<string>
    decreases |s|
  {
    if s == [] then []
    else if IsSpace(s[0]) then Split(s[1..])
    else
      var k := SpanWord(s);
      [s[..k]] + Split(s[k..])
  }

  /** Every piece split() yields is a non-empty run free of whitespace. */
  lemma {:induction false} SplitWords(s: string)
    ensures forall k :: 0 <= k < |Split(s)| ==> |Split(s)[k]| > 0 && NoSpace(Split(s)[k])
    decreases |s|
  {
    if s != [] {
      if IsSpace(s[0]) {
        SplitWords(s[1..]);
      } else {
        SpanWordPrefix(s);
        SplitWords(s[SpanWord(s)..]);
      }
    }
  }

  /** split() yields nothing exactly when the text is empty or all whitespace. */
  lemma {:induction false} SplitEmptyIff(s: string)
    ensures Split(s) == [] <==> AllSpace(s)
    decreases |s|
  {
    if s != [] && IsSpace(s[0]) {
      SplitEmptyIff(s[1..]);
      assert AllSpace(s) <==> AllSpace(s[1..]);
    }
  }

  /** A single word splits to itself. */
  lemma {:induction false} SplitWord(w: string)
    requires |w| > 0 && NoSpace(w)
    ensures Split(w) == [w]
  {
    SpanWordAll(w);
    assert w[..|w|] == w;
    assert Split(w[|w|..]) == [];
  }

  lemma {:induction false} SpanWordAll(w: string)
    requires NoSpace(w)
    ensures SpanWord(w) == |w|
  {
    if w != [] {
      SpanWordAll(w[1..]);
    }
  }

  lemma {:induction false} SpanWordExtend(a: string, b: string)
    requires b != [] ==> IsSpace(b[0])
    ensures SpanWord(a + b) == SpanWord(a)
  {
    if a == [] {
      assert a + b == b;
    } else if !IsSpace(a[0]) {
      assert (a + b)[1..] == a[1..] + b;
      SpanWordExtend(a[1..], b);
    }
  }

  /** Whitespace in front of a text does not change its split. */
  lemma {:induction false} SplitDropSpace(a: string, b: string)
    requires AllSpace(a)
    ensures Split(a + b) == Split(b)
  {
    if a == [] {
      assert a + b == b;
    } else {
      assert (a + b)[1..] == a[1..] + b;
      SplitDropSpace(a[1..], b);
    }
  }

  /** Joining two texts with a whitespace character concatenates their
      splits; together with SplitWord and SplitEmptyIff this pins split()
      down on every input. */
  lemma {:induction false} SplitJoin(a: string, c: char, b: string)
    requires IsSpace(c)
    ensures Split(a + [c] + b) == Split(a) + Split(b)
    decreases |a|
  {
    var s := a + [c] + b;
    if a == [] {
      assert s == [c] + b;
      assert s[1..] == b;
    } else if IsSpace(a[0]) {
      assert s[1..] == a[1..] + [c] + b;
      SplitJoin(a[1..], c, b);
    } else {
      var k := SpanWord(a);
      SplitJoinWord(a, c, b);
      SplitJoin(a[k..], c, b);
    }
  }

  /** The first word of a text is also the first word of the text followed
      by a whitespace character and anything else. */
  lemma {:induction false} SplitJoinWord(a: string, c: char, b: string)
    requires IsSpace(c) && a != [] && !IsSpace(a[0])
    ensures 0 < SpanWord(a) <= |a|
    ensures Split(a + [c] + b) == [a[..SpanWord(a)]] + Split(a[SpanWord(a)..] + [c] + b)
  {
    var k := SpanWord(a);
    var tail := [c] + b;
    var s := a + tail;
    assert a + [c] + b == s;
    SpanWordExtend(a, tail);
    assert s[..k] == a[..k];
    assert s[k..] == a[k..] + [c] + b;
  }

  // ---------------------------------------------------------------------
  // Trimming whitespace at both ends: Python's str.strip()

  /** Length of the trailing run of whitespace. */
  function SpanSpaceBack(s: string): (k: nat)
    ensures k <= |s|
    ensures k < |s| ==> !IsSpace(s[|s| - k - 1])
  {
    if s == [] || !IsSpace(s[|s| - 1]) then 0 else 1 + SpanSpaceBack(s[..|s| - 1])
  }

  lemma {:induction false} SpanSpaceBackSuffix(s: string)
    ensures AllSpace(s[|s| - SpanSpaceBack(s)..])
  {
    if s != [] && IsSpace(s[|s| - 1]) {
      var init := s[..|s| - 1];
      SpanSpaceBackSuffix(init);
      var k := SpanSpaceBack(init);
      assert s[|s| - SpanSpaceBack(s)..] == init[|init| - k..] + [s[|s| - 1]];
    }
  }

  function Strip(s: string): string {
    var t := s[SpanSpace(s)..];
    t[..|t| - SpanSpaceBack(t)]
  }

  /** strip() removes exactly a whitespace run at each end: what is left is
      a contiguous piece of the text, between two all-whitespace pieces, and
      it neither starts nor ends with whitespace. */
  lemma {:induction false} StripShape(s: string)
    ensures exists i, j :: 0 <= i <= j <= |s| && Strip(s) == s[i..j] && AllSpace(s[..i]) && AllSpace(s[j..])
    ensures Strip(s) == [] || (!IsSpace(Strip(s)[0]) && !IsSpace(Strip(s)[|Strip(s)| - 1]))
  {
    var i := SpanSpace(s);
    SpanSpacePrefix(s);
    var t := s[i..];
    var k := SpanSpaceBack(t);
    SpanSpaceBackSuffix(t);
    var j := |s| - k;
    assert t[..|t| - k] == s[i..j];
    assert t[|t| - k..] == s[j..];
    assert Strip(s) == s[i..j] && AllSpace(s[..i]) && AllSpace(s[j..]);
    if k < |t| {
      assert !IsSpace(t[|t| - k - 1]);
      assert t[0] == s[i];
    }
  }

  /** Text that is only whitespace strips to the empty string. */
  lemma {:induction false} StripAllSpace(s: string)
    requires AllSpace(s)
    ensures Strip(s) == []
  {
    StripShape(s);
  }

  // ---------------------------------------------------------------------
  // Decimal formatting of a natural number, as `{i+1}` does in an f-string

  function Digit(d: nat): char
    requires d < 10
  {
    "0123456789"[d]
  }

  function DigitValue(c: char): int {
    c as int - '0' as int
  }

  predicate IsDigit(c: char) {
    '0' <= c <= '9'
  }

  function NatToString(n: nat): string {
    if n < 10 then [Digit(n)] else NatToString(n / 10) + [Digit(n % 10)]
  }

  function ParseNat(s: string): int {
    if s == [] then 0 else 10 * ParseNat(s[..|s| - 1]) + DigitValue(s[|s| - 1])
  }

  /** The decimal numeral is non-empty, made of digits, has no leading zero,
      and reads back as the number it was made from. */
  lemma {:induction false} NatToStringRoundTrip(n: nat)
    ensures |NatToString(n)| > 0
    ensures forall k :: 0 <= k < |NatToString(n)| ==> IsDigit(NatToString(n)[k])
    ensures NatToString(n)[0] == '0' ==> n == 0
    ensures ParseNat(NatToString(n)) == n
  {
    if n >= 10 {
      NatToStringRoundTrip(n / 10);
      var s := NatToString(n);
      assert s[..|s| - 1] == NatToString(n / 10);
    }
  }
}
