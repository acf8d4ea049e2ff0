/**
 The two pieces of Go's `strings` package that the selector parser relies on:
 `strings.TrimSpace` (whitespace as `unicode.IsSpace` defines it) and
 `strings.Split` with a one-character separator.
 */
module Text {

  /** `unicode.IsSpace`: the Latin-1 spaces plus the Unicode White_Space characters. */
  predicate IsSpace(c: char) {
    || c == ' ' || c == '\t' || c == '\n' || c == '\U{000B}' || c == '\U{000C}' || c == '\r'
    || c == '\U{0085}' || c == '\U{00A0}' || c == '\U{1680}'
    || ('\U{2000}' <= c <= '\U{200A}')
    || c == '\U{2028}' || c == '\U{2029}' || c == '\U{202F}' || c == '\U{205F}' || c == '\U{3000}'
  }

  predicate AllSpace(s: string) {
    forall i :: 0 <= i < |s| ==> IsSpace(s[i])
  }

  /** Nothing left to trim: `s` is empty or starts and ends with a non-space. */
  predicate Tight(s: string) {
    |s| == 0 || (!IsSpace(s[0]) && !IsSpace(s[|s| - 1]))
  }

  /** Drops leading whitespace; the result is a suffix of `s`. */
  function TrimLeft(s: string): (r: string)
    ensures |r| <= |s| && r == s[|s| - |r|..]
    ensures AllSpace(s[..|s| - |r|])
    ensures |r| > 0 ==> !IsSpace(r[0])
  {
    if |s| > 0 && IsSpace(s[0]) then TrimLeft(s[1..]) else s
  }

  /** Drops trailing whitespace; the result is a prefix of `s`. */
  function TrimRight(s: string): (r: string)
    ensures |r| <= |s| && r == s[..|r|]
    ensures AllSpace(s[|r|..])
    ensures |r| > 0 ==> !IsSpace(r[|r| - 1])
  {
    if |s| > 0 && IsSpace(s[|s| - 1]) then TrimRight(s[..|s| - 1]) else s
  }

  /** `strings.TrimSpace`. */
  function Trim(s: string): (r: string)
    ensures Tight(r)
    ensures |r| <= |s|
    ensures r == "" <==> AllSpace(s)
  {
    TrimRight(TrimLeft(s))
  }

  lemma {:induction false} TrimLeftSkips(w: string, x: string)
    requires AllSpace(w)
    requires |x| == 0 || !IsSpace(x[0])
    ensures TrimLeft(w + x) == x
    decreases |w|
  {
    if |w| > 0 {
      assert (w + x)[1..] == w[1..] + x;
      TrimLeftSkips(w[1..], x);
    } else {
      assert w + x == x;
    }
  }

  lemma {:induction false} TrimRightSkips(x: string, w: string)
    requires AllSpace(w)
    requires |x| == 0 || !IsSpace(x[|x| - 1])
    ensures TrimRight(x + w) == x
    decreases |w|
  {
    if |w| > 0 {
      assert (x + w)[..|x + w| - 1] == x + w[..|w| - 1];
      TrimRightSkips(x, w[..|w| - 1]);
    } else {
      assert x + w == x;
    }
  }

  /** Trimming is characterised by its result: whatever tight core is
      surrounded by whitespace alone is what `Trim` returns. */
  lemma TrimOf(w1: string, x: string, w2: string)
    requires AllSpace(w1) && AllSpace(w2) && Tight(x)
    ensures Trim(w1 + x + w2) == x
  {
    if |x| > 0 {
      assert w1 + x + w2 == w1 + (x + w2);
      TrimLeftSkips(w1, x + w2);
      TrimRightSkips(x, w2);
    } else {
      assert w1 + x + w2 == (w1 + w2) + x;
      assert AllSpace(w1 + w2);
      TrimLeftSkips(w1 + w2, x);
    }
  }

  /** A suffix `l` of `s` and a prefix `r` of `l` cut `s` into three pieces. */
  lemma SuffixPrefix(s: string, l: string, r: string)
    requires |l| <= |s| && l == s[|s| - |l|..]
    requires |r| <= |l| && r == l[..|r|]
    ensures s == s[..|s| - |l|] + r + l[|r|..]
  {
    assert l == r + l[|r|..];
    assert s == s[..|s| - |l|] + l;
  }

  lemma TrimOfSuffixed(x: string, w: string)
    requires AllSpace(w) && Tight(x)
    ensures Trim(x + w) == x
  {
    TrimOf([], x, w);
    assert [] + x + w == x + w;
  }

  lemma TrimOfPrefixed(w: string, x: string)
    requires AllSpace(w) && Tight(x)
    ensures Trim(w + x) == x
  {
    TrimOf(w, x, []);
    assert w + x + [] == w + x;
  }

  lemma TightIsTrimmed(s: string)
    requires Tight(s)
    ensures Trim(s) == s
  {
    TrimOf([], s, []);
    assert [] + s + [] == s;
  }

  /** Every string is its trimmed core surrounded by whitespace. */
  lemma TrimParts(s: string) returns (w1: string, w2: string)
    ensures AllSpace(w1) && AllSpace(w2)
    ensures s == w1 + Trim(s) + w2
  {
    var l := TrimLeft(s);
    var r := TrimRight(l);
    SuffixPrefix(s, l, r);
    w1 := s[..|s| - |l|];
    w2 := l[|r|..];
  }

  lemma AllSpaceConcat(a: string, b: string)
    requires AllSpace(a) && AllSpace(b)
    ensures AllSpace(a + b)
  {
    assert forall i :: 0 <= i < |a + b| ==> (a + b)[i] == (if i < |a| then a[i] else b[i - |a|]);
  }

  lemma {:induction false} TrimLeftAbsorbs(w: string, s: string)
    requires AllSpace(w)
    ensures TrimLeft(w + s) == TrimLeft(s)
    decreases |w|
  {
    if |w| > 0 {
      assert (w + s)[1..] == w[1..] + s;
      TrimLeftAbsorbs(w[1..], s);
    } else {
      assert w + s == s;
    }
  }

  /** Whitespace added in front does not change the trimmed result. */
  lemma TrimAbsorbsLeft(w: string, s: string)
    requires AllSpace(w)
    ensures Trim(w + s) == Trim(s)
  {
    TrimLeftAbsorbs(w, s);
  }

  /** Whitespace added behind does not change the trimmed result. */
  lemma TrimAbsorbsRight(s: string, w: string)
    requires AllSpace(w)
    ensures Trim(s + w) == Trim(s)
  {
    var u1, u2 := TrimParts(s);
    var t := Trim(s);
    AllSpaceConcat(u2, w);
    AppendToLast(s, u1, t, u2, w);
    TrimOf(u1, t, u2 + w);
  }

  lemma AppendToLast(s: string, a: string, b: string, c: string, w: string)
    requires s == a + b + c
    ensures s + w == a + b + (c + w)
  {
  }

  /** Position of the first `c` in `s`. */
  function IndexOf(s: string, c: char): (i: nat)
    requires c in s
    ensures i < |s| && s[i] == c && c !in s[..i]
  {
    if s[0] == c then 0 else 1 + IndexOf(s[1..], c)
  }

  /** The inverse of `SplitOn`: the parts glued back with the separator. */
  function Join(parts: seq<string>, c: char): string
    requires |parts| >= 1
  {
    if |parts| == 1 then parts[0] else parts[0] + [c] + Join(parts[1..], c)
  }

  lemma JoinTwo(parts: seq<string>, c: char)
    requires |parts| == 2
    ensures Join(parts, c) == parts[0] + [c] + parts[1]
  {
    assert parts[1..] == [parts[1]];
  }

  /** `strings.Split(s, string(c))`: the maximal separator-free pieces of `s`. */
  function SplitOn(s: string, c: char): (parts: seq<string>)
    ensures |parts| >= 1
    ensures forall i :: 0 <= i < |parts| ==> c !in parts[i]
    ensures Join(parts, c) == s
    decreases |s|
  {
    if c !in s then [s]
    else
      var i := IndexOf(s, c);
      var rest := SplitOn(s[i + 1..], c);
      assert ([s[..i]] + rest)[1..] == rest;
      assert s == s[..i] + [c] + s[i + 1..];
      [s[..i]] + rest
  }

  /** Splitting a joined list of separator-free parts gives the parts back. */
  lemma {:induction false} SplitJoin(parts: seq<string>, c: char)
    requires |parts| >= 1
    requires forall i :: 0 <= i < |parts| ==> c !in parts[i]
    ensures SplitOn(Join(parts, c), c) == parts
    decreases |parts|
  {
    if |parts| > 1 {
      var s := Join(parts, c);
      var p := parts[0];
      assert s == p + [c] + Join(parts[1..], c);
      assert c in s by { assert s[|p|] == c; }
      var i := IndexOf(s, c);
      assert forall j :: 0 <= j < |p| ==> s[j] == p[j];
      assert i == |p|;
      assert s[..i] == p;
      assert s[i + 1..] == Join(parts[1..], c);
      SplitJoin(parts[1..], c);
      assert parts == [p] + parts[1..];
    } else {
      assert c !in Join(parts, c);
    }
  }
}
