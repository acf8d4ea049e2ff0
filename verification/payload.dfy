/**
 The value stored under a domain in the `config-domain` record.

 The command stores `""` when no selector is given and otherwise the YAML
 form of the Go struct `domainSelector{Selector: labels}`. This model uses a
 YAML-shaped stand-in for that text: a `selector:` header line, then one line
 per label with key and value double-quoted, keys in ascending code-point
 order. What the rest of the model relies on is proved here: the payload is
 empty exactly when there are no labels, and decoding a payload gives its
 labels back.
 */
module SelectorPayload {
  import opened Results

  const Header: string := "selector:\n"

  /** Code-point lexicographic order on strings (a prefix comes first). */
  predicate Below(a: string, b: string)
    decreases |a|
  {
    |a| == 0 || (|b| > 0 && (a[0] < b[0] || (a[0] == b[0] && Below(a[1..], b[1..]))))
  }

  lemma BelowTotal(a: string, b: string)
    ensures Below(a, b) || Below(b, a)
    decreases |a|
  {
    if |a| > 0 && |b| > 0 && a[0] == b[0] {
      BelowTotal(a[1..], b[1..]);
    }
  }

  lemma BelowAntisymmetric(a: string, b: string)
    requires Below(a, b) && Below(b, a)
    ensures a == b
    decreases |a|
  {
    if |a| > 0 && |b| > 0 {
      BelowAntisymmetric(a[1..], b[1..]);
      assert a == [a[0]] + a[1..] && b == [b[0]] + b[1..];
    }
  }

  lemma BelowTransitive(a: string, b: string, c: string)
    requires Below(a, b) && Below(b, c)
    ensures Below(a, c)
    decreases |a|
  {
    if |a| > 0 && |b| > 0 && |c| > 0 && a[0] == b[0] && b[0] == c[0] {
      BelowTransitive(a[1..], b[1..], c[1..]);
    }
  }

  /** Every finite non-empty set of strings has a least element. */
  lemma {:induction false} LeastExists(s: set<string>)
    requires s != {}
    ensures exists k :: k in s && forall y :: y in s ==> Below(k, y)
    decreases s
  {
    var x :| x in s;
    if s != {x} {
      LeastExists(s - {x});
      var k :| k in s - {x} && forall y :: y in s - {x} ==> Below(k, y);
      BelowTotal(k, x);
      if Below(k, x) {
        assert forall y :: y in s ==> Below(k, y);
      } else {
        forall y | y in s ensures Below(x, y) {
          if y != x {
            BelowTransitive(x, k, y);
          } else {
            BelowTotal(x, x);
          }
        }
      }
    } else {
      assert Below(x, x) by { BelowTotal(x, x); }
    }
  }

  /** The least key of a non-empty key set. */
  function Least(s: set<string>): (k: string)
    requires s != {}
    ensures k in s && forall y :: y in s ==> Below(k, y)
  {
    LeastExists(s);
    forall a, b | Below(a, b) && Below(b, a) ensures a == b {
      BelowAntisymmetric(a, b);
    }
    var k :| k in s && forall y :: y in s ==> Below(k, y);
    k
  }

  /** The keys of a set in ascending code-point order, each once. */
  function SortedKeys(s: set<string>): (ks: seq<string>)
    ensures forall k :: k in ks <==> k in s
    ensures forall i, j :: 0 <= i < j < |ks| ==> ks[i] != ks[j] && Below(ks[i], ks[j])
    decreases s
  {
    if s == {} then []
    else
      var k := Least(s);
      [k] + SortedKeys(s - {k})
  }

  /** Backslash before `"` and `\`, as in a YAML double-quoted scalar. */
  function Escape(s: string): string {
    if s == [] then []
    else (if s[0] == '"' || s[0] == '\\' then ['\\', s[0]] else [s[0]]) + Escape(s[1..])
  }

  function Quote(s: string): string {
    "\"" + Escape(s) + "\""
  }

  /** One `key: value` line under the `selector:` header. */
  function Line(k: string, v: string): string {
    "  " + Quote(k) + ": " + Quote(v) + "\n"
  }

  function Lines(ks: seq<string>, labels: map<string, string>): string
    requires forall k :: k in ks ==> k in labels
  {
    if ks == [] then [] else Line(ks[0], labels[ks[0]]) + Lines(ks[1..], labels)
  }

  /** `yaml.Marshal(domainSelector{Selector: labels})`, in the stand-in format. */
  function Encode(labels: map<string, string>): string {
    Header + Lines(SortedKeys(labels.Keys), labels)
  }

  /** The value the command stores for a domain. */
  function Payload(labels: map<string, string>): (p: string)
    ensures p == "" <==> |labels| == 0
  {
    if |labels| == 0 then "" else Encode(labels)
  }

  /** Reads the body of a double-quoted scalar (after its opening quote) up to
      the closing quote; returns the text and what follows. */
  function Unquote(s: string): (r: Option<(string, string)>)
    ensures r.Some? ==> |r.value.1| < |s|
    decreases |s|
  {
    if |s| == 0 then None
    else if s[0] == '"' then Some(([], s[1..]))
    else if s[0] == '\\' then
      if |s| >= 2 && (s[1] == '"' || s[1] == '\\') then
        match Unquote(s[2..])
        case None => None
        case Some((body, rest)) => Some(([s[1]] + body, rest))
      else None
    else
      match Unquote(s[1..])
      case None => None
      case Some((body, rest)) => Some(([s[0]] + body, rest))
  }

  function ReadQuoted(s: string): (r: Option<(string, string)>)
    ensures r.Some? ==> |r.value.1| < |s|
  {
    if |s| > 0 && s[0] == '"' then Unquote(s[1..]) else None
  }

  /** What follows the literal prefix `p`, if `s` starts with it. */
  function Expect(s: string, p: string): (r: Option<string>)
    ensures r.Some? ==> |r.value| == |s| - |p|
  {
    if |p| <= |s| && s[..|p|] == p then Some(s[|p|..]) else None
  }

  function ReadLine(s: string): (r: Option<(string, string, string)>)
    ensures r.Some? ==> |r.value.2| < |s|
  {
    match Expect(s, "  ")
    case None => None
    case Some(s1) =>
      match ReadQuoted(s1)
      case None => None
      case Some((k, s2)) =>
        match Expect(s2, ": ")
        case None => None
        case Some(s3) =>
          match ReadQuoted(s3)
          case None => None
          case Some((v, s4)) =>
            match Expect(s4, "\n")
            case None => None
            case Some(rest) => Some((k, v, rest))
  }

  /** The label lines; a key that appears twice is rejected. */
  function ReadLines(s: string): Option<map<string, string>>
    decreases |s|
  {
    if s == [] then Some(map[])
    else
      match ReadLine(s)
      case None => None
      case Some((k, v, rest)) =>
        match ReadLines(rest)
        case None => None
        case Some(m) => if k in m then None else Some(m[k := v])
  }

  /** `yaml.Unmarshal` into `domainSelector`: the labels a payload holds. */
  function Decode(p: string): (r: Option<map<string, string>>)
    ensures r.Some? && |r.value| > 0 ==> |p| > |Header| && p[..|Header|] == Header
  {
    if p == "" then Some(map[])
    else
      match Expect(p, Header)
      case None => None
      case Some(body) => ReadLines(body)
  }

  lemma {:induction false} UnquoteEscape(s: string, rest: string)
    ensures Unquote(Escape(s) + "\"" + rest) == Some((s, rest))
    decreases |s|
  {
    if s == [] {
      assert Escape(s) + "\"" + rest == "\"" + rest;
    } else {
      UnquoteEscape(s[1..], rest);
      var e := Escape(s[1..]) + "\"" + rest;
      if s[0] == '"' || s[0] == '\\' {
        assert Escape(s) + "\"" + rest == ['\\', s[0]] + e;
        assert (['\\', s[0]] + e)[2..] == e;
      } else {
        assert Escape(s) + "\"" + rest == [s[0]] + e;
        assert ([s[0]] + e)[1..] == e;
      }
      assert [s[0]] + s[1..] == s;
    }
  }

  lemma ReadQuotedQuote(s: string, rest: string)
    ensures ReadQuoted(Quote(s) + rest) == Some((s, rest))
  {
    UnquoteEscape(s, rest);
    assert (Quote(s) + rest)[1..] == Escape(s) + "\"" + rest;
  }

  lemma ExpectPrefix(p: string, rest: string)
    ensures Expect(p + rest, p) == Some(rest)
  {
    assert (p + rest)[..|p|] == p;
  }

  /** Reading back one written line. */
  lemma ReadLineOfLine(k: string, v: string, rest: string)
    ensures ReadLine(Line(k, v) + rest) == Some((k, v, rest))
  {
    var s4 := "\n" + rest;
    var s3 := Quote(v) + s4;
    var s2 := ": " + s3;
    var s1 := Quote(k) + s2;
    assert Line(k, v) + rest == "  " + s1;
    ExpectPrefix("  ", s1);
    ReadQuotedQuote(k, s2);
    ExpectPrefix(": ", s3);
    ReadQuotedQuote(v, s4);
    ExpectPrefix("\n", rest);
  }

  /** One more written line in front adds its label to what is read. */
  lemma ReadLinesStep(k: string, v: string, rest: string, m: map<string, string>)
    requires ReadLines(rest) == Some(m) && k !in m
    ensures ReadLines(Line(k, v) + rest) == Some(m[k := v])
  {
    ReadLineOfLine(k, v, rest);
    assert |Line(k, v) + rest| > 0 by { assert |Line(k, v)| > 0; }
  }

  /** Reading back the lines of distinct keys gives those keys' labels. */
  lemma {:induction false} ReadLinesOfLines(ks: seq<string>, labels: map<string, string>)
    requires forall k :: k in ks ==> k in labels
    requires forall i, j :: 0 <= i < j < |ks| ==> ks[i] != ks[j]
    ensures ReadLines(Lines(ks, labels)) == Some(map k | k in ks :: labels[k])
    decreases |ks|
  {
    if ks != [] {
      var k0, tail := ks[0], ks[1..];
      assert ks == [k0] + tail;
      assert forall i, j :: 0 <= i < j < |tail| ==> tail[i] != tail[j] by {
        forall i, j | 0 <= i < j < |tail| ensures tail[i] != tail[j] {
          assert tail[i] == ks[i + 1] && tail[j] == ks[j + 1];
        }
      }
      ReadLinesOfLines(tail, labels);
      var m := map k | k in tail :: labels[k];
      assert k0 !in m by {
        forall j | 0 <= j < |tail| ensures tail[j] != k0 {
          assert tail[j] == ks[j + 1];
        }
      }
      assert Lines(ks, labels) == Line(k0, labels[k0]) + Lines(tail, labels);
      ReadLinesStep(k0, labels[k0], Lines(tail, labels), m);
      assert m[k0 := labels[k0]] == map k | k in ks :: labels[k];
    }
  }

  /** Decoding a payload gives back the labels it was made from. */
  lemma DecodePayload(labels: map<string, string>)
    ensures Decode(Payload(labels)) == Some(labels)
  {
    if |labels| != 0 {
      var ks := SortedKeys(labels.Keys);
      var body := Lines(ks, labels);
      ExpectPrefix(Header, body);
      ReadLinesOfLines(ks, labels);
      assert (map k | k in ks :: labels[k]) == labels;
      assert Encode(labels) != "" by { assert |Header| > 0; }
    }
  }

  /** The payload is empty exactly when there are no labels. */
  lemma PayloadEmptyIff(labels: map<string, string>)
    ensures Payload(labels) == "" <==> |labels| == 0
  {
    if |labels| != 0 {
      assert |Encode(labels)| >= |Header| > 0;
    }
  }

  /** Different label maps never share a payload. */
  lemma PayloadInjective(a: map<string, string>, b: map<string, string>)
    requires Payload(a) == Payload(b)
    ensures a == b
  {
    DecodePayload(a);
    DecodePayload(b);
  }
}
