/**
 The `--selector name=value` parser of `kn admin domain set`: the per-token
 `splitByEqualSign` and the loop that folds the tokens into a label map.
 */
module Selector {
  import opened Results
  import opened Text

  /** Go's `(key, value, err)` triple; `failed` stands for a non-nil error. */
  datatype SplitResult = SplitResult(key: string, value: string, failed: bool)

  /** The failure return: both strings empty, error set. */
  const Failed := SplitResult("", "", true)

  /** `splitByEqualSign`: trim the token, split it on `=`, demand exactly two
      parts, trim each, and demand that neither is empty. */
  function SplitByEqualSign(pair: string): (r: SplitResult)
    ensures r.failed ==> r.key == "" && r.value == ""
    ensures !r.failed ==> r.key != "" && r.value != "" && Tight(r.key) && Tight(r.value)
    ensures !r.failed ==> '=' !in r.key && '=' !in r.value
  {
    var parts := SplitOn(Trim(pair), '=');
    if |parts| != 2 then Failed
    else
      var k := Trim(parts[0]);
      var v := Trim(parts[1]);
      if k == "" || v == "" then Failed else SplitResult(k, v, false)
  }

  /** Independent description of a well-formed token: its only `=` sits at
      index `i` and each side holds something besides whitespace. */
  predicate SeparatorAt(pair: string, i: int) {
    && 0 <= i < |pair| && pair[i] == '='
    && '=' !in pair[..i] && '=' !in pair[i + 1..]
    && Trim(pair[..i]) != "" && Trim(pair[i + 1..]) != ""
  }

  /** Once the trimmed token is known to be `left=right`, the result is fixed. */
  lemma SplitOfTrimmed(pair: string, left: string, right: string)
    requires Trim(pair) == left + "=" + right
    requires '=' !in left && '=' !in right
    ensures SplitByEqualSign(pair) ==
      if Trim(left) == "" || Trim(right) == "" then Failed
      else SplitResult(Trim(left), Trim(right), false)
  {
    JoinTwo([left, right], '=');
    SplitJoin([left, right], '=');
  }

  lemma SpaceHasNoSeparator(w: string)
    requires AllSpace(w)
    ensures '=' !in w
  {
  }

  lemma PiecesHaveNoSeparator(a: string, x: string, y: string, z: string)
    requires a == x + y + z && '=' !in a
    ensures '=' !in x && '=' !in y && '=' !in z
  {
  }

  lemma Regroup(a: string, b: string, wa1: string, ka: string, wa2: string, wb1: string, vb: string, wb2: string)
    requires a == wa1 + ka + wa2 && b == wb1 + vb + wb2
    ensures a + "=" + b == wa1 + ((ka + wa2) + "=" + (wb1 + vb)) + wb2
  {
  }

  lemma TightAroundSeparator(ka: string, wa2: string, wb1: string, vb: string)
    requires Tight(ka) && Tight(vb) && ka != "" && vb != ""
    ensures Tight((ka + wa2) + "=" + (wb1 + vb))
  {
    var mid := (ka + wa2) + "=" + (wb1 + vb);
    assert mid[0] == ka[0];
    assert mid[|mid| - 1] == vb[|vb| - 1];
  }

  /** Trimming `a=b` as a whole keeps the inner whitespace next to `=`;
      trimming each side afterwards removes it. */
  lemma TrimAroundSeparator(a: string, b: string) returns (left: string, right: string)
    requires '=' !in a && '=' !in b
    requires Trim(a) != "" && Trim(b) != ""
    ensures Trim(a + "=" + b) == left + "=" + right
    ensures '=' !in left && '=' !in right
    ensures Trim(left) == Trim(a) && Trim(right) == Trim(b)
  {
    var wa1, wa2 := TrimParts(a);
    var wb1, wb2 := TrimParts(b);
    var ka, vb := Trim(a), Trim(b);
    left, right := ka + wa2, wb1 + vb;
    Regroup(a, b, wa1, ka, wa2, wb1, vb, wb2);
    TightAroundSeparator(ka, wa2, wb1, vb);
    TrimOf(wa1, left + "=" + right, wb2);
    PiecesHaveNoSeparator(a, wa1, ka, wa2);
    PiecesHaveNoSeparator(b, wb1, vb, wb2);
    TrimOfSuffixed(ka, wa2);
    TrimOfPrefixed(wb1, vb);
  }

  lemma CutAt(pair: string, i: int)
    requires 0 <= i < |pair| && pair[i] == '='
    ensures pair == pair[..i] + "=" + pair[i + 1..]
  {
  }

  /** A token written as `w1 left=right w2`, with only whitespace outside and
      trimmed, non-empty sides, splits into `left` and `right`. */
  lemma SplitPaddedAccepts(pair: string, w1: string, left: string, right: string, w2: string)
    requires pair == w1 + left + "=" + right + w2
    requires AllSpace(w1) && AllSpace(w2)
    requires Tight(left) && Tight(right) && left != "" && right != ""
    requires '=' !in left && '=' !in right
    ensures SplitByEqualSign(pair) == SplitResult(left, right, false)
  {
    var mid := left + "=" + right;
    assert pair == w1 + mid + w2;
    assert mid[0] == left[0] && mid[|mid| - 1] == right[|right| - 1];
    TrimOf(w1, mid, w2);
    TightIsTrimmed(left);
    TightIsTrimmed(right);
    SplitOfTrimmed(pair, left, right);
  }

  /** A token written as `w1 left=right w2` is rejected when one side is
      nothing but whitespace. */
  lemma SplitPaddedRejects(pair: string, w1: string, left: string, right: string, w2: string)
    requires pair == w1 + left + "=" + right + w2
    requires AllSpace(w1) && AllSpace(w2) && Tight(left + "=" + right)
    requires '=' !in left && '=' !in right
    requires AllSpace(left) || AllSpace(right)
    ensures SplitByEqualSign(pair) == Failed
  {
    assert pair == w1 + (left + "=" + right) + w2;
    TrimOf(w1, left + "=" + right, w2);
    if AllSpace(left) {
      TrimOf(left, [], []);
      assert left + [] + [] == left;
    } else {
      TrimOf(right, [], []);
      assert right + [] + [] == right;
    }
    SplitOfTrimmed(pair, left, right);
  }

  /** A token without `=` is rejected. */
  lemma SplitNoSeparator(pair: string)
    requires '=' !in pair
    ensures SplitByEqualSign(pair) == Failed
  {
    var w1, w2 := TrimParts(pair);
    var t := Trim(pair);
    PiecesHaveNoSeparator(pair, w1, t, w2);
    SplitOfUnseparated(pair, t);
  }

  lemma SplitOfUnseparated(pair: string, t: string)
    requires Trim(pair) == t && '=' !in t
    ensures SplitByEqualSign(pair) == Failed
  {
    SplitJoin([t], '=');
  }

  /** A well-formed token yields its two sides, each trimmed. */
  lemma SplitAccepts(pair: string, i: int)
    requires SeparatorAt(pair, i)
    ensures SplitByEqualSign(pair) == SplitResult(Trim(pair[..i]), Trim(pair[i + 1..]), false)
  {
    var a, b := pair[..i], pair[i + 1..];
    CutAt(pair, i);
    var left, right := TrimAroundSeparator(a, b);
    SplitOfTrimmed(pair, left, right);
  }

  /** An accepted token's trimmed text is `p=q` with separator-free sides. */
  lemma AcceptedShape(pair: string) returns (p: string, q: string)
    requires !SplitByEqualSign(pair).failed
    ensures Trim(pair) == p + "=" + q
    ensures '=' !in p && '=' !in q
    ensures Trim(p) != "" && Trim(q) != ""
  {
    var t := Trim(pair);
    var parts := SplitOn(t, '=');
    p, q := parts[0], parts[1];
    JoinTwo(parts, '=');
  }

  lemma CutParts(pair: string, w1: string, p: string, q: string, w2: string)
    requires pair == w1 + (p + "=" + q) + w2
    ensures pair[|w1| + |p|] == '='
    ensures pair[..|w1| + |p|] == w1 + p
    ensures pair[|w1| + |p| + 1..] == q + w2
  {
    assert pair == (w1 + p) + "=" + (q + w2);
  }

  /** Whitespace, then `p=q`, then whitespace is well formed when both sides
      hold more than whitespace. */
  lemma SeparatorOfShape(pair: string, w1: string, p: string, q: string, w2: string)
    requires pair == w1 + (p + "=" + q) + w2
    requires AllSpace(w1) && AllSpace(w2)
    requires '=' !in p && '=' !in q
    requires Trim(p) != "" && Trim(q) != ""
    ensures SeparatorAt(pair, |w1| + |p|)
  {
    CutParts(pair, w1, p, q, w2);
    TrimAbsorbsLeft(w1, p);
    TrimAbsorbsRight(q, w2);
    SpaceHasNoSeparator(w1);
    SpaceHasNoSeparator(w2);
  }

  /** A token is accepted exactly when it is well formed. */
  lemma SplitCharacterization(pair: string)
    ensures !SplitByEqualSign(pair).failed <==> exists i :: SeparatorAt(pair, i)
  {
    if i :| SeparatorAt(pair, i) {
      SplitAccepts(pair, i);
    }
    if !SplitByEqualSign(pair).failed {
      var w1, w2 := TrimParts(pair);
      var p, q := AcceptedShape(pair);
      SeparatorOfShape(pair, w1, p, q, w2);
    }
  }

  /** Index `i` holds the first token that `split` rejects. */
  predicate FirstFailure(split: string -> SplitResult, tokens: seq<string>, i: int) {
    && 0 <= i < |tokens|
    && split(tokens[i]).failed
    && forall j :: 0 <= j < i ==> !split(tokens[j]).failed
  }

  /** Index `i` holds the last token whose key, as `split` reads it, is `k`. */
  predicate LastFor(split: string -> SplitResult, tokens: seq<string>, k: string, i: int) {
    && 0 <= i < |tokens|
    && split(tokens[i]).key == k
    && forall j :: i < j < |tokens| ==> split(tokens[j]).key != k
  }

  /** The selector loop, for any per-token splitter: each token is split in
      order and stored as `labels[key] = value`; the first token the splitter
      rejects aborts the loop and is reported. */
  function CollectLabels(split: string -> SplitResult, tokens: seq<string>): (r: Result<map<string, string>, string>)
    ensures r.Ok? <==> forall i :: 0 <= i < |tokens| ==> !split(tokens[i]).failed
    decreases |tokens|
  {
    if |tokens| == 0 then Ok(map[])
    else
      var init := tokens[..|tokens| - 1];
      var last := tokens[|tokens| - 1];
      match CollectLabels(split, init)
      case Err(t) => Err(t)
      case Ok(labels) =>
        var s := split(last);
        if s.failed then Err(last) else Ok(labels[s.key := s.value])
  }

  /** A single token: its label alone, or its rejection. */
  lemma CollectOne(split: string -> SplitResult, token: string)
    ensures CollectLabels(split, [token]) ==
      if split(token).failed then Err(token) else Ok(map[split(token).key := split(token).value])
  {
    assert [token][..0] == [];
  }

  /** The loop reports the first rejected token. */
  lemma {:induction false} CollectReportsFirstFailure(split: string -> SplitResult, tokens: seq<string>)
    requires CollectLabels(split, tokens).Err?
    ensures exists i :: FirstFailure(split, tokens, i) && CollectLabels(split, tokens).error == tokens[i]
    decreases |tokens|
  {
    var init := tokens[..|tokens| - 1];
    assert forall j :: 0 <= j < |init| ==> init[j] == tokens[j];
    if CollectLabels(split, init).Err? {
      CollectReportsFirstFailure(split, init);
      var i :| FirstFailure(split, init, i) && CollectLabels(split, init).error == init[i];
      assert FirstFailure(split, tokens, i);
    } else {
      assert FirstFailure(split, tokens, |tokens| - 1);
    }
  }

  /** The label map holds exactly the keys of the tokens. */
  lemma {:induction false} CollectKeys(split: string -> SplitResult, tokens: seq<string>)
    requires CollectLabels(split, tokens).Ok?
    ensures forall k :: k in CollectLabels(split, tokens).value <==>
      exists i :: 0 <= i < |tokens| && split(tokens[i]).key == k
    decreases |tokens|
  {
    if |tokens| > 0 {
      var init := tokens[..|tokens| - 1];
      assert forall j :: 0 <= j < |init| ==> init[j] == tokens[j];
      CollectKeys(split, init);
      var last := split(tokens[|tokens| - 1]);
      forall k | exists i :: 0 <= i < |tokens| && split(tokens[i]).key == k
        ensures k in CollectLabels(split, tokens).value
      {
        var i :| 0 <= i < |tokens| && split(tokens[i]).key == k;
        if i < |init| {
          assert split(init[i]).key == k;
        }
      }
    }
  }

  /** Duplicate keys: the value kept is the one of the last token with that key. */
  lemma {:induction false} CollectLastWins(split: string -> SplitResult, tokens: seq<string>)
    requires CollectLabels(split, tokens).Ok?
    ensures forall k :: k in CollectLabels(split, tokens).value ==>
      exists i :: LastFor(split, tokens, k, i) && CollectLabels(split, tokens).value[k] == split(tokens[i]).value
    decreases |tokens|
  {
    if |tokens| > 0 {
      var init := tokens[..|tokens| - 1];
      assert forall j :: 0 <= j < |init| ==> init[j] == tokens[j];
      CollectLastWins(split, init);
      var m := CollectLabels(split, tokens).value;
      var last := split(tokens[|tokens| - 1]);
      forall k | k in m
        ensures exists i :: LastFor(split, tokens, k, i) && m[k] == split(tokens[i]).value
      {
        if k == last.key {
          assert LastFor(split, tokens, k, |tokens| - 1);
        } else {
          var i :| LastFor(split, init, k, i) && CollectLabels(split, init).value[k] == split(init[i]).value;
          assert LastFor(split, tokens, k, i);
        }
      }
    }
  }

  /** The `--selector` flag values folded into the label map. */
  function ParseSelectors(tokens: seq<string>): (r: Result<map<string, string>, string>)
    ensures r.Ok? <==> forall i :: 0 <= i < |tokens| ==> !SplitByEqualSign(tokens[i]).failed
    ensures r.Err? ==> exists i :: FirstFailure(SplitByEqualSign, tokens, i) && r.error == tokens[i]
  {
    var r := CollectLabels(SplitByEqualSign, tokens);
    if r.Err? then CollectReportsFirstFailure(SplitByEqualSign, tokens); r else r
  }
}
