/**
 `kn admin domain set --custom-domain <domain> [--selector name=value]...`:
 validation of the arguments, and the update of the `config-domain` record
 (domain suffix to selector payload) with its write-or-skip decision.
 */
module DomainSet {
  import opened Results
  import opened Text
  import opened Selector
  import opened SelectorPayload

  /** The record after the merge, and whether it differs from the fetched one
      (the command only issues the update call when it does). */
  datatype Update = Update(record: map<string, string>, changed: bool)

  /** The ways the command stops before touching the record. */
  datatype SetError =
    | MissingDomain
    | InvalidSelector(token: string)

  /** Whether `needle` occurs in `hay`. */
  predicate Contains(hay: string, needle: string) {
    exists i, j :: 0 <= i <= j <= |hay| && hay[i..j] == needle
  }

  lemma ContainsMiddle(a: string, b: string, c: string)
    ensures Contains(a + b + c, b)
  {
    assert (a + b + c)[|a|..|a| + |b|] == b;
  }

  /** The part of the missing-domain message that callers match on. */
  const RouteNameRequired: string := "requires the route name"

  /** The error text shown to the user. */
  function Message(e: SetError): (m: string)
    ensures e.MissingDomain? ==> Contains(m, RouteNameRequired)
    ensures e.InvalidSelector? ==> Contains(m, "'" + e.token + "'")
  {
    match e
    case MissingDomain =>
      ContainsMiddle("'domain set' ", RouteNameRequired, " to run provided with the --custom-domain option");
      "'domain set' " + RouteNameRequired + " to run provided with the --custom-domain option"
    case InvalidSelector(token) =>
      var prefix := "expecting the selector format 'name=value', found ";
      ContainsMiddle(prefix, "'" + token + "'", "");
      assert prefix + ("'" + token + "'") + "" == prefix + "'" + token + "'";
      prefix + "'" + token + "'"
  }

  /** `labels` is what the selector loop makes of `tokens`: exactly their keys,
      each with the value of the last token carrying it. */
  ghost predicate LabelsOf(tokens: seq<string>, labels: map<string, string>) {
    && (forall k :: k in labels <==> exists i :: 0 <= i < |tokens| && SplitByEqualSign(tokens[i]).key == k)
    && (forall k :: k in labels ==>
         exists i :: LastFor(SplitByEqualSign, tokens, k, i) && labels[k] == SplitByEqualSign(tokens[i]).value)
  }

  /** The selector loop's result, with its properties. */
  lemma ParseSelectorsSound(tokens: seq<string>)
    ensures ParseSelectors(tokens).Ok? <==> forall i :: 0 <= i < |tokens| ==> !SplitByEqualSign(tokens[i]).failed
    ensures ParseSelectors(tokens).Ok? ==> LabelsOf(tokens, ParseSelectors(tokens).value)
    ensures ParseSelectors(tokens).Err? ==>
      exists i :: FirstFailure(SplitByEqualSign, tokens, i) && ParseSelectors(tokens).error == tokens[i]
  {
    if ParseSelectors(tokens).Ok? {
      CollectKeys(SplitByEqualSign, tokens);
      CollectLastWins(SplitByEqualSign, tokens);
    } else {
      CollectReportsFirstFailure(SplitByEqualSign, tokens);
    }
  }

  /** The merge of the command: the domain gets the payload of `labels`; when
      there are no labels the domain becomes the default, so every other entry
      with an empty payload is dropped; the record is written only if it
      changed. */
  function Merge(current: map<string, string>, domain: string, labels: map<string, string>): (u: Update)
    ensures domain in u.record && Decode(u.record[domain]) == Some(labels)
    ensures u.record[domain] == Payload(labels)
    ensures u.record[domain] == "" <==> |labels| == 0
    ensures u.changed <==> u.record != current
    ensures forall k :: k in u.record && k != domain ==> k in current && u.record[k] == current[k]
    ensures forall k :: k in current && k != domain && current[k] != "" ==> k in u.record
    ensures |labels| > 0 ==> forall k :: k in current ==> k in u.record
    ensures |labels| == 0 ==> forall k :: k in u.record && u.record[k] == "" ==> k == domain
  {
    DecodePayload(labels);
    PayloadEmptyIff(labels);
    var kept := if |labels| == 0 then map k | k in current && current[k] != "" :: current[k] else current;
    var desired := kept[domain := Payload(labels)];
    Update(desired, desired != current)
  }

  /** No write happens exactly when the domain already holds the payload and,
      for a selector-less set, no other domain is a default. */
  lemma MergeUnchangedIff(current: map<string, string>, domain: string, labels: map<string, string>)
    ensures !Merge(current, domain, labels).changed <==>
      && domain in current && current[domain] == Payload(labels)
      && (|labels| > 0 || forall k :: k in current && k != domain ==> current[k] != "")
  {
    var u := Merge(current, domain, labels);
    PayloadEmptyIff(labels);
    if domain in current && current[domain] == Payload(labels)
       && (|labels| > 0 || forall k :: k in current && k != domain ==> current[k] != "")
    {
      assert u.record == current;
    }
    if !u.changed {
      DecodePayload(labels);
      assert u.record[domain] == Payload(labels);
    }
  }

  /** Running the same set twice: the second run changes nothing. */
  lemma MergeIdempotent(current: map<string, string>, domain: string, labels: map<string, string>)
    ensures var u := Merge(current, domain, labels);
      Merge(u.record, domain, labels) == Update(u.record, false)
  {
    var u := Merge(current, domain, labels);
    MergeUnchangedIff(u.record, domain, labels);
    PayloadEmptyIff(labels);
  }

  /** With a selector, a new domain adds exactly one entry and keeps all others. */
  lemma MergeAddsOne(current: map<string, string>, domain: string, labels: map<string, string>)
    requires domain !in current && |labels| > 0
    ensures Merge(current, domain, labels).record.Keys == current.Keys + {domain}
    ensures |Merge(current, domain, labels).record| == |current| + 1
    ensures forall k :: k in current ==> Merge(current, domain, labels).record[k] == current[k]
  {
    var r := Merge(current, domain, labels).record;
    assert r.Keys == current.Keys + {domain};
  }

  /** With a domain and well-formed selectors, the command merges their labels. */
  lemma SetDomainMerges(current: map<string, string>, domain: string, tokens: seq<string>, labels: map<string, string>)
    requires domain != "" && ParseSelectors(tokens) == Ok(labels)
    ensures SetDomain(current, domain, tokens) == Ok(Merge(current, domain, labels))
  {
  }

  /** A malformed selector stops the command with that token. */
  lemma SetDomainRejects(current: map<string, string>, domain: string, tokens: seq<string>, token: string)
    requires domain != "" && ParseSelectors(tokens) == Err(token)
    ensures SetDomain(current, domain, tokens) == Err(InvalidSelector(token))
  {
  }

  /** Setting a new domain with a selector: the command succeeds with a write
      that adds just that domain. */
  lemma SetNewDomainWithSelector(current: map<string, string>, domain: string, tokens: seq<string>, labels: map<string, string>)
    requires domain != "" && domain !in current
    requires ParseSelectors(tokens) == Ok(labels) && |labels| > 0
    ensures var r := SetDomain(current, domain, tokens);
      && r.Ok? && r.value.changed
      && |r.value.record| == |current| + 1
      && (forall k :: k in current ==> k in r.value.record && r.value.record[k] == current[k])
      && Decode(r.value.record[domain]) == Some(labels)
  {
    SetDomainMerges(current, domain, tokens, labels);
    MergeAddsOne(current, domain, labels);
  }

  /** The command's core: reject an empty domain, parse the selectors (the
      first malformed one aborts), then merge. Fetching and writing the
      record are outside; `current` is the fetched record. */
  function SetDomain(current: map<string, string>, domain: string, tokens: seq<string>): (r: Result<Update, SetError>)
    ensures r == Err(MissingDomain) <==> domain == ""
    ensures r.Ok? <==> domain != "" && forall i :: 0 <= i < |tokens| ==> !SplitByEqualSign(tokens[i]).failed
    ensures r.Err? && r.error.InvalidSelector? ==>
      exists i :: FirstFailure(SplitByEqualSign, tokens, i) && r.error.token == tokens[i]
    ensures r.Ok? ==>
      && domain in r.value.record
      && Decode(r.value.record[domain]).Some?
      && LabelsOf(tokens, Decode(r.value.record[domain]).value)
    ensures r.Ok? ==>
      && ParseSelectors(tokens).Ok?
      && r.value.record[domain] == Payload(ParseSelectors(tokens).value)
      && (r.value.record[domain] == "" <==> |ParseSelectors(tokens).value| == 0)
  {
    ParseSelectorsSound(tokens);
    if domain == "" then Err(MissingDomain)
    else
      match ParseSelectors(tokens)
      case Err(token) => Err(InvalidSelector(token))
      case Ok(labels) => Ok(Merge(current, domain, labels))
  }
}
