/**
 The table and scenario cases of the command's tests, each stated as a fact
 about the model.
 */
module SetScenarios {
  import opened Results
  import opened Text
  import opened Selector
  import opened SelectorPayload
  import opened DomainSet

  /** `app=abc` splits into `app` and `abc`. */
  lemma SplitPlainCase()
    ensures SplitByEqualSign("app=abc") == SplitResult("app", "abc", false)
  {
    SplitPaddedAccepts("app=abc", "", "app", "abc", "");
  }

  /** ` app=abc `: the surrounding spaces are trimmed away. */
  lemma SplitSpacedCase()
    ensures SplitByEqualSign(" app=abc ") == SplitResult("app", "abc", false)
  {
    SplitPaddedAccepts(" app=abc ", " ", "app", "abc", " ");
  }

  /** `=`: both sides empty. */
  lemma SplitBothSidesEmptyCase()
    ensures SplitByEqualSign("=") == Failed
  {
    SplitPaddedRejects("=", "", "", "", "");
  }

  /** ` = `: both sides only whitespace. */
  lemma SplitBothSidesBlankCase()
    ensures SplitByEqualSign(" = ") == Failed
  {
    SplitPaddedRejects(" = ", " ", "", "", " ");
  }

  /** `=abc`: empty key. */
  lemma SplitEmptyKeyCase()
    ensures SplitByEqualSign("=abc") == Failed
  {
    SplitPaddedRejects("=abc", "", "", "abc", "");
  }

  /** ` =abc`: a key of only whitespace. */
  lemma SplitBlankKeyCase()
    ensures SplitByEqualSign(" =abc") == Failed
  {
    SplitPaddedRejects(" =abc", " ", "", "abc", "");
  }

  /** `app=`: empty value. */
  lemma SplitEmptyValueCase()
    ensures SplitByEqualSign("app=") == Failed
  {
    SplitPaddedRejects("app=", "", "app", "", "");
  }

  /** `app= `: a value of only whitespace. */
  lemma SplitBlankValueCase()
    ensures SplitByEqualSign("app= ") == Failed
  {
    SplitPaddedRejects("app= ", "", "app", "", " ");
  }

  /** `app=aaa=bbb`: two separators. */
  lemma SplitTwoSeparatorsCase()
    ensures SplitByEqualSign("app=aaa=bbb") == Failed
  {
    TightIsTrimmed("app=aaa=bbb");
    var parts := ["app", "aaa", "bbb"];
    assert Join(parts, '=') == "app=aaa=bbb" by {
      assert parts[1..] == ["aaa", "bbb"];
      assert parts[1..][1..] == ["bbb"];
    }
    SplitJoin(parts, '=');
  }

  /** `app.123`: no separator. */
  lemma SplitNoSeparatorCase()
    ensures SplitByEqualSign("app.123") == Failed
  {
    TightIsTrimmed("app.123");
    SplitJoin(["app.123"], '=');
  }

  /** An empty `--custom-domain` is refused before anything else. */
  lemma MissingDomainScenario(current: map<string, string>, tokens: seq<string>)
    ensures SetDomain(current, "", tokens) == Err(MissingDomain)
    ensures Contains(Message(MissingDomain), "requires the route name")
  {
  }

  /** No selector, empty record: one entry, the domain with an empty payload. */
  lemma FirstDomainScenario()
    ensures SetDomain(map[], "test.domain", []) == Ok(Update(map["test.domain" := ""], true))
    ensures |SetDomain(map[], "test.domain", []).value.record| == 1
  {
    assert ParseSelectors([]) == Ok(map[]);
    var u := Merge(map[], "test.domain", map[]);
    assert u.record == map["test.domain" := ""];
    assert map["test.domain" := ""].Keys == {"test.domain"};
  }

  /** No selector, domain already the empty-payload default: nothing to write. */
  lemma UnchangedScenario()
    ensures SetDomain(map["test.domain" := ""], "test.domain", [])
      == Ok(Update(map["test.domain" := ""], false))
  {
    assert ParseSelectors([]) == Ok(map[]);
    MergeUnchangedIff(map["test.domain" := ""], "test.domain", map[]);
  }

  /** No selector, another default present: the new domain replaces it. */
  lemma ReplaceDefaultScenario()
    ensures SetDomain(map["foo.bar" := ""], "test.domain", [])
      == Ok(Update(map["test.domain" := ""], true))
  {
    assert ParseSelectors([]) == Ok(map[]);
    var u := Merge(map["foo.bar" := ""], "test.domain", map[]);
    assert u.record.Keys == {"test.domain"};
    assert u.record == map["test.domain" := ""];
  }

  /** The single flag `app=test` gives the label map `{app: test}`. */
  lemma ParseAppTest()
    ensures ParseSelectors(["app=test"]) == Ok(map["app" := "test"])
  {
    SplitPaddedAccepts("app=test", "", "app", "test", "");
    CollectOne(SplitByEqualSign, "app=test");
  }

  lemma SingletonSize(k: string, v: string)
    ensures |map[k := v]| == 1
  {
    assert map[k := v].Keys == {k};
  }

  /** `--selector app=test` next to a default: two entries, the new one
      decoding to exactly `{app: test}`. */
  lemma SelectorScenario()
    ensures var r := SetDomain(map["foo.bar" := ""], "test.domain", ["app=test"]);
      && r.Ok? && r.value.changed
      && |r.value.record| == 2
      && r.value.record["foo.bar"] == ""
      && Decode(r.value.record["test.domain"]) == Some(map["app" := "test"])
  {
    ParseAppTest();
    SetDomainMerges(map["foo.bar" := ""], "test.domain", ["app=test"], map["app" := "test"]);
    NextToDefault("foo.bar", "test.domain", map["app" := "test"]);
  }

  /** A new domain with labels next to a single default: both entries remain. */
  lemma NextToDefault(other: string, domain: string, labels: map<string, string>)
    requires domain != other && |labels| > 0
    ensures var u := Merge(map[other := ""], domain, labels);
      && u.changed
      && |u.record| == 2
      && u.record[other] == ""
      && Decode(u.record[domain]) == Some(labels)
  {
    SingletonSize(other, "");
    MergeAddsOne(map[other := ""], domain, labels);
  }

  /** The single flag `app` is rejected as it is. */
  lemma ParseApp()
    ensures ParseSelectors(["app"]) == Err("app")
  {
    SplitNoSeparator("app");
    CollectOne(SplitByEqualSign, "app");
  }

  /** `--selector app` aborts with a message naming the token. */
  lemma InvalidSelectorScenario()
    ensures SetDomain(map["foo.bar" := ""], "test.domain", ["app"]) == Err(InvalidSelector("app"))
  {
    ParseApp();
    SetDomainRejects(map["foo.bar" := ""], "test.domain", ["app"], "app");
  }

  /** The message for the token `app`. */
  lemma InvalidSelectorMessage()
    ensures Message(InvalidSelector("app")) == "expecting the selector format 'name=value', found 'app'"
  {
  }
}
