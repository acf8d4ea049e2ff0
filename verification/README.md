# kn admin domain set — a Dafny model

`kn admin domain set --custom-domain <domain> [--selector name=value]...`
writes a route domain into the `config-domain` record of Knative Serving.
That record maps each domain suffix to a payload. An empty payload makes
the domain the default. A non-empty payload is the YAML form of
`{selector: labels}` and applies the domain only to services carrying those
labels.

The model covers the two pure pieces of the command:

- **The selector parser** (module `Selector`). `splitByEqualSign` trims a
  token, splits it on `=`, and trims each part again; the model takes these
  to be Go's `strings.TrimSpace` and `strings.Split`. It demands exactly two parts, trims each part, and refuses an empty
  key or value. On failure it returns two empty strings and an error. The
  `--selector` values fold, in order, into a label map; a later token with
  the same key overwrites an earlier one, and the first malformed token
  aborts with that token. The string functions are modelled in `Text`.
  Whitespace is taken to be the set `unicode.IsSpace` accepts; the tests
  themselves only use the plain space U+0020, so the wider set is an
  assumption of the model.
- **The record merge** (module `DomainSet`). The domain gets the payload of
  the labels. Without labels the payload is `""`, and the domain becomes the
  only default: every other entry holding `""` is dropped. With labels all
  other entries stay. The result carries a `changed` flag, and the command
  writes the record only when that flag is set. `SetDomain` puts it
  together: it refuses an empty domain, parses the selectors, then merges
  into the fetched record, which is passed in as `current`.

The payload text (module `SelectorPayload`) is a YAML-shaped stand-in: a
`selector:` line, then one line per label with key and value double-quoted,
in code-point order of the keys. Its decoder is written out, and the round
trip `Decode(Payload(labels)) == Some(labels)` is proved rather than
assumed. Module `SetScenarios` restates each test case of
`pkg/command/domain/set_test.go` as a lemma about the model.

The parser follows the trimming code, not a regular-expression reading of
the `name=value` format. Whitespace inside a key or value is kept, so
`a b=c` is accepted with the key `a b`. Only `=` and the outer whitespace
are constrained (`Selector.SplitCharacterization`).

## Model

| member | source | states |
|---|---|---|
| Selector.SplitByEqualSign | pkg/command/domain/set_test.go:241-262 | on failure both returned strings are empty; on success key and value are non-empty, carry no outer whitespace and contain no `=` |
| Selector.SplitCharacterization | pkg/command/domain/set_test.go:239-248 | a token is accepted exactly when it holds a single `=` and each side holds something besides whitespace |
| Selector.SplitAccepts | pkg/command/domain/set_test.go:239-240 | a well-formed token yields the trimmed text before and after its `=` |
| Selector.SplitPaddedAccepts | pkg/command/domain/set_test.go:239-240 | `w1 key=value w2` with whitespace-only padding yields exactly `key` and `value` |
| Selector.SplitPaddedRejects | pkg/command/domain/set_test.go:241-246 | a token one of whose sides is only whitespace is rejected with two empty strings |
| Selector.SplitNoSeparator | pkg/command/domain/set_test.go:248 | a token without `=` is rejected with two empty strings |
| Selector.ParseSelectors | pkg/command/domain/set_test.go:190-227 | the `--selector` loop succeeds exactly when every token is accepted, and otherwise reports the first rejected token as written |
| Selector.CollectLabels | pkg/command/domain/set_test.go:190 | the selector loop succeeds exactly when every token is accepted |
| Selector.CollectOne | pkg/command/domain/set_test.go:190 | one token gives the one-label map, or its own rejection |
| Selector.CollectReportsFirstFailure | pkg/command/domain/set_test.go:226-227 | a failing loop reports the first rejected token |
| Selector.CollectKeys | pkg/command/domain/set_test.go:204-208 | the label map holds exactly the keys of the tokens |
| Selector.CollectLastWins | pkg/command/domain/set_test.go:190 | a repeated key keeps the value of the last token carrying it |
| Text.Trim | pkg/command/domain/set_test.go:240-246 | the result has no outer whitespace, is no longer than the input, and is empty exactly when the input is only whitespace |
| Text.TrimOf | pkg/command/domain/set_test.go:240-246 | whitespace around a core that starts and ends with a non-space is removed, and the core is kept whole |
| Text.SplitOn | pkg/command/domain/set_test.go:247 | splitting on `=` gives at least one part, no part holds `=`, and joining the parts restores the token |
| Text.SplitJoin | pkg/command/domain/set_test.go:247 | splitting the join of `=`-free parts gives the parts back, so `app=aaa=bbb` has three parts |
| SelectorPayload.Payload | pkg/command/domain/set_test.go:119-121 | the stored value is `""` exactly when there are no labels |
| SelectorPayload.Decode | pkg/command/domain/set_test.go:201-203 | a payload that yields a non-empty selector starts with the `selector:` header line |
| SelectorPayload.DecodePayload | pkg/command/domain/set_test.go:198-208 | decoding a stored payload gives back exactly the labels it was made from |
| SelectorPayload.PayloadEmptyIff | pkg/command/domain/set_test.go:119-121 | the payload is `""` exactly when there are no labels |
| SelectorPayload.PayloadInjective | pkg/command/domain/set_test.go:124-144 | different label maps never share a payload, so comparing payloads compares labels |
| SelectorPayload.SortedKeys | pkg/command/domain/set_test.go:198-208 | the keys are listed once each, in ascending code-point order, and no key is lost |
| DomainSet.Merge | pkg/command/domain/set_test.go:100-209 | the domain holds the payload of the labels, which is `""` exactly when there are no labels and decodes back to them; `changed` holds exactly when the record differs; other entries keep their values; with labels every entry stays; without labels the domain is the only `""` entry |
| DomainSet.MergeUnchangedIff | pkg/command/domain/set_test.go:124-144 | no write happens exactly when the domain already holds the payload and, without labels, no other entry is a default |
| DomainSet.MergeIdempotent | pkg/command/domain/set_test.go:124-144 | repeating the same set changes nothing |
| DomainSet.MergeAddsOne | pkg/command/domain/set_test.go:175-196 | with labels, a new domain adds exactly one key and keeps every other entry's value |
| DomainSet.ParseSelectorsSound | pkg/command/domain/set_test.go:190-227 | the parse succeeds exactly when all tokens are accepted, then yields their keys with last-wins values; otherwise it reports the first bad token |
| DomainSet.SetDomain | pkg/command/domain/set_test.go:57-227 | an empty domain is refused; otherwise the command succeeds exactly when every token is accepted, reports the first bad token, and stores the payload of the parsed labels, which is `""` exactly when the parsed label map is empty and decodes to labels whose keys and last-wins values are the tokens' |
| DomainSet.SetDomainMerges | pkg/command/domain/set_test.go:108-113 | with a domain and well-formed selectors the command returns the merge of their labels |
| DomainSet.SetDomainRejects | pkg/command/domain/set_test.go:211-227 | a malformed selector stops the command with that token |
| DomainSet.SetNewDomainWithSelector | pkg/command/domain/set_test.go:175-208 | a new domain with labels is written, grows the record by one, keeps every other entry and decodes to the labels |
| DomainSet.Message | pkg/command/domain/set_test.go:71 | the missing-domain text contains `requires the route name`; the bad-selector text contains the quoted token |
| SetScenarios.SplitPlainCase | pkg/command/domain/set_test.go:239 | `app=abc` gives `app` and `abc` |
| SetScenarios.SplitSpacedCase | pkg/command/domain/set_test.go:240 | ` app=abc ` gives `app` and `abc` |
| SetScenarios.SplitBothSidesEmptyCase | pkg/command/domain/set_test.go:241 | `=` is rejected with two empty strings |
| SetScenarios.SplitBothSidesBlankCase | pkg/command/domain/set_test.go:242 | ` = ` is rejected with two empty strings |
| SetScenarios.SplitEmptyKeyCase | pkg/command/domain/set_test.go:243 | `=abc` is rejected with two empty strings |
| SetScenarios.SplitBlankKeyCase | pkg/command/domain/set_test.go:244 | ` =abc` is rejected with two empty strings |
| SetScenarios.SplitEmptyValueCase | pkg/command/domain/set_test.go:245 | `app=` is rejected with two empty strings |
| SetScenarios.SplitBlankValueCase | pkg/command/domain/set_test.go:246 | `app= ` is rejected with two empty strings |
| SetScenarios.SplitTwoSeparatorsCase | pkg/command/domain/set_test.go:247 | `app=aaa=bbb` is rejected with two empty strings |
| SetScenarios.SplitNoSeparatorCase | pkg/command/domain/set_test.go:248 | `app.123` is rejected with two empty strings |
| SetScenarios.MissingDomainScenario | pkg/command/domain/set_test.go:57-71 | an empty `--custom-domain` is refused, with a message containing `requires the route name` |
| SetScenarios.FirstDomainScenario | pkg/command/domain/set_test.go:100-121 | on an empty record the result is `{test.domain: ""}`, is written, and holds exactly one entry |
| SetScenarios.UnchangedScenario | pkg/command/domain/set_test.go:124-144 | when `test.domain` is already the `""` entry, the record is unchanged and not written |
| SetScenarios.ReplaceDefaultScenario | pkg/command/domain/set_test.go:148-173 | next to the default `foo.bar`, the result is the one entry `test.domain` mapped to `""` |
| SetScenarios.ParseAppTest | pkg/command/domain/set_test.go:190 | `app=test` parses to the label map `{app: test}` |
| SetScenarios.NextToDefault | pkg/command/domain/set_test.go:194-208 | a new domain with labels merged next to a single default gives two entries, keeps the default as `""`, and decodes to the labels |
| SetScenarios.SelectorScenario | pkg/command/domain/set_test.go:175-208 | with `app=test` next to `foo.bar`, the record has two entries and `test.domain` decodes to exactly `{app: test}` |
| SetScenarios.ParseApp | pkg/command/domain/set_test.go:226 | the token `app` is rejected as it is |
| SetScenarios.InvalidSelectorScenario | pkg/command/domain/set_test.go:211-227 | `--selector app` stops the command with the token `app` |
| SetScenarios.InvalidSelectorMessage | pkg/command/domain/set_test.go:227 | the message for `app` is `expecting the selector format 'name=value', found 'app'` |

## Left out

- Kubernetes access: fetching and updating the `config-domain` ConfigMap, and the failure to fetch it (pkg/command/domain/set_test.go:91-98). This is external I/O; the fetched record is the parameter `current`, and the write is the `changed` flag.
- Kubeconfig discovery (pkg/command/domain/set_test.go:49-55) and the refusal of operator-managed installations (pkg/command/domain/set_test.go:74-89). Both are checks made before the command's own logic runs.
- Cobra flag wiring, the output buffer and the success line printed to the user (pkg/command/domain/set_test.go:38-45, 164, 192).
- SelectorPayload.Payload: the real payload is `yaml.v2` output of `domainSelector`. The model uses a quoted YAML-shaped stand-in with the same round-trip and emptiness properties, not the library's exact bytes.
- DomainSet.Message: only the tested fragments are fixed. The tests fix only these fragments, so the rest of the missing-domain wording is a placeholder.
- DomainSet.Merge: only entries whose payload is exactly `""` count as defaults. An entry whose payload is whitespace-only is kept, because no test decides that case.
- "Unchanged" is map equality plus `changed == false`; Kubernetes object metadata such as resource versions is not modelled.
- Strings are sequences of Unicode code points. Invalid UTF-8 bytes, which Go's `TrimSpace` passes through, are not modelled.
