# launchdarkly-exporter in Dafny

This project models the exporter that turns LaunchDarkly feature flags into
Flipt documents, one document per environment. It also proves what one
export run produces.

- `get_flags` becomes `Translator.ListFlags`. It projects the listed items to
  their key and name.
- `retrieve_flipt_models` is modelled imperatively. A `Translator.Session`
  object holds the same state as the Python function:
  - the segment counter, which starts at 1;
  - the environment-to-native-segments cache, with its keys in insertion
    order;
  - the environment-to-document map, with its keys in insertion order.

  Each loop of the original is a method. Each method is proved against the
  functions of module `Mapping`:
  - the loop over the listed flags is `TranslateFlags`, with its body
    `TranslateNext`;
  - the loop over one flag's environments is `TranslateFlag`, with its
    bodies `VisitNext` and `VisitEnvironment`;
  - fetching and translating one environment's native segments once is
    `EnsureNativeSegments`, which calls `TranslateNativeSegments`;
  - the rule loop that synthesizes `segment_00<n>` segments is
    `TranslateRules`;
  - filing a flag and its segments into the document map is `AddToDocument`;
  - the final loop over the cache is `AppendNativeSegments`;
  - collecting the documents in insertion order is `CollectDocuments`.
- `Mapping.Translate` states the whole run as one function.
  `Translator.RetrieveFliptModels` is proved equal to it.
- Module `Properties` proves what a run promises:
  - which segments are synthesized, and that their keys are distinct;
  - that each flag rule refers to exactly its own segment;
  - which flags each document holds, and in which order;
  - which namespaces there are, and in which order;
  - when a run aborts;
  - the operator table;
  - that only the last rule of a native segment counts;
  - what the distributions of a rule add up to.

The HTTP endpoints are parameters:
- the flag endpoint is a map `flagApi` from flag key to flag;
- the segments endpoint is a map `segmentsApi` from environment name to its
  segment list.

A key missing from a map is a failed fetch, and a failed fetch aborts the
run. The first failure in processing order is the result (`Mapping.FirstFailure`).

The fixed names a Flipt document carries are written as enumerations (module
`Schema`). Each value's `Name()` gives the string the original writes:
`VARIANT_FLAG_TYPE`, `STRING_COMPARISON_TYPE`, `ALL_MATCH_TYPE`, `eq`,
`prefix` and `suffix`.

A JSON object whose keys are environment names (`environments`) becomes a
sequence of `Environment` records in key order, with distinct names.

The operator table `{"endsWith": "suffix", "startsWith": "prefix"}` is used
only for the constraints of native segments (main.py:84-86). The constraints
built for flag rules always carry `eq` (main.py:112).

A rollout entry's percentage is its weight divided by 1000 (main.py:139). A
weight of 600 gives 0.6, and weights that add up to 100000 give rollouts that
add up to 100 (`Properties.FullRollout`).

## Model

| member | source | states |
|---|---|---|
| `Translator.ListFlags` | main.py:20-30 | one summary per listed item, in order, with that item's key and name |
| `Translator.BuildVariants` | main.py:58-63 | one variant per variation, in order, with the variation's value as both key and name |
| `Translator.BuildRuleConstraints` | main.py:105-116 | one constraint per clause of a flag rule, in order: a string comparison on the clause's attribute, operator `eq`, value the clause's first value |
| `Translator.BuildNativeConstraints` | main.py:79-89 | one constraint per clause of a native segment rule, in order, with the operator the table gives for the clause's `op` |
| `Translator.TranslateNativeSegments` | main.py:75-97 | the native segments of an environment: one per source segment, keyed and named by its key, holding the constraints of its last rule |
| `Translator.BuildDistributions` | main.py:129-148 | a rollout rule yields one distribution per entry, with the variant at the entry's Python index and weight/1000; any other rule yields one distribution at 100 to its variation |
| `Translator.Session.constructor` | main.py:38-40 | a run starts with the counter at 1, no documents, an empty cache and no visits |
| `Translator.Session.EnsureNativeSegments` | main.py:69-99 | the segments of an environment are fetched and translated at most once, and cached in insertion order; the result says whether the environment's segments exist |
| `Translator.Session.TranslateRules` | main.py:102-155 | every rule gets a fresh counter value, its own synthesized segment and a rule pointing at it; the counter grows by the number of rules |
| `Translator.Session.AddToDocument` | main.py:157-165 | the flag and its rule segments are appended to the environment's document, which is created on first use; the document map stays the one the visits so far determine |
| `Translator.Session.VisitEnvironment` | main.py:68-165 | one environment of one flag: the visit is recorded exactly when its segments can be fetched, and the counter advances by its rule count |
| `Translator.Session.VisitNext` | main.py:68-165 | one turn of the environment loop keeps the visits equal to the flag's visits of the environments so far, or reports the first environment whose segments are missing |
| `Translator.Session.TranslateFlag` | main.py:48-165 | a fetched flag adds one visit per environment, in order, with consecutive counter values, or aborts at its first environment without segments |
| `Translator.Session.TranslateListedFlag` | main.py:42-66 | a listed flag missing from the flag endpoint aborts the run; otherwise it is translated |
| `Translator.Session.TranslateNext` | main.py:42-165 | one turn of the flag loop keeps the visits equal to those of the flags fetched so far, or reports the first failure |
| `Translator.Session.TranslateFlags` | main.py:42-165 | the loop over the listed flags ends with the first failure, or with the visits of all fetched flags in order |
| `Translator.Session.AppendNativeSegments` | main.py:167-168 | every document receives its environment's native segments, once, after its rule segments |
| `Translator.Session.CollectDocuments` | main.py:170-175 | the documents are returned in the order their environments were first visited |
| `Translator.RetrieveFliptModels` | main.py:33-175 | a run returns exactly what `Mapping.Translate` specifies: the first failure, or the documents in namespace order |
| `Mapping.MissingEnvironment` | main.py:68-74 | no failure exactly when every environment's segments exist; a failure names the first environment whose segments are missing |
| `Mapping.FirstFailure` | main.py:42-74 | no failure exactly when every listed flag and every one of its environments can be fetched |
| `Mapping.FlagContributions` | main.py:68-165 | a flag contributes one visit per environment |
| `Mapping.FlagContributionsNamespaces` | main.py:157-165 | the `i`-th visit of a flag is filed under its `i`-th environment |
| `Mapping.NamespacesOfMembers` | main.py:157-165 | an environment has a document exactly when some visit went to it |
| `Mapping.NamespacesOfDistinct` | main.py:157-165 | the document map lists each environment once |
| `Mapping.PendingDocumentsStep` | main.py:157-165 | one visit either extends its environment's existing document or adds a new one at the end of the key order |
| `Mapping.FirstVisit` | main.py:160-165 | an environment's document, created at its first visit, holds just that visit's flag and segments |
| `Mapping.NativeCacheStep` | main.py:70-99 | caching one more environment adds exactly its translated native segments |
| `Mapping.AllSegmentsAppend` | main.py:118-127 | the synthesized segments of two runs of visits in succession are those of the first followed by those of the second |
| `DecimalText.Decimal` | main.py:118 | the counter is rendered as a non-empty string of decimal digits without leading zeros |
| `DecimalText.ParseDecimal` | main.py:118 | reading the rendered counter back gives the counter |
| `DecimalText.DecimalInjective` | main.py:118 | distinct counter values render differently |
| `Properties.SegmentKeyInjective` | main.py:118 | distinct counter values give distinct segment keys |
| `Properties.FlagSegments` | main.py:104-127 | the segments synthesized for one flag are one per rule of its environments, in order, numbered from the counter it started at |
| `Properties.RunSegments` | main.py:38-127 | the segments synthesized in a run are one per visited rule, in visit order, the `i`-th keyed by counter value `i + 1` and holding that rule's constraints |
| `Properties.RunSegmentKeysDistinct` | main.py:118-127 | no two segments synthesized in one run share a key |
| `Properties.EnvironmentContributionConsistent` | main.py:118-155 | the rules built for one environment refer, in order, to exactly the segments synthesized for them |
| `Properties.FlagContributionsConsistent` | main.py:102-155 | that holds for every environment of a flag |
| `Properties.RunConsistent` | main.py:102-155 | that holds for every visit of a run |
| `Properties.DocumentRefs` | main.py:157-165 | in every document, the rules of its flags refer one to one and in order to its rule-derived segments |
| `Properties.EnvironmentContributionTranslates` | main.py:48-158 | the flag filed for an environment copies key, name and description, has the variant type, is enabled, has every variation as a variant and one rule per source rule with that rule's distributions |
| `Properties.FlagContributionsTranslate` | main.py:48-165 | that holds for every environment of a flag |
| `Properties.FlagVisitsOf` | main.py:68-165 | a flag's visits are one per environment, in order: filed under that environment, translating the flag there, rules matching segments |
| `Properties.MentionsStep` | main.py:157-165 | after one more flag, an environment has a document exactly when it had one before or the flag has that environment |
| `Properties.DocumentFlagsStep` | main.py:157-165 | one more flag adds its translation to exactly the documents of its environments, at the end |
| `Properties.DocumentFlagsOfRun` | main.py:42-165 | the flags of an environment's document translate, one by one and in input order, the input flags having that environment |
| `Properties.DocumentFlagsTranslate` | main.py:42-165 | the same, as a count and an index-wise correspondence |
| `Properties.RunMentions` | main.py:157-165 | an environment has a document exactly when some input flag has that environment |
| `Properties.RunNamespaces` | main.py:157-173 | the namespaces are exactly the environments of the input flags, each listed once |
| `Properties.NamespacesInVisitOrder` | main.py:170-173 | documents come in order of first visit: any visit to a later namespace comes after a visit to each earlier one |
| `Properties.TranslatedDocuments` | main.py:33-175 | a run that does not abort returns one document per namespace, in order, holding that environment's flags, its rule segments followed by its native segments, and rules that refer exactly to the rule segments |
| `Properties.TranslateFails` | main.py:42-74 | a run aborts exactly when some fetch fails, and reports the failure `Mapping.FirstFailure` gives |
| `Properties.FirstFailureIsFirst` | main.py:42-74 | that failure is the one of the first listed flag that fails, every listed flag before it being fetchable together with its environments |
| `Properties.NativeOperatorTable` | main.py:8 | `endsWith` becomes `suffix`, `startsWith` becomes `prefix`, and every other operator becomes `eq` |
| `Properties.LastRuleWins` | main.py:76-97 | a native segment's translation depends only on its key and its last rule |
| `Properties.RolloutTotal` | main.py:134-141 | the rollouts of a percentage rule add up to its total weight over 1000 |
| `Properties.FullRollout` | main.py:134-141 | weights adding up to 100000 give rollouts adding up to 100 |
| `Properties.SingleVariant` | main.py:142-148 | a rule without a rollout gives one distribution, at 100 |

## Left out

- HTTP requests, the API key and the `Authorization` header are not modelled. Responses are the maps `flagApi` and `segmentsApi`. Pagination of the listings is not modelled.
- A fetch that fails, or returns JSON without the expected fields, makes the original raise. The model turns this into an abort with the first failure in processing order. An environment's segments are modelled as missing only at the first visit to that environment; later visits use the cache, as the original does.
- The shapes that would make the original raise `IndexError` or `KeyError` are preconditions (`Schema.FlagWellFormed`, `Schema.SegmentWellFormed`):
  - a variation index outside Python's range (negative indices count from the end, as `Schema.PyIndex` shows);
  - a clause without values;
  - a rule with neither `rollout` nor `variation`.
- The environments of a flag have distinct names (`Schema.DistinctNames`), as the keys of the parsed `environments` dict are unique.
- A native segment with no rules is excluded by `Schema.SegmentWellFormed`. The original would reuse whatever list the local `constraints` last held, possibly one from another flag's rule, or raise `NameError`.
- Variation values, clause attributes and clause values are modelled as strings. LaunchDarkly also allows booleans, numbers and JSON values, which the original copies unchanged into variant keys (main.py:61) and into constraint properties and values (main.py:83, 87, 111, 113).
- The percentage of a rollout is an exact real. Floating-point rounding of `weight / 1000` is not modelled.
- Dictionary iteration follows insertion order, as Python 3.7+ guarantees. `environments` is iterated in the order of its JSON keys, which the model's sequence fixes.
- The `__main__` block is not modelled: the API-key check, `exit(1)`, and the YAML file written per document.
