/**
 * The translation from LaunchDarkly records to Flipt documents, stated as
 * functions.  These are the specification the session in translator.dfy is
 * proved against: each piece says what one nested loop of
 * `retrieve_flipt_models` builds, and `Translate` says what a whole run returns.
 */
module Mapping {
  import opened Wrappers
  import opened Schema
  import opened DecimalText

  // ----- clauses to constraints -----

  /** The operator table consulted for native segments. */
  const CONSTRAINT_OPERATORS: map<string, Operator> := map["endsWith" := Suffix, "startsWith" := Prefix]

  function NativeOperator(op: string): Operator {
    if op in CONSTRAINT_OPERATORS then CONSTRAINT_OPERATORS[op] else Eq
  }

  /** A clause of a flag rule: the operator is always "eq". */
  function RuleConstraint(c: Clause): Constraint
    requires |c.values| > 0
  {
    Constraint(StringComparisonType, c.attribute, Eq, c.values[0])
  }

  /** A clause of a native segment: the operator goes through the table. */
  function NativeConstraint(c: Clause): Constraint
    requires |c.values| > 0
  {
    Constraint(StringComparisonType, c.attribute, NativeOperator(c.op), c.values[0])
  }

  function RuleConstraints(clauses: seq<Clause>): seq<Constraint>
    requires ClausesWellFormed(clauses)
  {
    seq(|clauses|, i requires 0 <= i < |clauses| => RuleConstraint(clauses[i]))
  }

  function NativeConstraints(clauses: seq<Clause>): seq<Constraint>
    requires ClausesWellFormed(clauses)
  {
    seq(|clauses|, i requires 0 <= i < |clauses| => NativeConstraint(clauses[i]))
  }

  // ----- native segments -----

  /** Only the clauses of the last rule survive. */
  function NativeSegment(s: SourceSegment): Segment
    requires SegmentWellFormed(s)
  {
    Segment(s.key, s.key, NativeConstraints(s.rules[|s.rules| - 1].clauses), AllMatchType)
  }

  function NativeSegments(items: seq<SourceSegment>): seq<Segment>
    requires forall i :: 0 <= i < |items| ==> SegmentWellFormed(items[i])
  {
    seq(|items|, i requires 0 <= i < |items| => NativeSegment(items[i]))
  }

  // ----- variants and distributions -----

  function Variants(variations: seq<Variation>): seq<Variant> {
    seq(|variations|, i requires 0 <= i < |variations| => Variant(variations[i].value, variations[i].value))
  }

  function Distributions(r: SourceRule, variants: seq<Variant>): seq<Distribution>
    requires RuleWellFormed(r, |variants|)
  {
    match r.rollout
    case Some(entries) =>
      seq(|entries|, i requires 0 <= i < |entries| =>
        Distribution(PyIndex(variants, entries[i].variation).key, entries[i].weight as real / 1000.0))
    case None =>
      [Distribution(PyIndex(variants, r.variation.value).key, 100.0)]
  }

  // ----- rules and their synthesized segments -----

  function SegmentKey(k: nat): string {
    "segment_00" + Decimal(k)
  }

  predicate RulesWellFormed(rules: seq<SourceRule>, n: nat) {
    forall i :: 0 <= i < |rules| ==> RuleWellFormed(rules[i], n)
  }

  /** The segment synthesized for a rule visited when the counter stood at `k`. */
  function RuleSegment(r: SourceRule, k: nat): Segment
    requires ClausesWellFormed(r.clauses)
  {
    Segment(SegmentKey(k), SegmentKey(k), RuleConstraints(r.clauses), AllMatchType)
  }

  /** Rule `i` of `rules` is visited with the counter at `k + i`. */
  function RulesAt(rules: seq<SourceRule>, variants: seq<Variant>, k: nat): seq<TargetRule>
    requires RulesWellFormed(rules, |variants|)
  {
    seq(|rules|, i requires 0 <= i < |rules| => TargetRule(SegmentKey(k + i), Distributions(rules[i], variants)))
  }

  function RuleSegmentsAt(rules: seq<SourceRule>, n: nat, k: nat): seq<Segment>
    requires RulesWellFormed(rules, n)
  {
    seq(|rules|, i requires 0 <= i < |rules| =>
      assert RuleWellFormed(rules[i], n);
      RuleSegment(rules[i], k + i))
  }

  // ----- flags -----

  /** The flag as built before its rules for one environment are attached. */
  function Skeleton(f: SourceFlag): TargetFlag {
    TargetFlag(f.key, VariantFlagType, f.name, f.description, true, Variants(f.variations), [])
  }

  predicate EnvironmentsWellFormed(envs: seq<Environment>, n: nat) {
    forall i :: 0 <= i < |envs| ==> RulesWellFormed(envs[i].rules, n)
  }

  /**
   * What visiting one environment of one flag adds to that environment's
   * document: the flag carrying the rules built there, and the segments
   * synthesized for those rules.
   */
  datatype Contribution = Contribution(namespace: string, flag: TargetFlag, segments: seq<Segment>)

  function EnvironmentContribution(f: SourceFlag, env: Environment, k: nat): Contribution
    requires RulesWellFormed(env.rules, |f.variations|)
  {
    Contribution(
      env.name,
      Skeleton(f).(rules := RulesAt(env.rules, Variants(f.variations), k)),
      RuleSegmentsAt(env.rules, |f.variations|, k))
  }

  /** Every segment synthesized, in visit order. */
  function AllSegments(cs: seq<Contribution>): seq<Segment> {
    if cs == [] then [] else AllSegments(cs[..|cs| - 1]) + cs[|cs| - 1].segments
  }

  /** The visits of the environments of `f` in `envs`, the counter starting at `k`. */
  function FlagContributions(f: SourceFlag, envs: seq<Environment>, k: nat): (r: seq<Contribution>)
    requires EnvironmentsWellFormed(envs, |f.variations|)
    ensures |r| == |envs|
  {
    if envs == [] then []
    else
      var p := FlagContributions(f, envs[..|envs| - 1], k);
      p + [EnvironmentContribution(f, envs[|envs| - 1], k + |AllSegments(p)|)]
  }

  /** Visit `i` of a flag belongs to the document of its `i`-th environment. */
  lemma {:induction false} FlagContributionsNamespaces(f: SourceFlag, envs: seq<Environment>, k: nat)
    requires EnvironmentsWellFormed(envs, |f.variations|)
    ensures forall i :: 0 <= i < |envs| ==> FlagContributions(f, envs, k)[i].namespace == envs[i].name
  {
    if envs != [] {
      FlagContributionsNamespaces(f, envs[..|envs| - 1], k);
    }
  }

  /** Every flag of a run is well formed; stated from the end, as the run is processed. */
  predicate FlagsWellFormed(flags: seq<SourceFlag>) {
    flags == [] || (FlagsWellFormed(flags[..|flags| - 1]) && FlagWellFormed(flags[|flags| - 1]))
  }

  lemma FlagEnvironmentsWellFormed(f: SourceFlag)
    requires FlagWellFormed(f)
    ensures EnvironmentsWellFormed(f.environments, |f.variations|)
  {
    forall i | 0 <= i < |f.environments|
      ensures RulesWellFormed(f.environments[i].rules, |f.variations|)
    {
      assert f.environments[i] in f.environments;
    }
  }

  /** The visits of every environment of `f`, the counter starting at `k`. */
  function FlagVisits(f: SourceFlag, k: nat): seq<Contribution>
    requires FlagWellFormed(f)
  {
    FlagEnvironmentsWellFormed(f);
    FlagContributions(f, f.environments, k)
  }

  /** Every (flag, environment) visit of a run over `flags`; the counter starts at 1. */
  function Contributions(flags: seq<SourceFlag>): seq<Contribution>
    requires FlagsWellFormed(flags)
  {
    if flags == [] then []
    else
      var p := Contributions(flags[..|flags| - 1]);
      var f := flags[|flags| - 1];
      p + FlagVisits(f, 1 + |AllSegments(p)|)
  }

  // ----- documents -----

  predicate Mentions(cs: seq<Contribution>, e: string) {
    exists i :: 0 <= i < |cs| && cs[i].namespace == e
  }

  /** The environments visited, each once, in order of first visit. */
  function NamespacesOf(cs: seq<Contribution>): seq<string> {
    if cs == [] then []
    else
      var p := NamespacesOf(cs[..|cs| - 1]);
      var e := cs[|cs| - 1].namespace;
      if e in p then p else p + [e]
  }

  lemma {:induction false} NamespacesOfMembers(cs: seq<Contribution>)
    ensures forall e :: e in NamespacesOf(cs) <==> Mentions(cs, e)
  {
    if cs != [] {
      var p := cs[..|cs| - 1];
      NamespacesOfMembers(p);
      assert forall x :: Mentions(p, x) ==> Mentions(cs, x);
      assert forall x :: Mentions(cs, x) && x != cs[|cs| - 1].namespace ==> Mentions(p, x);
    }
  }

  lemma {:induction false} NamespacesOfDistinct(cs: seq<Contribution>)
    ensures forall i, j :: 0 <= i < j < |NamespacesOf(cs)| ==> NamespacesOf(cs)[i] != NamespacesOf(cs)[j]
  {
    if cs != [] {
      NamespacesOfDistinct(cs[..|cs| - 1]);
    }
  }

  function DocumentFlags(cs: seq<Contribution>, e: string): seq<TargetFlag> {
    if cs == [] then []
    else
      var last := cs[|cs| - 1];
      DocumentFlags(cs[..|cs| - 1], e) + (if last.namespace == e then [last.flag] else [])
  }

  function DocumentSegments(cs: seq<Contribution>, e: string): seq<Segment> {
    if cs == [] then []
    else
      var last := cs[|cs| - 1];
      DocumentSegments(cs[..|cs| - 1], e) + (if last.namespace == e then last.segments else [])
  }

  /** The document of `e` while flags are still being processed. */
  function PendingDocument(cs: seq<Contribution>, e: string): Document {
    Document(e, DocumentFlags(cs, e), DocumentSegments(cs, e))
  }

  /** The document of `e` once its native segments are appended. */
  function FinalDocument(cs: seq<Contribution>, e: string, natives: seq<Segment>): Document {
    Document(e, DocumentFlags(cs, e), DocumentSegments(cs, e) + natives)
  }

  /** The document map while flags are still being processed. */
  function PendingDocuments(cs: seq<Contribution>): map<string, Document> {
    map e | e in NamespacesOf(cs) :: PendingDocument(cs, e)
  }

  /** The native segment cache once the environments of `order` are fetched. */
  function NativeCache(order: seq<string>, segmentsApi: map<string, seq<SourceSegment>>): map<string, seq<Segment>>
    requires SegmentsApiWellFormed(segmentsApi)
    requires forall e :: e in order ==> e in segmentsApi
  {
    map e | e in order :: NativeSegments(segmentsApi[e])
  }

  predicate Covered(cs: seq<Contribution>, segmentsApi: map<string, seq<SourceSegment>>) {
    forall i :: 0 <= i < |cs| ==> cs[i].namespace in segmentsApi
  }

  /** The document map once every environment's native segments are appended. */
  function FinalDocuments(cs: seq<Contribution>, segmentsApi: map<string, seq<SourceSegment>>): map<string, Document>
    requires SegmentsApiWellFormed(segmentsApi) && Covered(cs, segmentsApi)
  {
    NamespacesOfMembers(cs);
    map e | e in NamespacesOf(cs) :: assert Mentions(cs, e); FinalDocument(cs, e, NativeSegments(segmentsApi[e]))
  }

  function Output(cs: seq<Contribution>, segmentsApi: map<string, seq<SourceSegment>>): seq<Document>
    requires SegmentsApiWellFormed(segmentsApi) && Covered(cs, segmentsApi)
  {
    var ns := NamespacesOf(cs);
    NamespacesOfMembers(cs);
    seq(|ns|, i requires 0 <= i < |ns| =>
      assert Mentions(cs, ns[i]);
      FinalDocument(cs, ns[i], NativeSegments(segmentsApi[ns[i]])))
  }

  // ----- failures and the whole run -----

  /** The first environment (in order) whose segments cannot be fetched. */
  function MissingEnvironment(envs: seq<Environment>, segmentsApi: map<string, seq<SourceSegment>>): (r: Option<Error>)
    ensures r.None? <==> forall i :: 0 <= i < |envs| ==> envs[i].name in segmentsApi
    ensures r.Some? ==> exists i ::
      && 0 <= i < |envs|
      && envs[i].name !in segmentsApi
      && r.value == SegmentsNotFound(envs[i].name)
      && forall j :: 0 <= j < i ==> envs[j].name in segmentsApi
  {
    if envs == [] then None
    else
      match MissingEnvironment(envs[..|envs| - 1], segmentsApi)
      case Some(err) => Some(err)
      case None =>
        var e := envs[|envs| - 1].name;
        if e in segmentsApi then None else Some(SegmentsNotFound(e))
  }

  function FlagFailure(input: FlagSummary, flagApi: map<string, SourceFlag>, segmentsApi: map<string, seq<SourceSegment>>): Option<Error> {
    if input.key !in flagApi then Some(FlagNotFound(input.key))
    else MissingEnvironment(flagApi[input.key].environments, segmentsApi)
  }

  predicate Fetchable(inputs: seq<FlagSummary>, flagApi: map<string, SourceFlag>, segmentsApi: map<string, seq<SourceSegment>>) {
    forall i :: 0 <= i < |inputs| ==>
      && inputs[i].key in flagApi
      && forall j :: 0 <= j < |flagApi[inputs[i].key].environments| ==>
           flagApi[inputs[i].key].environments[j].name in segmentsApi
  }

  /** The fetch that aborts the run first, visiting flags and their environments in order. */
  function FirstFailure(inputs: seq<FlagSummary>, flagApi: map<string, SourceFlag>, segmentsApi: map<string, seq<SourceSegment>>): (r: Option<Error>)
    ensures r.None? <==> Fetchable(inputs, flagApi, segmentsApi)
  {
    if inputs == [] then None
    else
      match FirstFailure(inputs[..|inputs| - 1], flagApi, segmentsApi)
      case Some(err) => Some(err)
      case None => FlagFailure(inputs[|inputs| - 1], flagApi, segmentsApi)
  }

  function Fetched(inputs: seq<FlagSummary>, flagApi: map<string, SourceFlag>): (r: seq<SourceFlag>)
    requires forall i :: 0 <= i < |inputs| ==> inputs[i].key in flagApi
  {
    seq(|inputs|, i requires 0 <= i < |inputs| => flagApi[inputs[i].key])
  }

  lemma CoveredAppend(a: seq<Contribution>, b: seq<Contribution>, segmentsApi: map<string, seq<SourceSegment>>)
    requires Covered(a, segmentsApi) && Covered(b, segmentsApi)
    ensures Covered(a + b, segmentsApi)
  {
    forall i | 0 <= i < |a + b|
      ensures (a + b)[i].namespace in segmentsApi
    {
      if i < |a| {
        assert (a + b)[i] == a[i];
      } else {
        assert (a + b)[i] == b[i - |a|];
      }
    }
  }

  lemma FlagVisitsCovered(f: SourceFlag, k: nat, segmentsApi: map<string, seq<SourceSegment>>)
    requires FlagWellFormed(f)
    requires forall j :: 0 <= j < |f.environments| ==> f.environments[j].name in segmentsApi
    ensures Covered(FlagVisits(f, k), segmentsApi)
  {
    FlagEnvironmentsWellFormed(f);
    FlagContributionsNamespaces(f, f.environments, k);
  }

  lemma {:induction false} ContributionsCovered(flags: seq<SourceFlag>, segmentsApi: map<string, seq<SourceSegment>>)
    requires FlagsWellFormed(flags)
    requires forall i, j :: 0 <= i < |flags| && 0 <= j < |flags[i].environments| ==> flags[i].environments[j].name in segmentsApi
    ensures Covered(Contributions(flags), segmentsApi)
  {
    if flags != [] {
      var p := flags[..|flags| - 1];
      var f := flags[|flags| - 1];
      assert forall i :: 0 <= i < |p| ==> p[i] == flags[i];
      ContributionsCovered(p, segmentsApi);
      var k := 1 + |AllSegments(Contributions(p))|;
      FlagVisitsCovered(f, k, segmentsApi);
      assert Contributions(flags) == Contributions(p) + FlagVisits(f, k);
      CoveredAppend(Contributions(p), FlagVisits(f, k), segmentsApi);
    }
  }

  /** What `retrieve_flipt_models` returns, or the failure that aborts it. */
  function Translate(inputs: seq<FlagSummary>, flagApi: map<string, SourceFlag>, segmentsApi: map<string, seq<SourceSegment>>): Result<seq<Document>, Error>
    requires FlagApiWellFormed(flagApi) && SegmentsApiWellFormed(segmentsApi)
  {
    match FirstFailure(inputs, flagApi, segmentsApi)
    case Some(err) => Failure(err)
    case None =>
      var flags := Fetched(inputs, flagApi);
      FetchedWellFormed(inputs, flagApi);
      ContributionsCovered(flags, segmentsApi);
      Success(Output(Contributions(flags), segmentsApi))
  }

  // ----- facts the session's proofs rely on -----

  lemma {:induction false} AllSegmentsAppend(a: seq<Contribution>, b: seq<Contribution>)
    ensures AllSegments(a + b) == AllSegments(a) + AllSegments(b)
    decreases |b|
  {
    if b == [] {
      assert a + b == a;
    } else {
      var b' := b[..|b| - 1];
      var last := b[|b| - 1];
      assert (a + b)[..|a + b| - 1] == a + b';
      assert (a + b)[|a + b| - 1] == last;
      AllSegmentsAppend(a, b');
      calc {
        AllSegments(a + b);
        AllSegments(a + b') + last.segments;
        AllSegments(a) + AllSegments(b') + last.segments;
        AllSegments(a) + (AllSegments(b') + last.segments);
        AllSegments(a) + AllSegments(b);
      }
    }
  }

  lemma {:induction false} NotMentioned(cs: seq<Contribution>, e: string)
    requires !Mentions(cs, e)
    ensures DocumentFlags(cs, e) == [] && DocumentSegments(cs, e) == []
  {
    if cs != [] {
      var p := cs[..|cs| - 1];
      NotMentioned(p, e);
    }
  }

  lemma PendingAppend(cs: seq<Contribution>, c: Contribution, e: string)
    ensures PendingDocument(cs + [c], e) ==
      if c.namespace == e
      then Document(e, DocumentFlags(cs, e) + [c.flag], DocumentSegments(cs, e) + c.segments)
      else PendingDocument(cs, e)
  {
    assert (cs + [c])[..|cs|] == cs;
  }

  lemma {:induction false} MissingEnvironmentPrefix(envs: seq<Environment>, n: nat, segmentsApi: map<string, seq<SourceSegment>>)
    requires n <= |envs|
    requires MissingEnvironment(envs[..n], segmentsApi).Some?
    ensures MissingEnvironment(envs, segmentsApi) == MissingEnvironment(envs[..n], segmentsApi)
    decreases |envs| - n
  {
    if n < |envs| {
      var p := envs[..|envs| - 1];
      assert p[..n] == envs[..n];
      MissingEnvironmentPrefix(p, n, segmentsApi);
    } else {
      assert envs[..n] == envs;
    }
  }

  lemma MissingEnvironmentStep(envs: seq<Environment>, j: nat, segmentsApi: map<string, seq<SourceSegment>>)
    requires j < |envs| && MissingEnvironment(envs[..j], segmentsApi) == None
    ensures MissingEnvironment(envs[..j + 1], segmentsApi) ==
      if envs[j].name in segmentsApi then None else Some(SegmentsNotFound(envs[j].name))
  {
    assert envs[..j + 1][..j] == envs[..j];
  }

  lemma FirstFailureStep(inputs: seq<FlagSummary>, i: nat, flagApi: map<string, SourceFlag>, segmentsApi: map<string, seq<SourceSegment>>)
    requires i < |inputs| && FirstFailure(inputs[..i], flagApi, segmentsApi) == None
    ensures FirstFailure(inputs[..i + 1], flagApi, segmentsApi) == FlagFailure(inputs[i], flagApi, segmentsApi)
  {
    assert inputs[..i + 1][..i] == inputs[..i];
  }

  lemma {:induction false} FirstFailurePrefix(inputs: seq<FlagSummary>, n: nat, flagApi: map<string, SourceFlag>, segmentsApi: map<string, seq<SourceSegment>>)
    requires n <= |inputs|
    requires FirstFailure(inputs[..n], flagApi, segmentsApi).Some?
    ensures FirstFailure(inputs, flagApi, segmentsApi) == FirstFailure(inputs[..n], flagApi, segmentsApi)
    decreases |inputs| - n
  {
    if n < |inputs| {
      var p := inputs[..|inputs| - 1];
      assert p[..n] == inputs[..n];
      FirstFailurePrefix(p, n, flagApi, segmentsApi);
    } else {
      assert inputs[..n] == inputs;
    }
  }

  lemma FlagContributionsStep(f: SourceFlag, envs: seq<Environment>, j: nat, k: nat, counter: nat)
    requires EnvironmentsWellFormed(envs, |f.variations|) && j < |envs|
    requires counter == k + |AllSegments(FlagContributions(f, envs[..j], k))|
    ensures FlagContributions(f, envs[..j + 1], k) ==
      FlagContributions(f, envs[..j], k) + [EnvironmentContribution(f, envs[j], counter)]
  {
    assert envs[..j + 1][..j] == envs[..j];
  }

  lemma NamespacesOfStep(cs: seq<Contribution>, c: Contribution)
    ensures NamespacesOf(cs + [c]) ==
      if c.namespace in NamespacesOf(cs) then NamespacesOf(cs) else NamespacesOf(cs) + [c.namespace]
  {
    assert (cs + [c])[..|cs|] == cs;
  }

  /** The document of an environment visited for the first time holds just this visit. */
  lemma FirstVisit(cs: seq<Contribution>, c: Contribution)
    requires c.namespace !in NamespacesOf(cs)
    ensures PendingDocument(cs + [c], c.namespace) == Document(c.namespace, [c.flag], c.segments)
  {
    NamespacesOfMembers(cs);
    NotMentioned(cs, c.namespace);
    PendingAppend(cs, c, c.namespace);
  }

  lemma PendingDocumentsStep(cs: seq<Contribution>, c: Contribution)
    ensures NamespacesOf(cs + [c]) ==
      if c.namespace in NamespacesOf(cs) then NamespacesOf(cs) else NamespacesOf(cs) + [c.namespace]
    ensures PendingDocuments(cs + [c]) ==
      var docs := PendingDocuments(cs);
      var e := c.namespace;
      if e in docs then docs[e := Document(docs[e].namespace, docs[e].flags + [c.flag], docs[e].segments + c.segments)]
      else docs[e := Document(e, [c.flag], c.segments)]
  {
    NamespacesOfStep(cs, c);
    var docs := PendingDocuments(cs);
    var e := c.namespace;
    var next := if e in docs then docs[e := Document(docs[e].namespace, docs[e].flags + [c.flag], docs[e].segments + c.segments)]
      else docs[e := Document(e, [c.flag], c.segments)];
    if e !in docs {
      FirstVisit(cs, c);
    }
    forall x | x in NamespacesOf(cs + [c])
      ensures PendingDocuments(cs + [c])[x] == next[x]
    {
      PendingAppend(cs, c, x);
    }
  }

  lemma NativeCacheStep(order: seq<string>, e: string, segmentsApi: map<string, seq<SourceSegment>>)
    requires SegmentsApiWellFormed(segmentsApi)
    requires forall x :: x in order ==> x in segmentsApi
    requires e in segmentsApi
    ensures NativeCache(order + [e], segmentsApi) == NativeCache(order, segmentsApi)[e := NativeSegments(segmentsApi[e])]
  {
  }

  /** One turn of the flag loop. */
  lemma ContributionsStep(flags: seq<SourceFlag>, f: SourceFlag)
    requires FlagsWellFormed(flags) && FlagWellFormed(f)
    ensures FlagsWellFormed(flags + [f])
    ensures Contributions(flags + [f]) == Contributions(flags) + FlagVisits(f, 1 + |AllSegments(Contributions(flags))|)
  {
    assert (flags + [f])[..|flags|] == flags;
  }

  lemma {:induction false} FetchedWellFormed(inputs: seq<FlagSummary>, flagApi: map<string, SourceFlag>)
    requires FlagApiWellFormed(flagApi)
    requires forall i :: 0 <= i < |inputs| ==> inputs[i].key in flagApi
    ensures FlagsWellFormed(Fetched(inputs, flagApi))
    decreases |inputs|
  {
    if inputs != [] {
      var n := |inputs| - 1;
      FetchedWellFormed(inputs[..n], flagApi);
      FetchedStep(inputs, n, flagApi);
      ContributionsStep(Fetched(inputs[..n], flagApi), flagApi[inputs[n].key]);
      assert inputs[..n + 1] == inputs;
    }
  }

  lemma FetchedStep(inputs: seq<FlagSummary>, i: nat, flagApi: map<string, SourceFlag>)
    requires i < |inputs| && forall j :: 0 <= j <= i ==> inputs[j].key in flagApi
    ensures Fetched(inputs[..i + 1], flagApi) == Fetched(inputs[..i], flagApi) + [flagApi[inputs[i].key]]
  {
  }

  /** A sequence listing the final documents in namespace order is the output. */
  lemma OutputFromDocuments(cs: seq<Contribution>, segmentsApi: map<string, seq<SourceSegment>>, docs: seq<Document>)
    requires SegmentsApiWellFormed(segmentsApi) && Covered(cs, segmentsApi)
    requires |docs| == |NamespacesOf(cs)|
    requires forall i :: 0 <= i < |docs| ==> NamespacesOf(cs)[i] in FinalDocuments(cs, segmentsApi)
    requires forall i :: 0 <= i < |docs| ==> docs[i] == FinalDocuments(cs, segmentsApi)[NamespacesOf(cs)[i]]
    ensures docs == Output(cs, segmentsApi)
  {
  }

  /** The documents part-way through the cache loop: those of `order` have their native segments. */
  function AppendedDocuments(cs: seq<Contribution>, order: seq<string>, natives: map<string, seq<Segment>>): map<string, Document> {
    map e | e in NamespacesOf(cs) :: if e in order && e in natives then FinalDocument(cs, e, natives[e]) else PendingDocument(cs, e)
  }

  lemma AppendedNone(cs: seq<Contribution>, natives: map<string, seq<Segment>>)
    ensures AppendedDocuments(cs, [], natives) == PendingDocuments(cs)
  {
  }

  lemma AppendedStep(cs: seq<Contribution>, order: seq<string>, e: string, natives: map<string, seq<Segment>>)
    requires e !in order && e in NamespacesOf(cs) && e in natives
    ensures e in AppendedDocuments(cs, order, natives)
    ensures AppendedDocuments(cs, order, natives)[e] == PendingDocument(cs, e)
    ensures AppendedDocuments(cs, order + [e], natives) ==
      AppendedDocuments(cs, order, natives)[e := FinalDocument(cs, e, natives[e])]
  {
  }

  lemma AppendedAll(cs: seq<Contribution>, order: seq<string>, segmentsApi: map<string, seq<SourceSegment>>)
    requires SegmentsApiWellFormed(segmentsApi) && Covered(cs, segmentsApi)
    requires forall e :: e in order ==> e in segmentsApi
    requires forall e :: e in NamespacesOf(cs) ==> e in order
    ensures AppendedDocuments(cs, order, NativeCache(order, segmentsApi)) == FinalDocuments(cs, segmentsApi)
  {
  }

  lemma AppendLast<T>(a: seq<T>, b: seq<T>, x: T)
    ensures a + (b + [x]) == (a + b) + [x]
  {
  }

  lemma AllSegmentsLast(cs: seq<Contribution>, c: Contribution)
    ensures |AllSegments(cs + [c])| == |AllSegments(cs)| + |c.segments|
  {
    assert (cs + [c])[..|cs|] == cs;
  }

  /** One turn of the environment loop, on the visits and the counter. */
  lemma FlagLoopStep(visited: seq<Contribution>, f: SourceFlag, envs: seq<Environment>, j: nat, k: nat,
                     before: seq<Contribution>, c: Contribution)
    requires EnvironmentsWellFormed(envs, |f.variations|) && j < |envs|
    requires k == 1 + |AllSegments(visited)|
    requires before == visited + FlagContributions(f, envs[..j], k)
    requires c == EnvironmentContribution(f, envs[j], 1 + |AllSegments(before)|)
    ensures visited + FlagContributions(f, envs[..j + 1], k) == before + [c]
    ensures 1 + |AllSegments(before)| + |envs[j].rules| == 1 + |AllSegments(before + [c])|
  {
    var done := FlagContributions(f, envs[..j], k);
    AllSegmentsAppend(visited, done);
    FlagContributionsStep(f, envs, j, k, 1 + |AllSegments(before)|);
    AllSegmentsLast(before, c);
    AppendLast(visited, done, c);
  }
}
