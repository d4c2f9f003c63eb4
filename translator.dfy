/**
 * `get_flags` and `retrieve_flipt_models` as imperative code: a session
 * object holds the segment counter, the environment -> native segments
 * cache and the environment -> document map, and its methods are the
 * loops of the original, each proved against the functions of Mapping.
 */
module Translator {
  import opened Wrappers
  import opened Schema
  import opened Mapping

  /** The `items` -> {key, name} projection of the flag listing. */
  method ListFlags(items: seq<ListedFlag>) returns (flags: seq<FlagSummary>)
    ensures |flags| == |items|
    ensures forall i :: 0 <= i < |items| ==> flags[i].key == items[i].key && flags[i].name == items[i].name
  {
    flags := [];
    var i := 0;
    while i < |items|
      invariant 0 <= i <= |items|
      invariant |flags| == i
      invariant forall j :: 0 <= j < i ==> flags[j].key == items[j].key && flags[j].name == items[j].name
    {
      flags := flags + [FlagSummary(items[i].key, items[i].name)];
      i := i + 1;
    }
  }

  /** One variant per variation, in order; the value is both key and name. */
  method BuildVariants(variations: seq<Variation>) returns (variants: seq<Variant>)
    ensures |variants| == |variations|
    ensures forall i :: 0 <= i < |variations| ==>
      variants[i].key == variations[i].value && variants[i].name == variations[i].value
  {
    variants := [];
    var i := 0;
    while i < |variations|
      invariant 0 <= i <= |variations|
      invariant |variants| == i
      invariant forall j :: 0 <= j < i ==>
        variants[j].key == variations[j].value && variants[j].name == variations[j].value
    {
      variants := variants + [Variant(variations[i].value, variations[i].value)];
      i := i + 1;
    }
  }

  /** The constraints of a flag rule: one per clause, in order, always "eq". */
  method BuildRuleConstraints(clauses: seq<Clause>) returns (constraints: seq<Constraint>)
    requires ClausesWellFormed(clauses)
    ensures |constraints| == |clauses|
    ensures forall i :: 0 <= i < |clauses| ==>
      constraints[i] == Constraint(StringComparisonType, clauses[i].attribute, Eq, clauses[i].values[0])
  {
    constraints := [];
    var i := 0;
    while i < |clauses|
      invariant 0 <= i <= |clauses|
      invariant |constraints| == i
      invariant forall j :: 0 <= j < i ==>
        constraints[j] == Constraint(StringComparisonType, clauses[j].attribute, Eq, clauses[j].values[0])
    {
      var clause := clauses[i];
      assert clause in clauses;
      constraints := constraints + [Constraint(StringComparisonType, clause.attribute, Eq, clause.values[0])];
      i := i + 1;
    }
  }

  /** The constraints of a native segment rule: one per clause, in order, operator from the table. */
  method BuildNativeConstraints(clauses: seq<Clause>) returns (constraints: seq<Constraint>)
    requires ClausesWellFormed(clauses)
    ensures |constraints| == |clauses|
    ensures forall i :: 0 <= i < |clauses| ==>
      constraints[i] == Constraint(StringComparisonType, clauses[i].attribute, NativeOperator(clauses[i].op), clauses[i].values[0])
  {
    constraints := [];
    var i := 0;
    while i < |clauses|
      invariant 0 <= i <= |clauses|
      invariant |constraints| == i
      invariant forall j :: 0 <= j < i ==>
        constraints[j] == Constraint(StringComparisonType, clauses[j].attribute, NativeOperator(clauses[j].op), clauses[j].values[0])
    {
      var clause := clauses[i];
      assert clause in clauses;
      var operator := if clause.op in CONSTRAINT_OPERATORS then CONSTRAINT_OPERATORS[clause.op] else Eq;
      constraints := constraints + [Constraint(StringComparisonType, clause.attribute, operator, clause.values[0])];
      i := i + 1;
    }
  }

  /**
   * The native segments of one environment: key and name are the source
   * key, and the constraints are those of the segment's last rule.
   */
  method TranslateNativeSegments(items: seq<SourceSegment>) returns (segments: seq<Segment>)
    requires forall i :: 0 <= i < |items| ==> SegmentWellFormed(items[i])
    ensures segments == NativeSegments(items)
  {
    segments := [];
    var i := 0;
    while i < |items|
      invariant 0 <= i <= |items|
      invariant |segments| == i
      invariant forall j :: 0 <= j < i ==> segments[j] == NativeSegment(items[j])
    {
      var item := items[i];
      assert item in items;
      var constraints: seq<Constraint> := [];
      var r := 0;
      while r < |item.rules|
        invariant 0 <= r <= |item.rules|
        invariant r > 0 ==> constraints == NativeConstraints(item.rules[r - 1].clauses)
      {
        assert item.rules[r] in item.rules;
        constraints := BuildNativeConstraints(item.rules[r].clauses);
        r := r + 1;
      }
      segments := segments + [Segment(item.key, item.key, constraints, AllMatchType)];
      i := i + 1;
    }
  }

  /** The distributions of one rule: one per rollout entry, or a single one at 100. */
  method BuildDistributions(rule: SourceRule, variants: seq<Variant>) returns (distributions: seq<Distribution>)
    requires RuleWellFormed(rule, |variants|)
    ensures rule.rollout.Some? ==>
      && |distributions| == |rule.rollout.value|
      && forall i :: 0 <= i < |distributions| ==>
           && distributions[i].variant == PyIndex(variants, rule.rollout.value[i].variation).key
           && distributions[i].rollout == rule.rollout.value[i].weight as real / 1000.0
    ensures rule.rollout.None? ==>
      distributions == [Distribution(PyIndex(variants, rule.variation.value).key, 100.0)]
  {
    distributions := [];
    if rule.rollout.Some? {
      var entries := rule.rollout.value;
      var i := 0;
      while i < |entries|
        invariant 0 <= i <= |entries|
        invariant |distributions| == i
        invariant forall j :: 0 <= j < i ==>
          && distributions[j].variant == PyIndex(variants, entries[j].variation).key
          && distributions[j].rollout == entries[j].weight as real / 1000.0
      {
        assert entries[i] in entries;
        var entry := entries[i];
        distributions := distributions + [Distribution(PyIndex(variants, entry.variation).key, entry.weight as real / 1000.0)];
        i := i + 1;
      }
    } else {
      distributions := distributions + [Distribution(PyIndex(variants, rule.variation.value).key, 100.0)];
    }
  }

  /** The state `retrieve_flipt_models` keeps across flags. */
  class Session {
    /** The segments endpoint, one list per environment that has one. */
    const segmentsApi: map<string, seq<SourceSegment>>
    var segmentCounter: nat
    /** The keys of the document map, in insertion order. */
    var namespaces: seq<string>
    var documents: map<string, Document>
    /** The keys of the native segment cache, in insertion order. */
    var environmentOrder: seq<string>
    var environmentSegments: map<string, seq<Segment>>
    /** Every (flag, environment) visit so far. */
    ghost var visited: seq<Contribution>

    /** The cache holds each fetched environment once, translated. */
    ghost predicate Cached()
      reads this`environmentOrder, this`environmentSegments
    {
      && SegmentsApiWellFormed(segmentsApi)
      && (forall i, j :: 0 <= i < j < |environmentOrder| ==> environmentOrder[i] != environmentOrder[j])
      && (forall e :: e in environmentOrder ==> e in segmentsApi)
      && environmentSegments == NativeCache(environmentOrder, segmentsApi)
    }

    /** Between flags: the documents are those the visits so far determine. */
    ghost predicate Valid()
      reads this`environmentOrder, this`environmentSegments, this`namespaces, this`documents, this`visited
    {
      && Cached()
      && namespaces == NamespacesOf(visited)
      && documents == PendingDocuments(visited)
      && (forall e :: e in namespaces ==> e in environmentOrder)
    }

    /** Every cached environment has its document. */
    ghost predicate Settled()
      reads this`environmentOrder, this`namespaces
    {
      forall e :: e in environmentOrder ==> e in namespaces
    }

    /** After the native segments have been appended. */
    ghost predicate Completed()
      reads this`environmentOrder, this`environmentSegments, this`namespaces, this`documents, this`visited
    {
      && Cached()
      && Settled()
      && namespaces == NamespacesOf(visited)
      && (forall e :: e in namespaces ==> e in environmentOrder)
      && Covered(visited, segmentsApi)
      && documents == FinalDocuments(visited, segmentsApi)
    }

    constructor (segmentsApi: map<string, seq<SourceSegment>>)
      requires SegmentsApiWellFormed(segmentsApi)
      ensures Valid() && Settled()
      ensures this.segmentsApi == segmentsApi
      ensures segmentCounter == 1 && visited == []
    {
      this.segmentsApi := segmentsApi;
      segmentCounter := 1;
      namespaces := [];
      documents := map[];
      environmentOrder := [];
      environmentSegments := map[];
      visited := [];
    }

    /** Fetches and translates the native segments of `e` unless they are cached. */
    method EnsureNativeSegments(e: string) returns (found: bool)
      requires Valid()
      modifies this`environmentOrder, this`environmentSegments
      ensures Valid()
      ensures found == (e in segmentsApi)
      ensures found ==> e in environmentOrder
      ensures old(e in environmentOrder) || !found ==> environmentOrder == old(environmentOrder)
      ensures old(e !in environmentOrder) && found ==> environmentOrder == old(environmentOrder) + [e]
    {
      if e in environmentSegments {
        return true;
      }
      if e !in segmentsApi {
        return false;
      }
      var segments := TranslateNativeSegments(segmentsApi[e]);
      NativeCacheStep(environmentOrder, e, segmentsApi);
      environmentSegments := environmentSegments[e := segments];
      environmentOrder := environmentOrder + [e];
      found := true;
    }

    /** One segment per rule under fresh counter values, and the rule pointing at it. */
    method TranslateRules(rules: seq<SourceRule>, variants: seq<Variant>) returns (targetRules: seq<TargetRule>, segments: seq<Segment>)
      requires RulesWellFormed(rules, |variants|)
      modifies this`segmentCounter
      ensures segmentCounter == old(segmentCounter) + |rules|
      ensures targetRules == RulesAt(rules, variants, old(segmentCounter))
      ensures segments == RuleSegmentsAt(rules, |variants|, old(segmentCounter))
    {
      targetRules, segments := [], [];
      var i := 0;
      while i < |rules|
        invariant 0 <= i <= |rules|
        invariant segmentCounter == old(segmentCounter) + i
        invariant targetRules == RulesAt(rules[..i], variants, old(segmentCounter))
        invariant segments == RuleSegmentsAt(rules[..i], |variants|, old(segmentCounter))
      {
        var rule := rules[i];
        assert rule in rules;
        var constraints := BuildRuleConstraints(rule.clauses);
        assert constraints == RuleConstraints(rule.clauses);
        var segmentKey := SegmentKey(segmentCounter);
        segments := segments + [Segment(segmentKey, segmentKey, constraints, AllMatchType)];
        segmentCounter := segmentCounter + 1;
        var distributions := BuildDistributions(rule, variants);
        assert distributions == Distributions(rule, variants);
        targetRules := targetRules + [TargetRule(segmentKey, distributions)];
        assert rules[..i + 1][..i] == rules[..i];
        i := i + 1;
      }
      assert rules[..i] == rules;
    }

    /** Appends the flag and its rule segments to the document of `e`, creating it if need be. */
    method AddToDocument(e: string, flag: TargetFlag, segments: seq<Segment>)
      requires Valid() && e in environmentOrder
      modifies this`namespaces, this`documents, this`visited
      ensures Valid()
      ensures visited == old(visited) + [Contribution(e, flag, segments)]
      ensures e in namespaces && forall x :: x in old(namespaces) ==> x in namespaces
    {
      ghost var c := Contribution(e, flag, segments);
      PendingDocumentsStep(visited, c);
      if e in documents {
        var doc := documents[e];
        documents := documents[e := Document(doc.namespace, doc.flags + [flag], doc.segments + segments)];
      } else {
        documents := documents[e := Document(e, [flag], segments)];
        namespaces := namespaces + [e];
      }
      visited := visited + [c];
    }

    /** The body of the environment loop: one environment of one flag. */
    method VisitEnvironment(f: SourceFlag, skeleton: TargetFlag, env: Environment) returns (found: bool)
      requires Valid() && Settled()
      requires skeleton == Skeleton(f) && RulesWellFormed(env.rules, |f.variations|)
      modifies this`segmentCounter, this`namespaces, this`documents, this`environmentOrder,
        this`environmentSegments, this`visited
      ensures Valid() && Settled()
      ensures found == (env.name in segmentsApi)
      ensures !found ==> visited == old(visited) && segmentCounter == old(segmentCounter)
      ensures found ==>
        && visited == old(visited) + [EnvironmentContribution(f, env, old(segmentCounter))]
        && segmentCounter == old(segmentCounter) + |env.rules|
    {
      found := EnsureNativeSegments(env.name);
      if found {
        var rules, segments := TranslateRules(env.rules, skeleton.variants);
        AddToDocument(env.name, skeleton.(rules := rules), segments);
      }
    }

    /** One turn of the environment loop of one flag: visits `envs[j]`. */
    method VisitNext(f: SourceFlag, skeleton: TargetFlag, envs: seq<Environment>, j: nat, ghost v0: seq<Contribution>, ghost k0: nat)
      returns (failure: Option<Error>)
      requires Valid() && Settled() && skeleton == Skeleton(f)
      requires EnvironmentsWellFormed(envs, |f.variations|) && j < |envs|
      requires MissingEnvironment(envs[..j], segmentsApi) == None
      requires k0 == 1 + |AllSegments(v0)|
      requires visited == v0 + FlagContributions(f, envs[..j], k0) && segmentCounter == 1 + |AllSegments(visited)|
      modifies this`segmentCounter, this`namespaces, this`documents, this`environmentOrder,
        this`environmentSegments, this`visited
      ensures Valid() && Settled()
      ensures failure == MissingEnvironment(envs[..j + 1], segmentsApi)
      ensures failure.None? ==>
        && visited == v0 + FlagContributions(f, envs[..j + 1], k0)
        && segmentCounter == 1 + |AllSegments(visited)|
    {
      FlagLoopStep(v0, f, envs, j, k0, visited, EnvironmentContribution(f, envs[j], segmentCounter));
      MissingEnvironmentStep(envs, j, segmentsApi);
      var found := VisitEnvironment(f, skeleton, envs[j]);
      failure := if found then None else Some(SegmentsNotFound(envs[j].name));
    }

    /** The body of the flag loop, for one fetched flag. */
    method TranslateFlag(f: SourceFlag) returns (failure: Option<Error>)
      requires Valid() && Settled() && EnvironmentsWellFormed(f.environments, |f.variations|)
      requires segmentCounter == 1 + |AllSegments(visited)|
      modifies this`segmentCounter, this`namespaces, this`documents, this`environmentOrder,
        this`environmentSegments, this`visited
      ensures Valid()
      ensures failure == MissingEnvironment(f.environments, segmentsApi)
      ensures failure.None? ==>
        && Settled()
        && visited == old(visited) + FlagContributions(f, f.environments, old(segmentCounter))
        && segmentCounter == 1 + |AllSegments(visited)|
    {
      var variants := BuildVariants(f.variations);
      assert variants == Variants(f.variations);
      var skeleton := TargetFlag(f.key, VariantFlagType, f.name, f.description, true, variants, []);
      var envs := f.environments;
      ghost var v0, k0 := visited, segmentCounter;
      failure := None;
      var j := 0;
      while j < |envs| && failure.None?
        invariant 0 <= j <= |envs|
        invariant Valid() && Settled()
        invariant failure == MissingEnvironment(envs[..j], segmentsApi)
        invariant failure.None? ==>
          && visited == v0 + FlagContributions(f, envs[..j], k0)
          && segmentCounter == 1 + |AllSegments(visited)|
      {
        failure := VisitNext(f, skeleton, envs, j, v0, k0);
        j := j + 1;
      }
      if failure.Some? {
        MissingEnvironmentPrefix(envs, j, segmentsApi);
      } else {
        assert envs[..j] == envs;
      }
    }

    /** Fetches one listed flag and translates it. */
    method TranslateListedFlag(input: FlagSummary, flagApi: map<string, SourceFlag>) returns (failure: Option<Error>)
      requires Valid() && Settled() && FlagApiWellFormed(flagApi)
      requires segmentCounter == 1 + |AllSegments(visited)|
      modifies this`segmentCounter, this`namespaces, this`documents, this`environmentOrder,
        this`environmentSegments, this`visited
      ensures Valid()
      ensures failure == FlagFailure(input, flagApi, segmentsApi)
      ensures failure.None? ==>
        && input.key in flagApi
        && Settled()
        && visited == old(visited) + FlagVisits(flagApi[input.key], old(segmentCounter))
        && segmentCounter == 1 + |AllSegments(visited)|
    {
      if input.key !in flagApi {
        return Some(FlagNotFound(input.key));
      }
      FlagEnvironmentsWellFormed(flagApi[input.key]);
      failure := TranslateFlag(flagApi[input.key]);
    }

    /** The state after the first `i` listed flags, fetched as `fetched`, have been translated. */
    ghost predicate FlagsTranslated(inputs: seq<FlagSummary>, i: nat, flagApi: map<string, SourceFlag>, fetched: seq<SourceFlag>)
      reads this`environmentOrder, this`namespaces, this`visited, this`segmentCounter
    {
      && i <= |inputs|
      && (forall j :: 0 <= j < i ==> inputs[j].key in flagApi)
      && fetched == Fetched(inputs[..i], flagApi)
      && Settled()
      && FlagsWellFormed(fetched)
      && visited == Contributions(fetched)
      && segmentCounter == 1 + |AllSegments(visited)|
    }

    /** One turn of the loop over the listed flags: fetches and translates `inputs[i]`. */
    method TranslateNext(inputs: seq<FlagSummary>, i: nat, flagApi: map<string, SourceFlag>, ghost fetched: seq<SourceFlag>)
      returns (failure: Option<Error>, ghost next: seq<SourceFlag>)
      requires i < |inputs| && Valid() && FlagApiWellFormed(flagApi)
      requires FirstFailure(inputs[..i], flagApi, segmentsApi) == None
      requires FlagsTranslated(inputs, i, flagApi, fetched)
      modifies this`segmentCounter, this`namespaces, this`documents, this`environmentOrder,
        this`environmentSegments, this`visited
      ensures Valid()
      ensures failure == FirstFailure(inputs[..i + 1], flagApi, segmentsApi)
      ensures failure.None? ==> FlagsTranslated(inputs, i + 1, flagApi, next)
    {
      FirstFailureStep(inputs, i, flagApi, segmentsApi);
      next := fetched;
      failure := TranslateListedFlag(inputs[i], flagApi);
      if failure.None? {
        ghost var flag := flagApi[inputs[i].key];
        ContributionsStep(fetched, flag);
        FetchedStep(inputs, i, flagApi);
        next := fetched + [flag];
      }
    }

    /** The loop over the listed flags, aborting on the first failure. */
    method TranslateFlags(inputs: seq<FlagSummary>, flagApi: map<string, SourceFlag>) returns (failure: Option<Error>)
      requires Valid() && Settled() && visited == [] && segmentCounter == 1
      requires FlagApiWellFormed(flagApi)
      modifies this`segmentCounter, this`namespaces, this`documents, this`environmentOrder,
        this`environmentSegments, this`visited
      ensures Valid()
      ensures failure == FirstFailure(inputs, flagApi, segmentsApi)
      ensures failure.None? ==> Settled() && FlagsWellFormed(Fetched(inputs, flagApi))
      ensures failure.None? ==> visited == Contributions(Fetched(inputs, flagApi))
    {
      ghost var fetched: seq<SourceFlag> := [];
      failure := None;
      var i := 0;
      while i < |inputs| && failure.None?
        invariant 0 <= i <= |inputs|
        invariant failure == FirstFailure(inputs[..i], flagApi, segmentsApi)
        invariant Valid()
        invariant failure.None? ==> FlagsTranslated(inputs, i, flagApi, fetched)
      {
        failure, fetched := TranslateNext(inputs, i, flagApi, fetched);
        i := i + 1;
      }
      if failure.Some? {
        FirstFailurePrefix(inputs, i, flagApi, segmentsApi);
      } else {
        assert inputs[..i] == inputs;
      }
    }

    /** The loop over the cache: each document receives its native segments once. */
    method AppendNativeSegments()
      requires Valid() && Settled()
      modifies this`documents
      ensures Completed()
    {
      assert Covered(visited, segmentsApi) by {
        NamespacesOfMembers(visited);
        forall i | 0 <= i < |visited|
          ensures visited[i].namespace in segmentsApi
        {
          assert Mentions(visited, visited[i].namespace);
        }
      }
      AppendedNone(visited, environmentSegments);
      var i := 0;
      while i < |environmentOrder|
        invariant 0 <= i <= |environmentOrder|
        invariant documents == AppendedDocuments(visited, environmentOrder[..i], environmentSegments)
      {
        var e := environmentOrder[i];
        assert environmentOrder[..i + 1] == environmentOrder[..i] + [e];
        AppendedStep(visited, environmentOrder[..i], e, environmentSegments);
        var doc := documents[e];
        documents := documents[e := Document(doc.namespace, doc.flags, doc.segments + environmentSegments[e])];
        i := i + 1;
      }
      assert environmentOrder[..i] == environmentOrder;
      AppendedAll(visited, environmentOrder, segmentsApi);
    }

    /** The documents in the order their environments were first visited. */
    method CollectDocuments() returns (docs: seq<Document>)
      requires forall e :: e in namespaces ==> e in documents
      ensures |docs| == |namespaces|
      ensures forall i :: 0 <= i < |namespaces| ==> docs[i] == documents[namespaces[i]]
    {
      docs := [];
      var i := 0;
      while i < |namespaces|
        invariant 0 <= i <= |namespaces|
        invariant |docs| == i
        invariant forall j :: 0 <= j < i ==> docs[j] == documents[namespaces[j]]
      {
        assert namespaces[i] in namespaces;
        docs := docs + [documents[namespaces[i]]];
        i := i + 1;
      }
    }
  }

  /** `retrieve_flipt_models`, the endpoints given as maps: a key that is absent is a failed fetch. */
  method RetrieveFliptModels(inputs: seq<FlagSummary>, flagApi: map<string, SourceFlag>, segmentsApi: map<string, seq<SourceSegment>>)
    returns (r: Result<seq<Document>, Error>)
    requires FlagApiWellFormed(flagApi) && SegmentsApiWellFormed(segmentsApi)
    ensures r == Translate(inputs, flagApi, segmentsApi)
  {
    var session := new Session(segmentsApi);
    var failure := session.TranslateFlags(inputs, flagApi);
    if failure.Some? {
      return Failure(failure.value);
    }
    session.AppendNativeSegments();
    var docs := session.CollectDocuments();
    OutputFromDocuments(session.visited, segmentsApi, docs);
    r := Success(docs);
  }
}
