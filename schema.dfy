/**
 * The records read from the LaunchDarkly API and the Flipt documents
 * written for each environment.  JSON objects become datatypes; a JSON
 * object whose keys are environment names becomes a sequence in key order.
 */
module Schema {
  import opened Wrappers

  // ----- LaunchDarkly (source) -----

  /** One entry of the `items` list of the flag listing. */
  datatype ListedFlag = ListedFlag(key: string, name: string, otherFields: map<string, string>)

  /** What the flag listing hands on to the translator. */
  datatype FlagSummary = FlagSummary(key: string, name: string)

  datatype Clause = Clause(attribute: string, op: string, values: seq<string>)

  /** `variation` is an index into the flag's variations, Python-style (negative from the end). */
  datatype WeightedVariation = WeightedVariation(variation: int, weight: int)

  /** A targeting rule: `rollout` when present selects a percentage rollout, else `variation`. */
  datatype SourceRule = SourceRule(clauses: seq<Clause>, rollout: Option<seq<WeightedVariation>>, variation: Option<int>)

  datatype Environment = Environment(name: string, rules: seq<SourceRule>)

  datatype Variation = Variation(value: string)

  datatype SourceFlag = SourceFlag(
    key: string,
    name: string,
    description: string,
    variations: seq<Variation>,
    environments: seq<Environment>)

  datatype SegmentRule = SegmentRule(clauses: seq<Clause>)

  datatype SourceSegment = SourceSegment(key: string, rules: seq<SegmentRule>)

  // ----- Flipt (target) -----

  // The fixed names a document carries are enumerations; each is written
  // out as the string its `Name` gives.

  datatype FlagType = VariantFlagType {
    function Name(): string { "VARIANT_FLAG_TYPE" }
  }

  datatype ConstraintType = StringComparisonType {
    function Name(): string { "STRING_COMPARISON_TYPE" }
  }

  datatype MatchType = AllMatchType {
    function Name(): string { "ALL_MATCH_TYPE" }
  }

  datatype Operator = Eq | Prefix | Suffix {
    function Name(): string {
      match this
      case Eq => "eq"
      case Prefix => "prefix"
      case Suffix => "suffix"
    }
  }

  datatype Constraint = Constraint(constraintType: ConstraintType, property: string, operator: Operator, value: string)

  datatype Segment = Segment(key: string, name: string, constraints: seq<Constraint>, matchType: MatchType)

  datatype Variant = Variant(key: string, name: string)

  /** `rollout` is a percentage, kept exact. */
  datatype Distribution = Distribution(variant: string, rollout: real)

  datatype TargetRule = TargetRule(segment: string, distributions: seq<Distribution>)

  datatype TargetFlag = TargetFlag(
    key: string,
    flagType: FlagType,
    name: string,
    description: string,
    enabled: bool,
    variants: seq<Variant>,
    rules: seq<TargetRule>)

  datatype Document = Document(namespace: string, flags: seq<TargetFlag>, segments: seq<Segment>)

  /** The failures that abort a run: a flag or an environment's segments could not be fetched. */
  datatype Error = FlagNotFound(key: string) | SegmentsNotFound(environment: string)

  // ----- Python indexing and the shapes the translator relies on -----

  predicate InRange(i: int, n: nat) {
    -(n as int) <= i < n
  }

  /** `s[i]` in Python: a negative index counts from the end. */
  function PyIndex<T>(s: seq<T>, i: int): T
    requires InRange(i, |s|)
  {
    if i < 0 then s[|s| + i] else s[i]
  }

  predicate ClausesWellFormed(clauses: seq<Clause>) {
    forall i :: 0 <= i < |clauses| ==> |clauses[i].values| > 0
  }

  /** No IndexError or KeyError while translating this rule of a flag with `n` variations. */
  predicate RuleWellFormed(r: SourceRule, n: nat) {
    && ClausesWellFormed(r.clauses)
    && match r.rollout
       case Some(entries) => forall i :: 0 <= i < |entries| ==> InRange(entries[i].variation, n)
       case None => r.variation.Some? && InRange(r.variation.value, n)
  }

  predicate DistinctNames(envs: seq<Environment>) {
    forall i, j :: 0 <= i < j < |envs| ==> envs[i].name != envs[j].name
  }

  predicate FlagWellFormed(f: SourceFlag) {
    && DistinctNames(f.environments)
    && forall i, j :: 0 <= i < |f.environments| && 0 <= j < |f.environments[i].rules| ==>
         RuleWellFormed(f.environments[i].rules[j], |f.variations|)
  }

  predicate SegmentWellFormed(s: SourceSegment) {
    && |s.rules| > 0
    && forall i :: 0 <= i < |s.rules| ==> ClausesWellFormed(s.rules[i].clauses)
  }

  predicate FlagApiWellFormed(flagApi: map<string, SourceFlag>) {
    forall k :: k in flagApi ==> FlagWellFormed(flagApi[k])
  }

  predicate SegmentsApiWellFormed(segmentsApi: map<string, seq<SourceSegment>>) {
    forall e, i :: e in segmentsApi && 0 <= i < |segmentsApi[e]| ==> SegmentWellFormed(segmentsApi[e][i])
  }
}
