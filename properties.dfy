/**
 * What a run of `retrieve_flipt_models` promises, proved about the functions
 * of module Mapping: the counter-derived segment keys, the correspondence
 * between a document's rules and its synthesized segments, the order of
 * documents and of the flags inside them, and the native-segment and
 * distribution tables.
 */
module Properties {
  import opened Wrappers
  import opened Schema
  import opened DecimalText
  import opened Mapping

  // ----- the rules a run visits -----

  /** The rules of `envs`, environment after environment. */
  function EnvironmentRules(envs: seq<Environment>): seq<SourceRule> {
    if envs == [] then [] else EnvironmentRules(envs[..|envs| - 1]) + envs[|envs| - 1].rules
  }

  /** Every rule a run over `flags` visits, in visit order. */
  function VisitedRules(flags: seq<SourceFlag>): seq<SourceRule> {
    if flags == [] then [] else VisitedRules(flags[..|flags| - 1]) + EnvironmentRules(flags[|flags| - 1].environments)
  }

  lemma AppendOneTake<T>(a: seq<T>, x: T)
    ensures (a + [x])[..|a|] == a
  {
  }

  lemma TakeLast<T>(s: seq<T>)
    requires s != []
    ensures s == s[..|s| - 1] + [s[|s| - 1]]
  {
  }

  /** Unfolds the visits of a flag's environments by their last environment. */
  lemma FlagStep(f: SourceFlag, envs: seq<Environment>, k: nat)
    requires EnvironmentsWellFormed(envs, |f.variations|) && envs != []
    ensures EnvironmentsWellFormed(envs[..|envs| - 1], |f.variations|)
    ensures RulesWellFormed(envs[|envs| - 1].rules, |f.variations|)
    ensures
      var done := FlagContributions(f, envs[..|envs| - 1], k);
      var c := EnvironmentContribution(f, envs[|envs| - 1], k + |AllSegments(done)|);
      && FlagContributions(f, envs, k) == done + [c]
      && AllSegments(done + [c]) == AllSegments(done) + c.segments
  {
    var p := envs[..|envs| - 1];
    assert forall i :: 0 <= i < |p| ==> p[i] == envs[i];
    var done := FlagContributions(f, p, k);
    var c := EnvironmentContribution(f, envs[|envs| - 1], k + |AllSegments(done)|);
    AppendOneTake(done, c);
  }

  /** Unfolds the visits of a run by its last flag. */
  lemma RunStep(flags: seq<SourceFlag>)
    requires FlagsWellFormed(flags) && flags != []
    ensures FlagsWellFormed(flags[..|flags| - 1])
    ensures FlagWellFormed(flags[|flags| - 1])
    ensures EnvironmentsWellFormed(flags[|flags| - 1].environments, |flags[|flags| - 1].variations|)
    ensures
      var before := Contributions(flags[..|flags| - 1]);
      var f := flags[|flags| - 1];
      Contributions(flags) == before + FlagContributions(f, f.environments, 1 + |AllSegments(before)|)
  {
    var p := flags[..|flags| - 1];
    var f := flags[|flags| - 1];
    TakeLast(flags);
    ContributionsStep(p, f);
    FlagEnvironmentsWellFormed(f);
  }

  lemma AppendEmpty<T>(s: seq<T>)
    ensures s + [] == s
  {
  }

  /** Every clause of every rule of `rules` has a value. */
  predicate RuleClausesWellFormed(rules: seq<SourceRule>) {
    forall i :: 0 <= i < |rules| ==> ClausesWellFormed(rules[i].clauses)
  }

  /** The segments synthesized for `rules` visited in order, the counter starting at `k`. */
  function SegmentsFrom(rules: seq<SourceRule>, k: nat): (r: seq<Segment>)
    requires RuleClausesWellFormed(rules)
    ensures |r| == |rules|
  {
    seq(|rules|, i requires 0 <= i < |rules| => RuleSegment(rules[i], k + i))
  }

  lemma SegmentsFromAppend(a: seq<SourceRule>, b: seq<SourceRule>, k: nat)
    requires RuleClausesWellFormed(a) && RuleClausesWellFormed(b)
    ensures RuleClausesWellFormed(a + b)
    ensures SegmentsFrom(a + b, k) == SegmentsFrom(a, k) + SegmentsFrom(b, k + |a|)
  {
    var ab := a + b;
    assert forall i :: 0 <= i < |ab| ==> ab[i] == if i < |a| then a[i] else b[i - |a|];
    var l := SegmentsFrom(ab, k);
    var r := SegmentsFrom(a, k) + SegmentsFrom(b, k + |a|);
    forall i | 0 <= i < |l|
      ensures l[i] == r[i]
    {
      if i >= |a| {
        assert k + |a| + (i - |a|) == k + i;
      }
    }
  }

  /** The segments of one environment's visit are those its rules synthesize. */
  lemma RuleSegmentsAtFrom(rules: seq<SourceRule>, n: nat, k: nat)
    requires RulesWellFormed(rules, n)
    ensures RuleClausesWellFormed(rules)
    ensures RuleSegmentsAt(rules, n, k) == SegmentsFrom(rules, k)
  {
    assert forall i :: 0 <= i < |rules| ==> RuleWellFormed(rules[i], n);
  }

  lemma {:induction false} FlagSegments(f: SourceFlag, envs: seq<Environment>, k: nat)
    requires EnvironmentsWellFormed(envs, |f.variations|)
    ensures RuleClausesWellFormed(EnvironmentRules(envs))
    ensures AllSegments(FlagContributions(f, envs, k)) == SegmentsFrom(EnvironmentRules(envs), k)
  {
    if envs != [] {
      var p := envs[..|envs| - 1];
      var last := envs[|envs| - 1];
      FlagStep(f, envs, k);
      FlagSegments(f, p, k);
      var done := FlagContributions(f, p, k);
      RuleSegmentsAtFrom(last.rules, |f.variations|, k + |AllSegments(done)|);
      SegmentsFromAppend(EnvironmentRules(p), last.rules, k);
    }
  }

  /**
   * The segments synthesized by a run are exactly one per visited rule, in
   * visit order, the `i`-th keyed "segment_00" followed by the decimal of
   * `i + 1` and holding that rule's constraints.
   */
  lemma {:induction false} RunSegments(flags: seq<SourceFlag>)
    requires FlagsWellFormed(flags)
    ensures RuleClausesWellFormed(VisitedRules(flags))
    ensures AllSegments(Contributions(flags)) == SegmentsFrom(VisitedRules(flags), 1)
  {
    if flags != [] {
      var p := flags[..|flags| - 1];
      var f := flags[|flags| - 1];
      RunStep(flags);
      RunSegments(p);
      var before := Contributions(p);
      var k := 1 + |AllSegments(before)|;
      FlagSegments(f, f.environments, k);
      AllSegmentsAppend(before, FlagContributions(f, f.environments, k));
      SegmentsFromAppend(VisitedRules(p), EnvironmentRules(f.environments), 1);
    }
  }

  lemma SegmentKeyInjective(m: nat, n: nat)
    ensures SegmentKey(m) == SegmentKey(n) ==> m == n
  {
    if SegmentKey(m) == SegmentKey(n) {
      var prefix := "segment_00";
      assert SegmentKey(m)[|prefix|..] == Decimal(m);
      assert SegmentKey(n)[|prefix|..] == Decimal(n);
      DecimalInjective(m, n);
    }
  }

  /** No two segments synthesized in one run share a key. */
  lemma RunSegmentKeysDistinct(flags: seq<SourceFlag>)
    requires FlagsWellFormed(flags)
    ensures forall i, j :: 0 <= i < j < |AllSegments(Contributions(flags))| ==>
      AllSegments(Contributions(flags))[i].key != AllSegments(Contributions(flags))[j].key
  {
    RunSegments(flags);
    var segments := AllSegments(Contributions(flags));
    forall i, j | 0 <= i < j < |segments|
      ensures segments[i].key != segments[j].key
    {
      assert segments[i].key == SegmentKey(i + 1) && segments[j].key == SegmentKey(j + 1);
      SegmentKeyInjective(i + 1, j + 1);
    }
  }

  // ----- rule references and synthesized segments -----

  function RuleRefs(rules: seq<TargetRule>): seq<string> {
    seq(|rules|, i requires 0 <= i < |rules| => rules[i].segment)
  }

  /** The segment keys the rules of `flags` refer to, flag after flag. */
  function FlagRuleRefs(flags: seq<TargetFlag>): seq<string> {
    if flags == [] then [] else FlagRuleRefs(flags[..|flags| - 1]) + RuleRefs(flags[|flags| - 1].rules)
  }

  function SegmentKeys(segments: seq<Segment>): seq<string> {
    seq(|segments|, i requires 0 <= i < |segments| => segments[i].key)
  }

  /** The rules of a visit refer to its synthesized segments, one to one and in order. */
  predicate Consistent(c: Contribution) {
    RuleRefs(c.flag.rules) == SegmentKeys(c.segments)
  }

  lemma EnvironmentContributionConsistent(f: SourceFlag, env: Environment, k: nat)
    requires RulesWellFormed(env.rules, |f.variations|)
    ensures Consistent(EnvironmentContribution(f, env, k))
  {
    var c := EnvironmentContribution(f, env, k);
    assert |RuleRefs(c.flag.rules)| == |SegmentKeys(c.segments)|;
    forall i | 0 <= i < |c.segments|
      ensures RuleRefs(c.flag.rules)[i] == SegmentKeys(c.segments)[i]
    {
      assert RuleRefs(c.flag.rules)[i] == SegmentKey(k + i);
    }
  }

  lemma {:induction false} FlagContributionsConsistent(f: SourceFlag, envs: seq<Environment>, k: nat)
    requires EnvironmentsWellFormed(envs, |f.variations|)
    ensures forall i :: 0 <= i < |envs| ==> Consistent(FlagContributions(f, envs, k)[i])
  {
    if envs != [] {
      var p := envs[..|envs| - 1];
      FlagStep(f, envs, k);
      FlagContributionsConsistent(f, p, k);
      EnvironmentContributionConsistent(f, envs[|envs| - 1], k + |AllSegments(FlagContributions(f, p, k))|);
    }
  }

  lemma {:induction false} RunConsistent(flags: seq<SourceFlag>)
    requires FlagsWellFormed(flags)
    ensures forall i :: 0 <= i < |Contributions(flags)| ==> Consistent(Contributions(flags)[i])
  {
    if flags != [] {
      var p := flags[..|flags| - 1];
      var f := flags[|flags| - 1];
      TakeLast(flags);
      ContributionsStep(p, f);
      RunConsistent(p);
      var before := Contributions(p);
      var visits := FlagVisits(f, 1 + |AllSegments(before)|);
      FlagVisitsOf(f, 1 + |AllSegments(before)|);
      ConsistentStep(before, visits, f);
      assert Contributions(flags) == before + visits;
    }
  }

  lemma SegmentKeysAppend(a: seq<Segment>, b: seq<Segment>)
    ensures SegmentKeys(a + b) == SegmentKeys(a) + SegmentKeys(b)
  {
  }

  /**
   * In the document of `e`, the rules of its flags refer, in order, to
   * exactly its rule-derived segments: as many segments as rules, each
   * rule naming its own.
   */
  lemma {:induction false} DocumentRefs(cs: seq<Contribution>, e: string)
    requires forall i :: 0 <= i < |cs| ==> Consistent(cs[i])
    ensures FlagRuleRefs(DocumentFlags(cs, e)) == SegmentKeys(DocumentSegments(cs, e))
  {
    if cs != [] {
      var p := cs[..|cs| - 1];
      var last := cs[|cs| - 1];
      assert forall i :: 0 <= i < |p| ==> p[i] == cs[i];
      DocumentRefs(p, e);
      if last.namespace == e {
        var flags := DocumentFlags(p, e);
        AppendOneTake(flags, last.flag);
        assert FlagRuleRefs(flags + [last.flag]) == FlagRuleRefs(flags) + RuleRefs(last.flag.rules);
        SegmentKeysAppend(DocumentSegments(p, e), last.segments);
        assert DocumentSegments(p, e) + [] == DocumentSegments(p, e);
      } else {
        assert DocumentFlags(p, e) + [] == DocumentFlags(p, e);
        assert DocumentSegments(p, e) + [] == DocumentSegments(p, e);
      }
    }
  }

  // ----- the flags of a document -----

  /** `f` has an environment named `e`. */
  predicate HasEnvironment(f: SourceFlag, e: string) {
    exists j :: 0 <= j < |f.environments| && f.environments[j].name == e
  }

  /** The input flags having an environment named `e`, in input order. */
  function FlagsIn(flags: seq<SourceFlag>, e: string): seq<SourceFlag> {
    if flags == [] then []
    else FlagsIn(flags[..|flags| - 1], e) + (if HasEnvironment(flags[|flags| - 1], e) then [flags[|flags| - 1]] else [])
  }

  /**
   * `t` is the translation of `f` for its environment `env`: the fields
   * copied from the flag, every variation a variant, one rule per source
   * rule carrying that rule's distributions.
   */
  predicate TranslatesAt(t: TargetFlag, f: SourceFlag, env: Environment) {
    && t.key == f.key
    && t.flagType == VariantFlagType
    && t.name == f.name
    && t.description == f.description
    && t.enabled
    && t.variants == Variants(f.variations)
    && |t.rules| == |env.rules|
    && forall r :: 0 <= r < |t.rules| ==>
         RuleWellFormed(env.rules[r], |t.variants|) && t.rules[r].distributions == Distributions(env.rules[r], t.variants)
  }

  predicate Translates(t: TargetFlag, f: SourceFlag, e: string) {
    exists j :: 0 <= j < |f.environments| && f.environments[j].name == e && TranslatesAt(t, f, f.environments[j])
  }

  lemma EnvironmentContributionTranslates(f: SourceFlag, env: Environment, k: nat)
    requires RulesWellFormed(env.rules, |f.variations|)
    ensures TranslatesAt(EnvironmentContribution(f, env, k).flag, f, env)
  {
    var t := EnvironmentContribution(f, env, k).flag;
    forall r | 0 <= r < |t.rules|
      ensures RuleWellFormed(env.rules[r], |t.variants|)
    {
      assert env.rules[r] in env.rules;
    }
  }

  lemma {:induction false} FlagContributionsTranslate(f: SourceFlag, envs: seq<Environment>, k: nat)
    requires EnvironmentsWellFormed(envs, |f.variations|)
    ensures forall j :: 0 <= j < |envs| ==> TranslatesAt(FlagContributions(f, envs, k)[j].flag, f, envs[j])
  {
    if envs != [] {
      var p := envs[..|envs| - 1];
      FlagStep(f, envs, k);
      FlagContributionsTranslate(f, p, k);
      EnvironmentContributionTranslates(f, envs[|envs| - 1], k + |AllSegments(FlagContributions(f, p, k))|);
    }
  }

  lemma DocumentFlagsAppend(a: seq<Contribution>, b: seq<Contribution>, e: string)
    ensures DocumentFlags(a + b, e) == DocumentFlags(a, e) + DocumentFlags(b, e)
    decreases |b|
  {
    if b == [] {
      assert a + b == a;
    } else {
      var b' := b[..|b| - 1];
      assert (a + b)[..|a + b| - 1] == a + b';
      DocumentFlagsAppend(a, b', e);
    }
  }

  /** A document receives no flag from visits none of which is to it. */
  lemma {:induction false} DocumentFlagsAbsent(cs: seq<Contribution>, e: string)
    requires forall i :: 0 <= i < |cs| ==> cs[i].namespace != e
    ensures DocumentFlags(cs, e) == []
  {
    if cs != [] {
      DocumentFlagsAbsent(cs[..|cs| - 1], e);
    }
  }

  /** A document receives exactly the flag of the one visit to it. */
  lemma {:induction false} DocumentFlagsSingle(cs: seq<Contribution>, j: nat)
    requires j < |cs|
    requires forall i :: 0 <= i < |cs| && i != j ==> cs[i].namespace != cs[j].namespace
    ensures DocumentFlags(cs, cs[j].namespace) == [cs[j].flag]
  {
    var n := |cs| - 1;
    var p := cs[..n];
    if j == n {
      DocumentFlagsAbsent(p, cs[j].namespace);
    } else {
      DocumentFlagsSingle(p, j);
    }
  }

  /** `ts` translates `fs` flag by flag for environment `e`. */
  predicate TranslatesAll(ts: seq<TargetFlag>, fs: seq<SourceFlag>, e: string) {
    && |ts| == |fs|
    && (ts == [] || (TranslatesAll(ts[..|ts| - 1], fs[..|fs| - 1], e) && Translates(ts[|ts| - 1], fs[|fs| - 1], e)))
  }

  lemma TranslatesAllSnoc(ts: seq<TargetFlag>, fs: seq<SourceFlag>, t: TargetFlag, f: SourceFlag, e: string)
    requires TranslatesAll(ts, fs, e) && Translates(t, f, e)
    ensures TranslatesAll(ts + [t], fs + [f], e)
  {
    AppendOneTake(ts, t);
    AppendOneTake(fs, f);
  }

  lemma {:induction false} TranslatesAllIndex(ts: seq<TargetFlag>, fs: seq<SourceFlag>, e: string)
    requires TranslatesAll(ts, fs, e)
    ensures |ts| == |fs| && forall i :: 0 <= i < |ts| ==> Translates(ts[i], fs[i], e)
  {
    if ts != [] {
      TranslatesAllIndex(ts[..|ts| - 1], fs[..|fs| - 1], e);
    }
  }

  /** The flags of the document of `e` translate, one by one, the input flags having an environment `e`. */
  lemma {:induction false} DocumentFlagsOfRun(flags: seq<SourceFlag>, e: string)
    requires FlagsWellFormed(flags)
    ensures TranslatesAll(DocumentFlags(Contributions(flags), e), FlagsIn(flags, e), e)
  {
    if flags != [] {
      var p := flags[..|flags| - 1];
      var f := flags[|flags| - 1];
      RunStep(flags);
      DocumentFlagsOfRun(p, e);
      var before := Contributions(p);
      var k := 1 + |AllSegments(before)|;
      FlagVisitsOf(f, k);
      DocumentFlagsStep(before, FlagVisits(f, k), FlagsIn(p, e), f, e);
    }
  }

  /**
   * The document of `e` holds one flag per input flag having an environment
   * `e`, in input order, each the translation of that flag for `e`.
   */
  lemma DocumentFlagsTranslate(flags: seq<SourceFlag>, e: string)
    requires FlagsWellFormed(flags)
    ensures |DocumentFlags(Contributions(flags), e)| == |FlagsIn(flags, e)|
    ensures forall i :: 0 <= i < |FlagsIn(flags, e)| ==> Translates(DocumentFlags(Contributions(flags), e)[i], FlagsIn(flags, e)[i], e)
  {
    DocumentFlagsOfRun(flags, e);
    TranslatesAllIndex(DocumentFlags(Contributions(flags), e), FlagsIn(flags, e), e);
  }

  // ----- the visits of one flag -----

  /**
   * `visits` are one per environment of `f`, in order: each to that
   * environment's document, translating `f` there, its rules referring to
   * its own segments.
   */
  predicate VisitsOf(visits: seq<Contribution>, f: SourceFlag) {
    && |visits| == |f.environments|
    && forall i :: 0 <= i < |visits| ==>
         && visits[i].namespace == f.environments[i].name
         && TranslatesAt(visits[i].flag, f, f.environments[i])
         && Consistent(visits[i])
  }

  lemma FlagVisitsOf(f: SourceFlag, k: nat)
    requires FlagWellFormed(f)
    ensures VisitsOf(FlagVisits(f, k), f)
  {
    FlagEnvironmentsWellFormed(f);
    FlagContributionsNamespaces(f, f.environments, k);
    FlagContributionsTranslate(f, f.environments, k);
    FlagContributionsConsistent(f, f.environments, k);
  }

  lemma ConsistentStep(before: seq<Contribution>, visits: seq<Contribution>, f: SourceFlag)
    requires forall i :: 0 <= i < |before| ==> Consistent(before[i])
    requires VisitsOf(visits, f)
    ensures forall i :: 0 <= i < |before + visits| ==> Consistent((before + visits)[i])
  {
    forall i | 0 <= i < |before + visits|
      ensures Consistent((before + visits)[i])
    {
      if i >= |before| {
        assert (before + visits)[i] == visits[i - |before|];
      }
    }
  }

  lemma MentionsStep(before: seq<Contribution>, visits: seq<Contribution>, f: SourceFlag, e: string)
    requires VisitsOf(visits, f)
    ensures Mentions(before + visits, e) <==> Mentions(before, e) || HasEnvironment(f, e)
  {
    MentionsAppend(before, visits, e);
    if HasEnvironment(f, e) {
      var j :| 0 <= j < |f.environments| && f.environments[j].name == e;
      assert visits[j].namespace == e;
    }
    if Mentions(visits, e) {
      var j :| 0 <= j < |visits| && visits[j].namespace == e;
      assert f.environments[j].name == e;
    }
  }

  lemma DocumentFlagsStep(before: seq<Contribution>, visits: seq<Contribution>, fs: seq<SourceFlag>, f: SourceFlag, e: string)
    requires TranslatesAll(DocumentFlags(before, e), fs, e)
    requires VisitsOf(visits, f) && DistinctNames(f.environments)
    ensures TranslatesAll(DocumentFlags(before + visits, e), fs + (if HasEnvironment(f, e) then [f] else []), e)
  {
    DocumentFlagsAppend(before, visits, e);
    if HasEnvironment(f, e) {
      var j :| 0 <= j < |f.environments| && f.environments[j].name == e;
      DocumentFlagsSingle(visits, j);
      assert Translates(visits[j].flag, f, e);
      TranslatesAllSnoc(DocumentFlags(before, e), fs, visits[j].flag, f, e);
    } else {
      DocumentFlagsAbsent(visits, e);
      AppendEmpty(DocumentFlags(before, e));
      AppendEmpty(fs);
    }
  }

  // ----- the documents and their order -----

  lemma MentionsAppend(a: seq<Contribution>, b: seq<Contribution>, e: string)
    ensures Mentions(a + b, e) <==> Mentions(a, e) || Mentions(b, e)
  {
    if Mentions(a + b, e) {
      var i :| 0 <= i < |a + b| && (a + b)[i].namespace == e;
      if i >= |a| {
        assert b[i - |a|].namespace == e;
      }
    }
    if Mentions(b, e) {
      var i :| 0 <= i < |b| && b[i].namespace == e;
      assert (a + b)[|a| + i] == b[i];
    }
    if Mentions(a, e) {
      var i :| 0 <= i < |a| && a[i].namespace == e;
      assert (a + b)[i] == a[i];
    }
  }

  lemma {:induction false} RunMentions(flags: seq<SourceFlag>, e: string)
    requires FlagsWellFormed(flags)
    ensures Mentions(Contributions(flags), e) <==> FlagsIn(flags, e) != []
  {
    if flags != [] {
      var p := flags[..|flags| - 1];
      var f := flags[|flags| - 1];
      TakeLast(flags);
      ContributionsStep(p, f);
      RunMentions(p, e);
      var before := Contributions(p);
      var visits := FlagVisits(f, 1 + |AllSegments(before)|);
      FlagVisitsOf(f, 1 + |AllSegments(before)|);
      MentionsStep(before, visits, f, e);
      assert Contributions(flags) == before + visits;
    }
  }

  lemma {:induction false} FlagsInNonEmpty(flags: seq<SourceFlag>, e: string)
    ensures FlagsIn(flags, e) != [] <==> exists i :: 0 <= i < |flags| && HasEnvironment(flags[i], e)
  {
    if flags != [] {
      var p := flags[..|flags| - 1];
      var f := flags[|flags| - 1];
      FlagsInNonEmpty(p, e);
      if FlagsIn(p, e) != [] {
        var i :| 0 <= i < |p| && HasEnvironment(p[i], e);
        assert p[i] == flags[i];
      } else if !HasEnvironment(f, e) {
        forall i | 0 <= i < |flags|
          ensures !HasEnvironment(flags[i], e)
        {
          if i < |p| {
            assert p[i] == flags[i];
          }
        }
      }
    }
  }

  /**
   * There is one namespace per environment some input flag has, each listed
   * once.
   */
  lemma RunNamespaces(flags: seq<SourceFlag>)
    requires FlagsWellFormed(flags)
    ensures forall e :: e in NamespacesOf(Contributions(flags)) <==> exists i :: 0 <= i < |flags| && HasEnvironment(flags[i], e)
    ensures forall i, j :: 0 <= i < j < |NamespacesOf(Contributions(flags))| ==>
      NamespacesOf(Contributions(flags))[i] != NamespacesOf(Contributions(flags))[j]
  {
    var cs := Contributions(flags);
    NamespacesOfMembers(cs);
    NamespacesOfDistinct(cs);
    forall e
      ensures e in NamespacesOf(cs) <==> exists i :: 0 <= i < |flags| && HasEnvironment(flags[i], e)
    {
      RunMentions(flags, e);
      FlagsInNonEmpty(flags, e);
    }
  }

  /**
   * Namespaces are listed in order of first visit: every visit of a later
   * namespace comes after some visit of each earlier one.
   */
  lemma {:induction false} NamespacesInVisitOrder(cs: seq<Contribution>)
    ensures forall a, b, q :: 0 <= a < b < |NamespacesOf(cs)| && 0 <= q < |cs| && cs[q].namespace == NamespacesOf(cs)[b] ==>
      Mentions(cs[..q], NamespacesOf(cs)[a])
  {
    if cs != [] {
      var p := cs[..|cs| - 1];
      var c := cs[|cs| - 1];
      NamespacesInVisitOrder(p);
      NamespacesOfStep(p, c);
      assert cs == p + [c];
      NamespacesOfMembers(p);
      var ns := NamespacesOf(cs);
      forall a, b, q | 0 <= a < b < |ns| && 0 <= q < |cs| && cs[q].namespace == ns[b]
        ensures Mentions(cs[..q], ns[a])
      {
        assert ns[a] == NamespacesOf(p)[a];
        if q == |p| {
          assert cs[..q] == p;
          assert ns[a] in NamespacesOf(p);
        } else {
          assert cs[q] == p[q];
          assert cs[..q] == p[..q];
        }
      }
    }
  }

  /**
   * A run that does not abort returns one document per namespace, in
   * namespace order; each holds the run's flags for that environment and
   * its rule-derived segments followed by that environment's native
   * segments, the rules referring exactly to the rule-derived segments.
   */
  lemma TranslatedDocuments(inputs: seq<FlagSummary>, flagApi: map<string, SourceFlag>, segmentsApi: map<string, seq<SourceSegment>>)
    requires FlagApiWellFormed(flagApi) && SegmentsApiWellFormed(segmentsApi)
    requires Fetchable(inputs, flagApi, segmentsApi)
    ensures FlagsWellFormed(Fetched(inputs, flagApi))
    ensures
      var flags := Fetched(inputs, flagApi);
      var cs := Contributions(flags);
      var ns := NamespacesOf(cs);
      && Translate(inputs, flagApi, segmentsApi).Success?
      && |Translate(inputs, flagApi, segmentsApi).value| == |ns|
      && forall i :: 0 <= i < |ns| ==>
           var d := Translate(inputs, flagApi, segmentsApi).value[i];
           && ns[i] in segmentsApi
           && d.namespace == ns[i]
           && d.flags == DocumentFlags(cs, ns[i])
           && d.segments == DocumentSegments(cs, ns[i]) + NativeSegments(segmentsApi[ns[i]])
           && FlagRuleRefs(d.flags) == SegmentKeys(DocumentSegments(cs, ns[i]))
  {
    var flags := Fetched(inputs, flagApi);
    FetchedWellFormed(inputs, flagApi);
    var cs := Contributions(flags);
    ContributionsCovered(flags, segmentsApi);
    RunConsistent(flags);
    NamespacesOfMembers(cs);
    var ns := NamespacesOf(cs);
    var docs := Output(cs, segmentsApi);
    assert Translate(inputs, flagApi, segmentsApi) == Success(docs);
    forall i | 0 <= i < |ns|
      ensures ns[i] in segmentsApi
      ensures FlagRuleRefs(docs[i].flags) == SegmentKeys(DocumentSegments(cs, ns[i]))
    {
      assert Mentions(cs, ns[i]);
      DocumentRefs(cs, ns[i]);
    }
  }

  /** A run aborts exactly when some fetch fails, with the first failure in processing order. */
  lemma TranslateFails(inputs: seq<FlagSummary>, flagApi: map<string, SourceFlag>, segmentsApi: map<string, seq<SourceSegment>>)
    requires FlagApiWellFormed(flagApi) && SegmentsApiWellFormed(segmentsApi)
    ensures Translate(inputs, flagApi, segmentsApi).Failure? <==> !Fetchable(inputs, flagApi, segmentsApi)
    ensures Translate(inputs, flagApi, segmentsApi).Failure? ==>
      Translate(inputs, flagApi, segmentsApi).error == FirstFailure(inputs, flagApi, segmentsApi).value
  {
  }

  /** The failure a run reports is that of the first listed flag that fails, all before it being fetchable. */
  lemma {:induction false} FirstFailureIsFirst(inputs: seq<FlagSummary>, flagApi: map<string, SourceFlag>, segmentsApi: map<string, seq<SourceSegment>>)
    requires FirstFailure(inputs, flagApi, segmentsApi).Some?
    ensures exists i ::
      && 0 <= i < |inputs|
      && Fetchable(inputs[..i], flagApi, segmentsApi)
      && FirstFailure(inputs, flagApi, segmentsApi) == FlagFailure(inputs[i], flagApi, segmentsApi)
    decreases |inputs|
  {
    var n := |inputs| - 1;
    var p := inputs[..n];
    if FirstFailure(p, flagApi, segmentsApi).Some? {
      FirstFailureIsFirst(p, flagApi, segmentsApi);
      var i :| 0 <= i < |p| && Fetchable(p[..i], flagApi, segmentsApi) &&
        FirstFailure(p, flagApi, segmentsApi) == FlagFailure(p[i], flagApi, segmentsApi);
      assert p[..i] == inputs[..i] && p[i] == inputs[i];
    } else {
      assert Fetchable(inputs[..n], flagApi, segmentsApi);
    }
  }

  // ----- native segments -----

  /** The operator table: two operators are renamed, every other one becomes "eq". */
  lemma NativeOperatorTable(op: string)
    ensures NativeOperator("endsWith") == Suffix
    ensures NativeOperator("startsWith") == Prefix
    ensures op != "endsWith" && op != "startsWith" ==> NativeOperator(op) == Eq
  {
  }

  /** Only the key and the last rule of a source segment decide its translation. */
  lemma LastRuleWins(s: SourceSegment, t: SourceSegment)
    requires SegmentWellFormed(s) && SegmentWellFormed(t)
    requires s.key == t.key && s.rules[|s.rules| - 1] == t.rules[|t.rules| - 1]
    ensures NativeSegment(s) == NativeSegment(t)
  {
  }

  // ----- distributions -----

  function TotalWeight(entries: seq<WeightedVariation>): int {
    if entries == [] then 0 else TotalWeight(entries[..|entries| - 1]) + entries[|entries| - 1].weight
  }

  function TotalRollout(ds: seq<Distribution>): real {
    if ds == [] then 0.0 else TotalRollout(ds[..|ds| - 1]) + ds[|ds| - 1].rollout
  }

  lemma {:induction false} RolloutPrefix(r: SourceRule, variants: seq<Variant>, n: nat)
    requires RuleWellFormed(r, |variants|) && r.rollout.Some? && n <= |r.rollout.value|
    ensures TotalRollout(Distributions(r, variants)[..n]) == TotalWeight(r.rollout.value[..n]) as real / 1000.0
  {
    if n > 0 {
      var ds := Distributions(r, variants);
      var entries := r.rollout.value;
      RolloutPrefix(r, variants, n - 1);
      assert ds[..n][..n - 1] == ds[..n - 1];
      assert entries[..n][..n - 1] == entries[..n - 1];
    }
  }

  /** The rollouts of a percentage rule add up to its total weight over 1000. */
  lemma RolloutTotal(r: SourceRule, variants: seq<Variant>)
    requires RuleWellFormed(r, |variants|) && r.rollout.Some?
    ensures TotalRollout(Distributions(r, variants)) == TotalWeight(r.rollout.value) as real / 1000.0
  {
    RolloutPrefix(r, variants, |r.rollout.value|);
    assert Distributions(r, variants)[..|r.rollout.value|] == Distributions(r, variants);
    assert r.rollout.value[..|r.rollout.value|] == r.rollout.value;
  }

  /** Weights in thousandths of a percent that add up to 100000 give rollouts adding up to 100. */
  lemma FullRollout(r: SourceRule, variants: seq<Variant>)
    requires RuleWellFormed(r, |variants|) && r.rollout.Some? && TotalWeight(r.rollout.value) == 100000
    ensures TotalRollout(Distributions(r, variants)) == 100.0
  {
    RolloutTotal(r, variants);
  }

  /** A rule without a rollout sends everything to one variant. */
  lemma SingleVariant(r: SourceRule, variants: seq<Variant>)
    requires RuleWellFormed(r, |variants|) && r.rollout.None?
    ensures |Distributions(r, variants)| == 1 && TotalRollout(Distributions(r, variants)) == 100.0
  {
    assert Distributions(r, variants)[..0] == [];
  }
}
