/** Two scopes that differ only in what they waive: their runs differ in nothing but waived markers. */
module WaiverTheorems {
  import opened Wrappers
  import opened Oscal
  import opened ComponentDefinitions
  import opened ScopeRules
  import opened RuleEngine
  import opened ScopeTheorems
  import opened ScopeLaws

  ghost predicate SameButWaivers(e: ControlEntry, f: ControlEntry) {
    f == e.(waiveRules := f.waiveRules)
  }

  ghost predicate AlikeEntries(es: seq<ControlEntry>, fs: seq<ControlEntry>) {
    |es| == |fs| && forall i :: 0 <= i < |es| ==> SameButWaivers(es[i], fs[i])
  }

  // Any waive lists, global and of each entry; everything else a run reads is the same.
  ghost predicate DifferInWaivers(s: AssessmentScope, t: AssessmentScope) {
    s.globalExcludeRules == t.globalExcludeRules && AlikeEntries(s.includeControls, t.includeControls)
  }

  // ----- What the scopes agree on -----

  lemma {:induction false} EntriesAlike(es: seq<ControlEntry>, fs: seq<ControlEntry>, c: string)
    requires AlikeEntries(es, fs)
    ensures EntryOf(es, c).Some? <==> EntryOf(fs, c).Some?
    ensures EntryOf(es, c).Some? ==> SameButWaivers(EntryOf(es, c).value, EntryOf(fs, c).value)
    ensures ParametersOf(es, c) == ParametersOf(fs, c)
  {
    if es != [] {
      EntriesAlike(es[..|es| - 1], fs[..|fs| - 1], c);
    }
  }

  lemma StaysAlike(s: AssessmentScope, t: AssessmentScope, rule: string, c: string)
    requires DifferInWaivers(s, t)
    ensures Stays(s, rule, c) <==> Stays(t, rule, c)
    ensures InScope(s, c) <==> InScope(t, c)
    ensures forall name :: SelectedValue(s, c, name) == SelectedValue(t, c, name)
  {
    EntriesAlike(s.includeControls, t.includeControls, c);
    EntryInScope(s.includeControls, c);
    EntryInScope(t.includeControls, c);
  }

  lemma ScopeControlsAlike(s: AssessmentScope, t: AssessmentScope)
    requires DifferInWaivers(s, t)
    ensures ScopeControls(s) == ScopeControls(t)
  {
    forall c
      ensures InScope(s, c) <==> InScope(t, c)
    {
      StaysAlike(s, t, "", c);
    }
  }

  lemma ValidAlike(s: AssessmentScope, t: AssessmentScope, groups: RemarksGroups)
    requires DifferInWaivers(s, t)
    ensures ParametersValid(s, groups) <==> ParametersValid(t, groups)
  {
    forall c, name
      ensures SelectedValue(s, c, name) == SelectedValue(t, c, name)
    {
      StaysAlike(s, t, "", c);
    }
  }

  lemma {:induction false} ValueAlike(s: AssessmentScope, t: AssessmentScope, ids: seq<string>, name: string)
    requires DifferInWaivers(s, t)
    ensures ValueFor(s, ids, name) == ValueFor(t, ids, name)
  {
    if ids != [] {
      StaysAlike(s, t, "", ids[0]);
      ValueAlike(s, t, ids[1..], name);
    }
  }

  lemma UpdatesAlike(s: AssessmentScope, t: AssessmentScope, ids: seq<string>, props: seq<Property>)
    requires DifferInWaivers(s, t)
    ensures UpdateProps(s, ids, props) == UpdateProps(t, ids, props)
  {
    forall j | 0 <= j < |props|
      ensures UpdateProp(s, ids, props[j]) == UpdateProp(t, ids, props[j])
    {
      ValueAlike(s, t, ids, props[j].name);
    }
  }

  // ----- What the rule pass keeps -----

  lemma {:induction false} KeptAlike(s: AssessmentScope, t: AssessmentScope, rule: string, ids: seq<string>)
    requires DifferInWaivers(s, t)
    ensures Kept(s, rule, ids) == Kept(t, rule, ids)
  {
    if ids != [] {
      KeptAlike(s, t, rule, ids[..|ids| - 1]);
      StaysAlike(s, t, rule, ids[|ids| - 1]);
    }
  }

  lemma RuleAlike(s: AssessmentScope, t: AssessmentScope, rule: string, sels: seq<Selection>)
    requires DifferInWaivers(s, t)
    ensures ApplyRuleAll(s, rule, sels) == ApplyRuleAll(t, rule, sels)
  {
    forall j | 0 <= j < |sels|
      ensures ApplyRule(s, rule, sels[j]) == ApplyRule(t, rule, sels[j])
    {
      KeptAlike(s, t, rule, sels[j].includeControls.GetOr([]));
    }
  }

  lemma StepsAlike(s: AssessmentScope, t: AssessmentScope, rule: string, steps: seq<StepValue>)
    requires DifferInWaivers(s, t)
    ensures AnyStepEmptied(s, rule, steps) <==> AnyStepEmptied(t, rule, steps)
    ensures forall k :: 0 <= k < |steps| ==>
              RulePassStep(s, rule, steps[k]).reviewedControls == RulePassStep(t, rule, steps[k]).reviewedControls
  {
    forall k | 0 <= k < |steps|
      ensures StepEmptied(s, rule, steps[k]) <==> StepEmptied(t, rule, steps[k])
      ensures RulePassStep(s, rule, steps[k]).reviewedControls == RulePassStep(t, rule, steps[k]).reviewedControls
    {
      if steps[k].reviewedControls.Some? {
        RuleAlike(s, t, rule, steps[k].reviewedControls.value);
      }
    }
  }

  // ----- Properties other than waived markers -----

  ghost function Unwaived(props: seq<Property>): seq<Property> {
    if props == [] then [] else
      var last := props[|props| - 1];
      Unwaived(props[..|props| - 1]) + (if last == WAIVED then [] else [last])
  }

  lemma {:induction false} UnwaivedConcat(p: seq<Property>, q: seq<Property>)
    ensures Unwaived(p + q) == Unwaived(p) + Unwaived(q)
  {
    if q == [] {
      assert p + q == p;
    } else {
      var init, last := q[..|q| - 1], q[|q| - 1];
      UnwaivedConcat(p, init);
      assert (p + q)[..|p + q| - 1] == p + init;
    }
  }

  lemma UnwaivedMark(props: Option<seq<Property>>, markers: seq<Property>)
    ensures Unwaived(Mark(props, markers).GetOr([])) == Unwaived(props.GetOr([])) + Unwaived(markers)
  {
    if markers != [] {
      UnwaivedConcat(props.GetOr([]), markers);
    }
  }

  lemma {:induction false} MarkersAlike(s: AssessmentScope, t: AssessmentScope, rule: string, sels: seq<Selection>)
    ensures Unwaived(RuleMarkers(s, rule, sels)) == Unwaived(RuleMarkers(t, rule, sels))
  {
    if sels != [] {
      var init, last := sels[..|sels| - 1], sels[|sels| - 1];
      MarkersAlike(s, t, rule, init);
      UnwaivedConcat(RuleMarkers(s, rule, init), RuleMarker(s, rule, last));
      UnwaivedConcat(RuleMarkers(t, rule, init), RuleMarker(t, rule, last));
      OneMarkerAlike(s, t, rule, last);
    }
  }

  lemma OneMarkerAlike(s: AssessmentScope, t: AssessmentScope, rule: string, sel: Selection)
    ensures Unwaived(RuleMarker(s, rule, sel)) == Unwaived(RuleMarker(t, rule, sel))
  {
    assert Unwaived([WAIVED]) == [] && Unwaived([]) == [];
  }

  // ----- One activity -----

  ghost predicate AlikeSteps(a: StepValue, b: StepValue) {
    a.reviewedControls == b.reviewedControls && Unwaived(a.props.GetOr([])) == Unwaived(b.props.GetOr([]))
  }

  ghost predicate AlikeActivities(a: ActivityValue, b: ActivityValue) {
    && a.title == b.title && a.relatedControls == b.relatedControls
    && |a.steps| == |b.steps|
    && (forall k :: 0 <= k < |a.steps| ==> AlikeSteps(a.steps[k], b.steps[k]))
    && Unwaived(a.props.GetOr([])) == Unwaived(b.props.GetOr([]))
  }

  lemma StepAlike(s: AssessmentScope, t: AssessmentScope, rule: string, step: StepValue)
    requires DifferInWaivers(s, t)
    ensures AlikeSteps(RulePassStep(s, rule, step), RulePassStep(t, rule, step))
  {
    if step.reviewedControls.Some? {
      RuleAlike(s, t, rule, step.reviewedControls.value);
      var after := ApplyRuleAll(s, rule, step.reviewedControls.value);
      MarkersAlike(s, t, rule, after);
      UnwaivedMark(step.props, RuleMarkers(s, rule, after));
      UnwaivedMark(step.props, RuleMarkers(t, rule, after));
    }
  }

  lemma RelatedAlike(s: AssessmentScope, t: AssessmentScope, a: ActivityValue)
    requires DifferInWaivers(s, t)
    ensures RulePassRelated(s, a).relatedControls == RulePassRelated(t, a).relatedControls
    ensures Unwaived(RulePassRelated(s, a).props.GetOr([])) == Unwaived(RulePassRelated(t, a).props.GetOr([]))
  {
    if a.relatedControls.Some? {
      RuleAlike(s, t, a.title, a.relatedControls.value);
      var after := ApplyRuleAll(s, a.title, a.relatedControls.value);
      MarkersAlike(s, t, a.title, after);
      UnwaivedMark(a.props, RuleMarkers(s, a.title, after));
      UnwaivedMark(a.props, RuleMarkers(t, a.title, after));
    }
  }

  lemma PassesAlike(s: AssessmentScope, t: AssessmentScope, a: ActivityValue)
    requires DifferInWaivers(s, t)
    ensures TwoPasses(s, a).Some? <==> TwoPasses(t, a).Some?
    ensures TwoPasses(s, a).Some? ==> AlikeActivities(TwoPasses(s, a).value, TwoPasses(t, a).value)
  {
    ScopeControlsAlike(s, t);
    var own := ControlPassActivity(a, ScopeControls(s));
    if own.title != "" {
      RelatedAlike(s, t, own);
      StepsAlike(s, t, own.title, own.steps);
      forall k | 0 <= k < |own.steps|
        ensures AlikeSteps(RulePassStep(s, own.title, own.steps[k]), RulePassStep(t, own.title, own.steps[k]))
      {
        StepAlike(s, t, own.title, own.steps[k]);
      }
    }
  }

  lemma {:induction false} UpdatesAndWaivers(scope: AssessmentScope, ids: seq<string>, props: seq<Property>)
    ensures Unwaived(UpdateProps(scope, ids, props)) == UpdateProps(scope, ids, Unwaived(props))
  {
    if props != [] {
      var init, last := props[..|props| - 1], props[|props| - 1];
      UpdatesAndWaivers(scope, ids, init);
      assert UpdateProps(scope, ids, props)[..|props| - 1] == UpdateProps(scope, ids, init);
      assert WAIVED.class_ != TEST_PARAMETER_CLASS;
    }
  }

  lemma FinishAlike(s: AssessmentScope, t: AssessmentScope, groups: RemarksGroups, a: ActivityValue, b: ActivityValue)
    requires DifferInWaivers(s, t) && AlikeActivities(a, b)
    ensures AlikeActivities(Finish(s, groups, a), Finish(t, groups, b))
  {
    ValidAlike(s, t, groups);
    var ids := RelatedIds(a.relatedControls.GetOr([]));
    if ParametersValid(s, groups) {
      UpdatesAndWaivers(s, ids, a.props.GetOr([]));
      UpdatesAndWaivers(t, ids, b.props.GetOr([]));
      UpdatesAlike(s, t, ids, Unwaived(a.props.GetOr([])));
    }
  }

  // ----- The law -----

  // Whatever is waived, globally or for single controls: the run panics or not all the same, has
  // the same verdict, and leaves the same plan but for waived markers. In particular it writes the
  // same parameter values.
  lemma WaivingOnlyMarks(s: AssessmentScope, t: AssessmentScope, groups: RemarksGroups, p: PlanValue)
    requires DifferInWaivers(s, t)
    ensures ApplyScope(s, groups, p).NilDereference? <==> ApplyScope(t, groups, p).NilDereference?
    ensures ApplyScope(s, groups, p).Applied? <==> ApplyScope(t, groups, p).Applied?
    ensures !ApplyScope(s, groups, p).NilDereference? ==>
              ApplyScope(s, groups, p).plan.reviewedControls == ApplyScope(t, groups, p).plan.reviewedControls
    ensures forall i: nat :: Returns(s, groups, p, i) ==>
              Returns(t, groups, p, i) && AlikeActivities(Ran(s, groups, p, i), Ran(t, groups, p, i))
  {
    RunByActivity(s, groups, p);
    RunByActivity(t, groups, p);
    ScopeControlsAlike(s, t);
    ValidAlike(s, t, groups);
    if p.activities.Some? {
      forall i | 0 <= i < |p.activities.value|
        ensures TwoPasses(s, p.activities.value[i]).Some? <==> TwoPasses(t, p.activities.value[i]).Some?
      {
        PassesAlike(s, t, p.activities.value[i]);
      }
    }
    forall i: nat | Returns(s, groups, p, i)
      ensures Returns(t, groups, p, i) && AlikeActivities(Ran(s, groups, p, i), Ran(t, groups, p, i))
    {
      var a := p.activities.value[i];
      PassesAlike(s, t, a);
      FinishAlike(s, t, groups, TwoPasses(s, a).value, TwoPasses(t, a).value);
    }
  }
}
