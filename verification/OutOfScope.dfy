/** Controls without an entry in the scope: where a run leaves them, and which activities it marks
    as skipped. */
module OutOfScope {
  import opened Wrappers
  import opened Oscal
  import opened ComponentDefinitions
  import opened ScopeRules
  import opened ScopeTheorems
  import opened ScopeLaws
  import opened ScopeMonotone
  import opened ParameterRuns

  // ===== Where a control without an entry stays =====

  ghost predicate AbsentFrom(a: ActivityValue, c: string) {
    !ActivityLists(a, c) && forall k :: 0 <= k < |a.steps| ==> !StepLists(a.steps[k], c)
  }

  // No selection of the plan, of its activities or of their steps lists the control.
  ghost predicate Absent(p: PlanValue, c: string) {
    && !AnyLists(p.reviewedControls, c)
    && (p.activities.Some? ==>
          forall i :: 0 <= i < |p.activities.value| ==> AbsentFrom(p.activities.value[i], c))
  }

  // A step is not restricted to the scope: it keeps the control unless it is emptied as a whole.
  ghost predicate StepKeepsUnscoped(scope: AssessmentScope, title: string, step: StepValue, c: string) {
    if title == "" then StepLists(step, c)
    else !LosesSelection(scope, title, step) && (IncludesAll(step) || Includes(step, c))
  }

  // An activity never lists a control that is out of scope after a run; a step does, exactly so.
  lemma UnscopedInRun(scope: AssessmentScope, groups: RemarksGroups, p: PlanValue, i: nat, c: string)
    requires Returns(scope, groups, p, i) && !InScope(scope, c)
    ensures !ActivityLists(Ran(scope, groups, p, i), c)
    ensures |Ran(scope, groups, p, i).steps| == |p.activities.value[i].steps|
    ensures forall k :: 0 <= k < |p.activities.value[i].steps| ==>
              (StepLists(Ran(scope, groups, p, i).steps[k], c) <==>
               StepKeepsUnscoped(scope, p.activities.value[i].title, p.activities.value[i].steps[k], c))
  {
    var a := p.activities.value[i];
    RanByPasses(scope, groups, p, i);
    if ActivityLists(Ran(scope, groups, p, i), c) {
      ListedBefore(scope, a, TwoPasses(scope, a).value, c);
    }
    RanSteps(scope, groups, p, i);
    EntryInScope(scope.includeControls, c);
    forall k | 0 <= k < |a.steps|
      ensures StepLists(Ran(scope, groups, p, i).steps[k], c) <==> StepKeepsUnscoped(scope, a.title, a.steps[k], c)
    {
      RanStep(scope, groups, p, i, k);
      StepListsAfter(scope, a.title, a.steps[k], c);
    }
  }

  lemma UnscopedNotReviewed(scope: AssessmentScope, groups: RemarksGroups, p: PlanValue, c: string)
    requires !ApplyScope(scope, groups, p).NilDereference? && !InScope(scope, c)
    ensures !AnyLists(ApplyScope(scope, groups, p).plan.reviewedControls, c)
  {
    RunByActivity(scope, groups, p);
    forall n | 0 <= n < |p.reviewedControls|
      ensures !Lists(Restrict(p.reviewedControls[n], ScopeControls(scope)), c)
    {
      RestrictLists(scope, p.reviewedControls[n], c);
    }
  }

  // The promise that deleting the entry of a control excludes it from the plan: a run keeps it if
  // and only if no step keeps the control.
  lemma AbsentExactlyWhen(scope: AssessmentScope, groups: RemarksGroups, p: PlanValue, c: string)
    requires !ApplyScope(scope, groups, p).NilDereference? && !InScope(scope, c)
    ensures Absent(ApplyScope(scope, groups, p).plan, c) <==>
            (p.activities.Some? ==>
               forall i, k :: 0 <= i < |p.activities.value| && 0 <= k < |p.activities.value[i].steps| ==>
                 !StepKeepsUnscoped(scope, p.activities.value[i].title, p.activities.value[i].steps[k], c))
  {
    UnscopedNotReviewed(scope, groups, p, c);
    RunByActivity(scope, groups, p);
    if p.activities.Some? {
      forall i | 0 <= i < |p.activities.value|
        ensures AbsentFrom(ApplyScope(scope, groups, p).plan.activities.value[i], c) <==>
                forall k :: 0 <= k < |p.activities.value[i].steps| ==>
                  !StepKeepsUnscoped(scope, p.activities.value[i].title, p.activities.value[i].steps[k], c)
      {
        assert Returns(scope, groups, p, i);
        UnscopedInRun(scope, groups, p, i, c);
      }
    }
  }

  // ===== Skipped activities =====

  ghost function SkippedIn(props: seq<Property>): nat {
    multiset(props)[SKIPPED]
  }

  ghost function SkippedCount(props: Option<seq<Property>>): nat {
    SkippedIn(props.GetOr([]))
  }

  lemma SkippedInBoth(p: seq<Property>, q: seq<Property>)
    ensures SkippedIn(p + q) == SkippedIn(p) + SkippedIn(q)
  {
    assert multiset(p + q) == multiset(p) + multiset(q);
  }

  lemma SkippedMark(props: Option<seq<Property>>, markers: seq<Property>)
    ensures SkippedCount(Mark(props, markers)) == SkippedCount(props) + SkippedIn(markers)
  {
    SkippedInBoth(props.GetOr([]), markers);
  }

  lemma {:induction false} SkippedOutOfScope(scope: AssessmentScope, sels: seq<Selection>)
    ensures SkippedIn(OutOfScopeMarkers(scope, sels)) > 0 <==>
            exists n :: 0 <= n < |sels| && NoneInScope(scope, sels[n])
  {
    if sels != [] {
      var init, last := sels[..|sels| - 1], sels[|sels| - 1];
      SkippedOutOfScope(scope, init);
      assert forall n :: 0 <= n < |init| ==> init[n] == sels[n];
      SkippedInBoth(OutOfScopeMarkers(scope, init), if NoneInScope(scope, last) then [SKIPPED] else []);
    }
  }

  lemma {:induction false} SkippedMarkers(scope: AssessmentScope, rule: string, sels: seq<Selection>)
    requires rule != ""
    ensures SkippedIn(SelectionMarkers(scope, rule, sels)) > 0 <==> SomeNotLeft(scope, rule, sels)
  {
    if sels != [] {
      var init, last := sels[..|sels| - 1], sels[|sels| - 1];
      SkippedMarkers(scope, rule, init);
      assert sels == init + [last];
      SomeNotLeftSnoc(scope, rule, init, last);
      OneSkipped(scope, rule, last);
      SkippedInBoth(SelectionMarkers(scope, rule, init), SelectionMarker(scope, rule, last));
    }
  }

  lemma OneSkipped(scope: AssessmentScope, rule: string, s: Selection)
    requires rule != ""
    ensures SkippedIn(SelectionMarker(scope, rule, s)) > 0 <==> LeftOf(scope, rule, s) == {}
  {
    LeftOfTitled(scope, rule, s);
  }

  lemma SomeNotLeftSnoc(scope: AssessmentScope, rule: string, init: seq<Selection>, last: Selection)
    ensures SomeNotLeft(scope, rule, init + [last]) <==>
            SomeNotLeft(scope, rule, init) || LeftOf(scope, rule, last) == {}
  {
    var sels := init + [last];
    assert sels[|init|] == last;
    assert forall n :: 0 <= n < |init| ==> sels[n] == init[n];
  }

  lemma RanSkipped(scope: AssessmentScope, groups: RemarksGroups, p: PlanValue, i: nat)
    requires Returns(scope, groups, p, i)
    ensures TwoPasses(scope, p.activities.value[i]).Some?
    ensures SkippedCount(Ran(scope, groups, p, i).props) ==
            SkippedCount(TwoPasses(scope, p.activities.value[i]).value.props)
  {
    RunByActivity(scope, groups, p);
    var b := TwoPasses(scope, p.activities.value[i]).value;
    if b.props.Some? {
      UpdatesKeep(scope, RelatedIds(b.relatedControls.GetOr([])), b.props.value, SKIPPED);
    }
  }

  lemma OutOfScopeNotLeft(scope: AssessmentScope, rule: string, sels: seq<Selection>)
    ensures (exists n :: 0 <= n < |sels| && NoneInScope(scope, sels[n])) ==> SomeNotLeft(scope, rule, sels)
    ensures SomeNotLeft(scope, "", sels) ==> exists n :: 0 <= n < |sels| && NoneInScope(scope, sels[n])
  {
    forall n | 0 <= n < |sels| && NoneInScope(scope, sels[n])
      ensures LeftOf(scope, rule, sels[n]) == {}
    {
    }
    forall n | 0 <= n < |sels| && LeftOf(scope, "", sels[n]) == {}
      ensures NoneInScope(scope, sels[n])
    {
      forall c | c in ScopeControls(scope)
        ensures !Lists(sels[n], c)
      {
        assert c !in LeftOf(scope, "", sels[n]);
      }
    }
  }

  // A run marks an activity as skipped if and only if one of its selections is left without a
  // control; the others may well have some.
  lemma SkippedMarkerAppears(scope: AssessmentScope, groups: RemarksGroups, p: PlanValue, i: nat)
    requires Returns(scope, groups, p, i)
    ensures SkippedCount(Ran(scope, groups, p, i).props) > SkippedCount(p.activities.value[i].props) <==>
            p.activities.value[i].relatedControls.Some? &&
            SomeNotLeft(scope, p.activities.value[i].title, p.activities.value[i].relatedControls.value)
  {
    RanSkipped(scope, groups, p, i);
    var a := p.activities.value[i];
    if a.relatedControls.Some? {
      var sels := a.relatedControls.value;
      SkippedOutOfScope(scope, sels);
      SkippedMark(a.props, OutOfScopeMarkers(scope, sels));
      OutOfScopeNotLeft(scope, a.title, sels);
      if a.title == "" {
        MarkersAfterPasses(scope, "", sels);
      } else {
        PropsAfterPasses(scope, a, TwoPasses(scope, a).value);
        SkippedMark(a.props, SelectionMarkers(scope, a.title, sels));
        SkippedMarkers(scope, a.title, sels);
      }
    }
  }

  // All related controls of the activity are then gone.
  lemma SkippedLosesRelated(scope: AssessmentScope, groups: RemarksGroups, p: PlanValue, i: nat)
    requires Returns(scope, groups, p, i) && p.activities.value[i].relatedControls.Some?
    requires SomeNotLeft(scope, p.activities.value[i].title, p.activities.value[i].relatedControls.value)
    ensures Ran(scope, groups, p, i).relatedControls == None
  {
    var a := p.activities.value[i];
    var sels := a.relatedControls.value;
    RanByPasses(scope, groups, p, i);
    var n :| 0 <= n < |sels| && LeftOf(scope, a.title, sels[n]) == {};
    if a.title == "" {
      LeftOfUntitled(scope, sels[n]);
      assert Empty(RestrictAll(sels, ScopeControls(scope))[n]);
    } else {
      LeftOfTitled(scope, a.title, sels[n]);
      ActivityAfterPasses(scope, a);
    }
  }

  // The activity relates to controls, and is left with none of them.
  ghost predicate NothingLeft(scope: AssessmentScope, a: ActivityValue) {
    && a.relatedControls.Some? && a.relatedControls.value != []
    && forall n :: 0 <= n < |a.relatedControls.value| ==> LeftOf(scope, a.title, a.relatedControls.value[n]) == {}
  }

  // Activities are described as skipped when no other control is in scope. A run does so if and only
  // if the activity's selections are all left with a control, or all left without one.
  lemma SkippedAsDescribedExactlyWhen(scope: AssessmentScope, groups: RemarksGroups, p: PlanValue, i: nat)
    requires Returns(scope, groups, p, i)
    ensures var a := p.activities.value[i];
            (SkippedCount(Ran(scope, groups, p, i).props) > SkippedCount(a.props) <==> NothingLeft(scope, a)) <==>
            a.relatedControls.None? || NothingLeft(scope, a) || !SomeNotLeft(scope, a.title, a.relatedControls.value)
  {
    SkippedMarkerAppears(scope, groups, p, i);
  }
}
