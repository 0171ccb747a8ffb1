/** A tighter scope, with more rules excluded or controls removed, and what it may still change;
    and the controls of activities against those of the plan. */
module ScopeMonotone {
  import opened Wrappers
  import opened Ordering
  import opened Oscal
  import opened ComponentDefinitions
  import opened ScopeRules
  import opened ScopeTheorems
  import opened ScopeLaws

  // ===== A tighter scope =====

  ghost predicate TighterEntry(e: ControlEntry, f: ControlEntry) {
    && f.includeRules == e.includeRules && f.waiveRules == e.waiveRules
    && forall r :: r in e.excludeRules ==> r in f.excludeRules
  }

  // t excludes at least what s does: more rules, for all controls or for one, or fewer controls.
  ghost predicate Tighter(s: AssessmentScope, t: AssessmentScope) {
    && s.globalWaiveRules == t.globalWaiveRules
    && (forall r :: r in s.globalExcludeRules ==> r in t.globalExcludeRules)
    && forall c :: EntryOf(t.includeControls, c).Some? ==>
         EntryOf(s.includeControls, c).Some? &&
         TighterEntry(EntryOf(s.includeControls, c).value, EntryOf(t.includeControls, c).value)
  }

  lemma ExcludedMore(s: AssessmentScope, t: AssessmentScope, rule: string, c: string)
    requires Tighter(s, t) && EntryOf(t.includeControls, c).Some?
    ensures EntryOf(s.includeControls, c).Some?
    ensures Stays(t, rule, c) ==> Stays(s, rule, c)
    ensures Waived(t, rule, c) <==> Waived(s, rule, c)
  {
  }

  lemma SurvivorsShrink(s: AssessmentScope, t: AssessmentScope, rule: string, sel: Selection)
    requires Tighter(s, t)
    ensures Survivors(t, rule, sel) <= Survivors(s, rule, sel)
    ensures NoneInScope(s, sel) ==> NoneInScope(t, sel)
  {
    forall c | c in ScopeControls(t)
      ensures c in ScopeControls(s) && (Stays(t, rule, c) ==> Stays(s, rule, c))
    {
      EntryInScope(t.includeControls, c);
      EntryInScope(s.includeControls, c);
      ExcludedMore(s, t, rule, c);
    }
  }

  // ----- Waived markers, counted -----

  ghost function WaivedIn(props: seq<Property>): nat {
    multiset(props)[WAIVED]
  }

  ghost function WaivedCount(props: Option<seq<Property>>): nat {
    WaivedIn(props.GetOr([]))
  }

  lemma MarkCount(props: Option<seq<Property>>, markers: seq<Property>)
    ensures WaivedCount(Mark(props, markers)) == WaivedCount(props) + WaivedIn(markers)
  {
    assert multiset(props.GetOr([]) + markers) == multiset(props.GetOr([])) + multiset(markers);
  }

  lemma {:induction false} OutOfScopeNotWaived(scope: AssessmentScope, sels: seq<Selection>)
    ensures WaivedIn(OutOfScopeMarkers(scope, sels)) == 0
  {
    if sels != [] {
      OutOfScopeNotWaived(scope, sels[..|sels| - 1]);
    }
  }

  lemma MarkerShrinks(s: AssessmentScope, t: AssessmentScope, rule: string, sel: Selection)
    requires Tighter(s, t)
    ensures WaivedIn(SelectionMarker(t, rule, sel)) <= WaivedIn(SelectionMarker(s, rule, sel))
  {
    SurvivorsShrink(s, t, rule, sel);
    forall c | c in Survivors(t, rule, sel)
      ensures Waived(t, rule, c) ==> Waived(s, rule, c)
    {
      EntryInScope(t.includeControls, c);
      ExcludedMore(s, t, rule, c);
    }
  }

  lemma {:induction false} MarkersShrink(s: AssessmentScope, t: AssessmentScope, rule: string, sels: seq<Selection>)
    requires Tighter(s, t)
    ensures WaivedIn(SelectionMarkers(t, rule, sels)) <= WaivedIn(SelectionMarkers(s, rule, sels))
  {
    if sels != [] {
      var init, last := sels[..|sels| - 1], sels[|sels| - 1];
      MarkersShrink(s, t, rule, init);
      MarkerShrinks(s, t, rule, last);
    }
  }

  // ----- One activity -----

  // Selection by selection, nothing is listed in fewer that is not listed in more.
  ghost predicate Fewer(fewer: Option<seq<Selection>>, more: Option<seq<Selection>>) {
    fewer.Some? && fewer.value != [] ==>
      && more.Some? && |more.value| == |fewer.value|
      && forall i, c :: 0 <= i < |fewer.value| && Lists(fewer.value[i], c) ==> Lists(more.value[i], c)
  }

  lemma AfterShrinks(s: AssessmentScope, t: AssessmentScope, rule: string, sels: seq<Selection>)
    requires Tighter(s, t)
    ensures EveryLeft(t, rule, sels) ==> EveryLeft(s, rule, sels)
    ensures Fewer(Some(AfterAll(t, rule, sels)), Some(AfterAll(s, rule, sels)))
  {
    forall i | 0 <= i < |sels|
      ensures Survivors(t, rule, sels[i]) <= Survivors(s, rule, sels[i])
      ensures forall c :: Lists(After(t, rule, sels[i]), c) ==> Lists(After(s, rule, sels[i]), c)
    {
      SurvivorsShrink(s, t, rule, sels[i]);
      SelectionAfterPasses(s, rule, sels[i]);
      SelectionAfterPasses(t, rule, sels[i]);
      ListedAfter(s, rule, sels[i]);
      ListedAfter(t, rule, sels[i]);
    }
  }

  lemma ListedAfter(scope: AssessmentScope, rule: string, s: Selection)
    ensures forall c :: Lists(After(scope, rule, s), c) <==> c in Survivors(scope, rule, s)
  {
    SelectionAfterPasses(scope, rule, s);
    var left := Survivors(scope, rule, s);
    forall c
      ensures Lists(After(scope, rule, s), c) <==> c in left
    {
      if left != {} {
        assert c in Ascending(left) <==> c in Elements(Ascending(left));
      }
    }
  }

  lemma RestrictShrinks(s: AssessmentScope, t: AssessmentScope, sel: Selection)
    requires Tighter(s, t)
    ensures Empty(Restrict(sel, ScopeControls(s))) ==> Empty(Restrict(sel, ScopeControls(t)))
    ensures forall c :: Lists(Restrict(sel, ScopeControls(t)), c) ==> Lists(Restrict(sel, ScopeControls(s)), c)
  {
    SurvivorsShrink(s, t, "", sel);
    EmptyRestriction(s, sel);
    EmptyRestriction(t, sel);
    forall c | Lists(Restrict(sel, ScopeControls(t)), c)
      ensures Lists(Restrict(sel, ScopeControls(s)), c)
    {
      RestrictLists(s, sel, c);
      RestrictLists(t, sel, c);
      EntryInScope(t.includeControls, c);
      EntryInScope(s.includeControls, c);
    }
  }

  lemma RestrictAllShrinks(s: AssessmentScope, t: AssessmentScope, sels: seq<Selection>)
    requires Tighter(s, t)
    ensures var wide, tight := RestrictAll(sels, ScopeControls(s)), RestrictAll(sels, ScopeControls(t));
            Fewer(Remaining(tight), Remaining(wide))
  {
    var wide, tight := RestrictAll(sels, ScopeControls(s)), RestrictAll(sels, ScopeControls(t));
    forall i | 0 <= i < |sels|
      ensures Empty(wide[i]) ==> Empty(tight[i])
      ensures forall c :: Lists(tight[i], c) ==> Lists(wide[i], c)
    {
      RestrictShrinks(s, t, sels[i]);
    }
    if AnyEmpty(wide) {
      var i :| 0 <= i < |sels| && Empty(wide[i]);
      assert Empty(tight[i]);
    }
  }

  // An activity without a title only goes through the control pass.
  lemma UntitledShrinks(s: AssessmentScope, t: AssessmentScope, a: ActivityValue)
    requires Tighter(s, t) && a.title == ""
    ensures TwoPasses(s, a).Some? && TwoPasses(t, a).Some?
    ensures Fewer(TwoPasses(t, a).value.relatedControls, TwoPasses(s, a).value.relatedControls)
    ensures WaivedCount(TwoPasses(t, a).value.props) == WaivedCount(TwoPasses(s, a).value.props)
  {
    if a.relatedControls.Some? {
      var sels := a.relatedControls.value;
      RestrictAllShrinks(s, t, sels);
      MarkersAfterPasses(s, "", sels);
      MarkersAfterPasses(t, "", sels);
      OutOfScopeNotWaived(s, sels);
      OutOfScopeNotWaived(t, sels);
      MarkCount(a.props, OutOfScopeMarkers(s, sels));
      MarkCount(a.props, OutOfScopeMarkers(t, sels));
    }
  }

  // Tightening the scope never adds a control to an activity selection, and never a waived
  // marker, unless it keeps a step from losing all its controls.
  lemma ExcludingIsMonotone(s: AssessmentScope, t: AssessmentScope, a: ActivityValue, bs: ActivityValue,
                            bt: ActivityValue)
    requires Tighter(s, t)
    requires TwoPasses(s, a) == Some(bs) && TwoPasses(t, a) == Some(bt)
    requires a.title != "" && LosesStep(s, a) ==> LosesStep(t, a)
    ensures Fewer(bt.relatedControls, bs.relatedControls)
    ensures WaivedCount(bt.props) <= WaivedCount(bs.props)
  {
    if a.title == "" {
      UntitledShrinks(s, t, a);
    } else {
      ActivityAfterPasses(s, a);
      ActivityAfterPasses(t, a);
      AnyStepEmptiedIsLosesStep(s, a);
      AnyStepEmptiedIsLosesStep(t, a);
      if a.relatedControls.Some? {
        AfterShrinks(s, t, a.title, a.relatedControls.value);
      }
      WaivedShrinks(s, t, a, bs, bt);
    }
  }

  lemma WaivedShrinks(s: AssessmentScope, t: AssessmentScope, a: ActivityValue, bs: ActivityValue, bt: ActivityValue)
    requires Tighter(s, t) && a.title != ""
    requires TwoPasses(s, a) == Some(bs) && TwoPasses(t, a) == Some(bt)
    ensures WaivedCount(bt.props) <= WaivedCount(bs.props)
  {
    PropsAfterPasses(s, a, bs);
    PropsAfterPasses(t, a, bt);
    if a.relatedControls.Some? {
      var sels := a.relatedControls.value;
      forall i | 0 <= i < |sels|
        ensures NoneInScope(s, sels[i]) ==> NoneInScope(t, sels[i])
      {
        SurvivorsShrink(s, t, a.title, sels[i]);
      }
      OutOfScopeNotWaived(s, sels);
      OutOfScopeNotWaived(t, sels);
      MarkersShrink(s, t, a.title, sels);
      MarkCount(a.props, OutOfScopeMarkers(s, sels));
      MarkCount(a.props, OutOfScopeMarkers(t, sels));
      MarkCount(a.props, SelectionMarkers(s, a.title, sels));
      MarkCount(a.props, SelectionMarkers(t, a.title, sels));
    }
  }

  // The wider scope empties a step, the tighter one none; and the tighter one leaves every
  // selection of the activity a control, c among them.
  ghost predicate ActivityGains(s: AssessmentScope, t: AssessmentScope, a: ActivityValue, c: string) {
    && a.title != "" && LosesStep(s, a) && !LosesStep(t, a)
    && a.relatedControls.Some? && EveryLeft(t, a.title, a.relatedControls.value)
    && exists i :: 0 <= i < |a.relatedControls.value| && c in Survivors(t, a.title, a.relatedControls.value[i])
  }

  lemma PassesGain(s: AssessmentScope, t: AssessmentScope, a: ActivityValue, bs: ActivityValue, bt: ActivityValue,
                   c: string)
    requires Tighter(s, t)
    requires TwoPasses(s, a) == Some(bs) && TwoPasses(t, a) == Some(bt)
    ensures ActivityLists(bt, c) && !ActivityLists(bs, c) <==> ActivityGains(s, t, a, c)
  {
    if a.title != "" && LosesStep(s, a) && !LosesStep(t, a) {
      ActivityAfterPasses(s, a);
      AnyStepEmptiedIsLosesStep(s, a);
      RegainedLists(t, a, bt, c);
    } else {
      ExcludingIsMonotone(s, t, a, bs, bt);
      if ActivityLists(bt, c) {
        var i :| 0 <= i < |bt.relatedControls.value| && Lists(bt.relatedControls.value[i], c);
        assert Lists(bs.relatedControls.value[i], c);
      }
    }
  }

  // What a titled activity that loses no step lists after both passes.
  lemma RegainedLists(scope: AssessmentScope, a: ActivityValue, b: ActivityValue, c: string)
    requires TwoPasses(scope, a) == Some(b) && a.title != "" && !LosesStep(scope, a)
    ensures ActivityLists(b, c) <==>
            && a.relatedControls.Some? && EveryLeft(scope, a.title, a.relatedControls.value)
            && exists i :: 0 <= i < |a.relatedControls.value| &&
                           c in Survivors(scope, a.title, a.relatedControls.value[i])
  {
    ActivityAfterPasses(scope, a);
    AnyStepEmptiedIsLosesStep(scope, a);
    if a.relatedControls.Some? {
      var sels := a.relatedControls.value;
      forall i | 0 <= i < |sels|
        ensures Lists(AfterAll(scope, a.title, sels)[i], c) <==> c in Survivors(scope, a.title, sels[i])
      {
        ListedAfter(scope, a.title, sels[i]);
      }
    }
  }

  // ----- Steps -----

  // The tighter scope empties no selection of the step. If the wider one does, the step comes
  // back with everything the tighter one keeps; if not, it gains the controls it includes, for
  // which the rule was excluded, and which are no longer in scope and so no longer filtered.
  ghost predicate StepGains(s: AssessmentScope, t: AssessmentScope, rule: string, step: StepValue, c: string) {
    && !LosesSelection(t, rule, step)
    && if LosesSelection(s, rule, step) then
         IncludesAll(step) || (Includes(step, c) && Stays(t, rule, c))
       else
         !IncludesAll(step) && Includes(step, c) && !Stays(s, rule, c) && !InScope(t, c)
  }

  lemma StaysAgain(s: AssessmentScope, t: AssessmentScope, rule: string, c: string)
    requires Tighter(s, t)
    ensures Stays(t, rule, c) && !Stays(s, rule, c) <==> !Stays(s, rule, c) && !InScope(t, c)
  {
    EntryInScope(t.includeControls, c);
    if EntryOf(t.includeControls, c).Some? {
      ExcludedMore(s, t, rule, c);
    }
  }

  lemma RulePassGains(s: AssessmentScope, t: AssessmentScope, rule: string, step: StepValue, c: string)
    requires Tighter(s, t)
    ensures StepLists(RulePassStep(t, rule, step), c) && !StepLists(RulePassStep(s, rule, step), c) <==>
            StepGains(s, t, rule, step, c)
  {
    StepListsAfter(s, rule, step, c);
    StepListsAfter(t, rule, step, c);
    StaysAgain(s, t, rule, c);
  }

  // A step that is no longer emptied includes a control whose rule was excluded and that has been
  // removed from the scope.
  lemma RegainByRemoval(s: AssessmentScope, t: AssessmentScope, rule: string, step: StepValue)
    requires Tighter(s, t) && LosesSelection(s, rule, step) && !LosesSelection(t, rule, step)
    ensures exists d :: Includes(step, d) && !Stays(s, rule, d) && InScope(s, d) && !InScope(t, d)
  {
    var sels := step.reviewedControls.value;
    assert step.reviewedControls.GetOr([]) == sels;
    var j :| 0 <= j < |sels| && NoneStays(s, rule, sels[j]);
    assert !NoneStays(t, rule, sels[j]);
    var d :| d in sels[j].includeControls.GetOr([]) && Stays(t, rule, d);
    StaysAgain(s, t, rule, d);
    EntryInScope(s.includeControls, d);
    assert Includes(step, d);
  }

  // So does every step that gains a control; it need not be the same control.
  lemma GainsByRemoval(s: AssessmentScope, t: AssessmentScope, rule: string, step: StepValue, c: string)
    requires Tighter(s, t) && StepGains(s, t, rule, step, c)
    ensures exists d :: Includes(step, d) && !Stays(s, rule, d) && InScope(s, d) && !InScope(t, d)
  {
    if LosesSelection(s, rule, step) {
      RegainByRemoval(s, t, rule, step);
    } else {
      EntryInScope(s.includeControls, c);
      assert Includes(step, c);
    }
  }

  // ----- Waived markers of steps -----

  lemma StepMarkerShrinks(s: AssessmentScope, t: AssessmentScope, rule: string, sel: Selection)
    requires Tighter(s, t)
    ensures WaivedIn(StepMarker(t, rule, sel)) <= WaivedIn(StepMarker(s, rule, sel))
  {
    if StepMarker(t, rule, sel) == [WAIVED] {
      var c :| c in sel.includeControls.GetOr([]) && Stays(t, rule, c) && Waived(t, rule, c);
      ExcludedMore(s, t, rule, c);
    }
  }

  lemma {:induction false} StepMarkersShrink(s: AssessmentScope, t: AssessmentScope, rule: string, sels: seq<Selection>)
    requires Tighter(s, t)
    ensures WaivedIn(StepMarkers(t, rule, sels)) <= WaivedIn(StepMarkers(s, rule, sels))
  {
    if sels != [] {
      StepMarkersShrink(s, t, rule, sels[..|sels| - 1]);
      StepMarkerShrinks(s, t, rule, sels[|sels| - 1]);
    }
  }

  lemma StepWaivedShrinks(s: AssessmentScope, t: AssessmentScope, rule: string, step: StepValue)
    requires Tighter(s, t)
    ensures WaivedCount(RulePassStep(t, rule, step).props) <= WaivedCount(RulePassStep(s, rule, step).props)
  {
    if step.reviewedControls.Some? {
      var sels := step.reviewedControls.value;
      StepMarkersAfterRules(s, rule, sels);
      StepMarkersAfterRules(t, rule, sels);
      StepMarkersShrink(s, t, rule, sels);
      MarkCount(step.props, StepMarkers(s, rule, sels));
      MarkCount(step.props, StepMarkers(t, rule, sels));
    }
  }

  // ----- Whole runs -----

  // Writing parameters makes no marker and destroys none.
  lemma {:induction false} UpdatesKeep(scope: AssessmentScope, ids: seq<string>, props: seq<Property>, marker: Property)
    requires marker.class_ != TEST_PARAMETER_CLASS
    ensures multiset(UpdateProps(scope, ids, props))[marker] == multiset(props)[marker]
  {
    if props != [] {
      var init, last := props[..|props| - 1], props[|props| - 1];
      UpdatesKeep(scope, ids, init, marker);
      assert props == init + [last];
      assert UpdateProps(scope, ids, props) == UpdateProps(scope, ids, init) + [UpdateProp(scope, ids, last)];
    }
  }

  lemma RanWaived(scope: AssessmentScope, groups: RemarksGroups, p: PlanValue, i: nat)
    requires Returns(scope, groups, p, i)
    ensures TwoPasses(scope, p.activities.value[i]).Some?
    ensures WaivedCount(Ran(scope, groups, p, i).props) ==
            WaivedCount(TwoPasses(scope, p.activities.value[i]).value.props)
  {
    RunByActivity(scope, groups, p);
    var b := TwoPasses(scope, p.activities.value[i]).value;
    if b.props.Some? {
      UpdatesKeep(scope, RelatedIds(b.relatedControls.GetOr([])), b.props.value, WAIVED);
    }
  }

  // For every plan on which both runs return: tightening the scope gives no activity and no step
  // a further waived marker, whatever the selected parameters are.
  lemma WaiversShrink(s: AssessmentScope, t: AssessmentScope, groups: RemarksGroups, p: PlanValue, i: nat)
    requires Tighter(s, t) && Returns(s, groups, p, i) && Returns(t, groups, p, i)
    ensures WaivedCount(Ran(t, groups, p, i).props) <= WaivedCount(Ran(s, groups, p, i).props)
    ensures |Ran(s, groups, p, i).steps| == |Ran(t, groups, p, i).steps|
    ensures forall k :: 0 <= k < |Ran(t, groups, p, i).steps| ==>
              WaivedCount(Ran(t, groups, p, i).steps[k].props) <= WaivedCount(Ran(s, groups, p, i).steps[k].props)
  {
    var a := p.activities.value[i];
    RanWaived(s, groups, p, i);
    RanWaived(t, groups, p, i);
    if a.title == "" {
      UntitledShrinks(s, t, a);
    } else {
      WaivedShrinks(s, t, a, TwoPasses(s, a).value, TwoPasses(t, a).value);
    }
    StepWaiversShrink(s, t, groups, p, i);
  }

  lemma StepWaiversShrink(s: AssessmentScope, t: AssessmentScope, groups: RemarksGroups, p: PlanValue, i: nat)
    requires Tighter(s, t) && Returns(s, groups, p, i) && Returns(t, groups, p, i)
    ensures |Ran(s, groups, p, i).steps| == |Ran(t, groups, p, i).steps|
    ensures forall k :: 0 <= k < |Ran(t, groups, p, i).steps| ==>
              WaivedCount(Ran(t, groups, p, i).steps[k].props) <= WaivedCount(Ran(s, groups, p, i).steps[k].props)
  {
    var a := p.activities.value[i];
    RanSteps(s, groups, p, i);
    RanSteps(t, groups, p, i);
    forall k | 0 <= k < |a.steps|
      ensures WaivedCount(Ran(t, groups, p, i).steps[k].props) <= WaivedCount(Ran(s, groups, p, i).steps[k].props)
    {
      RanStep(s, groups, p, i, k);
      RanStep(t, groups, p, i, k);
      StepWaivedShrinks(s, t, a.title, a.steps[k]);
    }
  }

  // For every plan on which both runs return: tightening the scope adds no control to an activity,
  // selection by selection, unless it keeps a step from being emptied.
  lemma RunsAreMonotone(s: AssessmentScope, t: AssessmentScope, groups: RemarksGroups, p: PlanValue, i: nat)
    requires Tighter(s, t) && Returns(s, groups, p, i) && Returns(t, groups, p, i)
    requires p.activities.value[i].title != "" && LosesStep(s, p.activities.value[i]) ==>
               LosesStep(t, p.activities.value[i])
    ensures Fewer(Ran(t, groups, p, i).relatedControls, Ran(s, groups, p, i).relatedControls)
  {
    var a := p.activities.value[i];
    RanByPasses(s, groups, p, i);
    RanByPasses(t, groups, p, i);
    ExcludingIsMonotone(s, t, a, TwoPasses(s, a).value, TwoPasses(t, a).value);
  }

  // The exception, exactly.
  lemma ActivityGainsExactly(s: AssessmentScope, t: AssessmentScope, groups: RemarksGroups, p: PlanValue, i: nat,
                             c: string)
    requires Tighter(s, t) && Returns(s, groups, p, i) && Returns(t, groups, p, i)
    ensures ActivityLists(Ran(t, groups, p, i), c) && !ActivityLists(Ran(s, groups, p, i), c) <==>
            ActivityGains(s, t, p.activities.value[i], c)
  {
    var a := p.activities.value[i];
    RanByPasses(s, groups, p, i);
    RanByPasses(t, groups, p, i);
    PassesGain(s, t, a, TwoPasses(s, a).value, TwoPasses(t, a).value, c);
  }

  // When a step lists a control after the run with the tighter scope that it does not list after
  // the run with the wider one.
  lemma StepGainsExactly(s: AssessmentScope, t: AssessmentScope, groups: RemarksGroups, p: PlanValue, i: nat, k: nat,
                         c: string)
    requires Tighter(s, t) && Returns(s, groups, p, i) && Returns(t, groups, p, i)
    requires k < |p.activities.value[i].steps|
    ensures k < |Ran(s, groups, p, i).steps| && k < |Ran(t, groups, p, i).steps|
    ensures StepLists(Ran(t, groups, p, i).steps[k], c) && !StepLists(Ran(s, groups, p, i).steps[k], c) <==>
            p.activities.value[i].title != "" &&
            StepGains(s, t, p.activities.value[i].title, p.activities.value[i].steps[k], c)
  {
    RanStep(s, groups, p, i, k);
    RanStep(t, groups, p, i, k);
    RulePassGains(s, t, p.activities.value[i].title, p.activities.value[i].steps[k], c);
  }

  lemma SameControlsLoseStep(s: AssessmentScope, t: AssessmentScope, a: ActivityValue)
    requires Tighter(s, t) && ScopeControls(s) == ScopeControls(t)
    requires LosesStep(s, a)
    ensures LosesStep(t, a)
  {
    var k :| 0 <= k < |a.steps| && LosesSelection(s, a.title, a.steps[k]);
    if !LosesSelection(t, a.title, a.steps[k]) {
      RegainByRemoval(s, t, a.title, a.steps[k]);
    }
  }

  // So excluding rules, without removing controls, never adds a control to an activity or to a
  // step, and a step that is emptied stays emptied.
  lemma StepsShrink(s: AssessmentScope, t: AssessmentScope, groups: RemarksGroups, p: PlanValue, i: nat)
    requires Tighter(s, t) && ScopeControls(s) == ScopeControls(t)
    requires Returns(s, groups, p, i) && Returns(t, groups, p, i)
    ensures LosesStep(s, p.activities.value[i]) ==> LosesStep(t, p.activities.value[i])
    ensures Fewer(Ran(t, groups, p, i).relatedControls, Ran(s, groups, p, i).relatedControls)
    ensures |Ran(s, groups, p, i).steps| == |Ran(t, groups, p, i).steps|
    ensures forall k, c :: 0 <= k < |Ran(t, groups, p, i).steps| && StepLists(Ran(t, groups, p, i).steps[k], c) ==>
              StepLists(Ran(s, groups, p, i).steps[k], c)
  {
    var a := p.activities.value[i];
    if LosesStep(s, a) {
      SameControlsLoseStep(s, t, a);
    }
    RunsAreMonotone(s, t, groups, p, i);
    RanSteps(s, groups, p, i);
    RanSteps(t, groups, p, i);
    forall k, c | 0 <= k < |a.steps| && StepLists(Ran(t, groups, p, i).steps[k], c)
      ensures StepLists(Ran(s, groups, p, i).steps[k], c)
    {
      StepGainsExactly(s, t, groups, p, i, k, c);
      if a.title != "" && StepGains(s, t, a.title, a.steps[k], c) {
        GainsByRemoval(s, t, a.title, a.steps[k], c);
      }
    }
  }

  // ===== Activities against the plan =====

  ghost predicate AnyLists(sels: seq<Selection>, c: string) {
    exists k :: 0 <= k < |sels| && Lists(sels[k], c)
  }

  ghost predicate Covered(p: PlanValue) {
    p.activities.Some? ==>
      forall i, c :: 0 <= i < |p.activities.value| && ActivityLists(p.activities.value[i], c) ==>
        AnyLists(p.reviewedControls, c)
  }

  lemma RestrictLists(scope: AssessmentScope, s: Selection, c: string)
    ensures Lists(Restrict(s, ScopeControls(scope)), c) <==> InScope(scope, c) && Lists(s, c)
  {
    var left := set d | d in ScopeControls(scope) && Lists(s, d);
    assert c in left <==> InScope(scope, c) && Lists(s, c);
    if left != {} {
      assert c in Ascending(left) <==> c in Elements(Ascending(left));
    }
  }

  // What an activity lists after both passes, it listed before, and it is in scope.
  lemma ListedBefore(scope: AssessmentScope, a: ActivityValue, b: ActivityValue, c: string)
    requires TwoPasses(scope, a) == Some(b) && ActivityLists(b, c)
    ensures ActivityLists(a, c) && InScope(scope, c)
  {
    var i :| 0 <= i < |b.relatedControls.value| && Lists(b.relatedControls.value[i], c);
    var sels := a.relatedControls.value;
    if a.title == "" {
      RestrictLists(scope, sels[i], c);
    } else {
      ActivityAfterPasses(scope, a);
      ListedAfter(scope, a.title, sels[i]);
    }
    assert Lists(sels[i], c);
  }

  // If the plan reviews every control its activities relate to, it still does after a run,
  // although the plan's own selections only go through the control pass.
  lemma CoverageKept(scope: AssessmentScope, groups: RemarksGroups, p: PlanValue)
    requires Covered(p) && !ApplyScope(scope, groups, p).NilDereference?
    ensures Covered(ApplyScope(scope, groups, p).plan)
  {
    var q := ApplyScope(scope, groups, p).plan;
    RunByActivity(scope, groups, p);
    if p.activities.Some? {
      forall i, c | 0 <= i < |q.activities.value| && ActivityLists(q.activities.value[i], c)
        ensures AnyLists(q.reviewedControls, c)
      {
        ActivityCovered(scope, groups, p, i, c);
      }
    }
  }

  lemma ActivityCovered(scope: AssessmentScope, groups: RemarksGroups, p: PlanValue, i: nat, c: string)
    requires p.activities.Some? && i < |p.activities.value|
    requires TwoPasses(scope, p.activities.value[i]).Some?
    requires ActivityLists(p.activities.value[i], c) ==> AnyLists(p.reviewedControls, c)
    requires ActivityLists(Finish(scope, groups, TwoPasses(scope, p.activities.value[i]).value), c)
    ensures AnyLists(RestrictAll(p.reviewedControls, ScopeControls(scope)), c)
  {
    var b := TwoPasses(scope, p.activities.value[i]).value;
    assert Finish(scope, groups, b).relatedControls == b.relatedControls;
    ListedBefore(scope, p.activities.value[i], b, c);
    var k :| 0 <= k < |p.reviewedControls| && Lists(p.reviewedControls[k], c);
    RestrictLists(scope, p.reviewedControls[k], c);
    assert Lists(RestrictAll(p.reviewedControls, ScopeControls(scope))[k], c);
  }
}
