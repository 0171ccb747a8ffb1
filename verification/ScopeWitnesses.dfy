/** Plans on which the engine does what its documentation does not say. Every run here returns,
    for all component definitions. */
module ScopeWitnesses {
  import opened Wrappers
  import opened Ordering
  import opened Oscal
  import opened ComponentDefinitions
  import Params = ParameterSelection
  import opened ScopeRules
  import opened ScopeTheorems
  import opened ScopeLaws
  import opened ScopeMonotone
  import opened GlobalExclusion
  import opened ParameterRuns
  import opened OutOfScope
  import opened WaivedParameters
  import opened ScopeGenerator
  import opened GeneratedScope

  // ----- Small scopes and plans -----

  function Entry(control: string, excludeRules: seq<string>): ControlEntry {
    ControlEntry(control, [], excludeRules, [], [])
  }

  function Listing(ids: seq<string>): Selection {
    Selection(false, Some(ids), None)
  }

  function StepOf(sels: seq<Selection>): StepValue {
    StepValue(Some(sels), None)
  }

  // A plan with one activity and no selections of its own.
  function PlanOf(a: ActivityValue): PlanValue {
    PlanValue([], Some([a]))
  }

  function Titled(rule: string, related: seq<Selection>, steps: seq<StepValue>): PlanValue {
    PlanOf(ActivityValue(rule, Some(related), steps, None))
  }

  lemma OneEntry(e: ControlEntry, c: string)
    ensures EntryOf([e], c) == if e.controlId == c then Some(e) else None
  {
    assert [e][..0] == [];
  }

  lemma TwoEntries(e: ControlEntry, f: ControlEntry, c: string)
    ensures EntryOf([e, f], c) == if f.controlId == c then Some(f) else EntryOf([e], c)
  {
    assert [e, f][..1] == [e];
  }

  lemma {:induction false} NoParametersOf(entries: seq<ControlEntry>, c: string)
    requires forall e :: e in entries ==> e.selectParameters == []
    ensures ParametersOf(entries, c) == None
  {
    if entries != [] {
      assert entries[|entries| - 1] in entries;
      NoParametersOf(entries[..|entries| - 1], c);
    }
  }

  // A run returns without an error when no parameters are selected and the activity keeps a
  // control in each of its selections, or loses no step.
  lemma RunApplies(scope: AssessmentScope, groups: RemarksGroups, a: ActivityValue)
    requires forall e :: e in scope.includeControls ==> e.selectParameters == []
    requires !LosesRelated(scope, a) || !LosesStep(scope, a)
    ensures ApplyScope(scope, groups, PlanOf(a)).Applied? && Returns(scope, groups, PlanOf(a), 0)
  {
    forall c, name
      ensures SelectedValue(scope, c, name) == None
    {
      NoParametersOf(scope.includeControls, c);
    }
    PanicsExactlyWhen(scope, groups, PlanOf(a));
    RunByActivity(scope, groups, PlanOf(a));
    assert PlanOf(a).activities.value == [a];
  }

  // ----- Removing a control from the scope adds controls -----

  // The rule is excluded for control a only; then a is removed from the scope.
  function Wide(rule: string, a: string, b: string): AssessmentScope {
    AssessmentScope("", [Entry(a, [rule]), Entry(b, [])], [], [])
  }

  function Tight(b: string): AssessmentScope {
    AssessmentScope("", [Entry(b, [])], [], [])
  }

  lemma WideAndTight(rule: string, a: string, b: string)
    requires a != b
    ensures Tighter(Wide(rule, a, b), Tight(b))
    ensures forall c :: Stays(Wide(rule, a, b), rule, c) <==> c != a
    ensures forall c :: Stays(Tight(b), rule, c)
    ensures forall c :: InScope(Wide(rule, a, b), c) <==> c == a || c == b
    ensures forall c :: InScope(Tight(b), c) <==> c == b
  {
    forall c
      ensures EntryOf(Tight(b).includeControls, c) == if c == b then Some(Entry(b, [])) else None
      ensures EntryOf(Wide(rule, a, b).includeControls, c) ==
              if c == b then Some(Entry(b, [])) else if c == a then Some(Entry(a, [rule])) else None
    {
      OneEntry(Entry(b, []), c);
      OneEntry(Entry(a, [rule]), c);
      TwoEntries(Entry(a, [rule]), Entry(b, []), c);
    }
    forall c
      ensures InScope(Wide(rule, a, b), c) <==> c == a || c == b
      ensures InScope(Tight(b), c) <==> c == b
    {
      EntryInScope(Wide(rule, a, b).includeControls, c);
      EntryInScope(Tight(b).includeControls, c);
    }
    assert rule in Entry(a, [rule]).excludeRules;
  }

  // An activity related to b alone keeps it under both scopes.
  lemma KeepsRelated(rule: string, a: string, b: string, steps: seq<StepValue>)
    requires a != b
    ensures var activity := ActivityValue(rule, Some([Listing([b])]), steps, None);
            !LosesRelated(Wide(rule, a, b), activity) && !LosesRelated(Tight(b), activity)
  {
    WideAndTight(rule, a, b);
    assert Lists(Listing([b]), b);
    assert b in Survivors(Wide(rule, a, b), rule, Listing([b]));
    assert b in Survivors(Tight(b), rule, Listing([b]));
  }

  lemma BothReturn(rule: string, a: string, b: string, groups: RemarksGroups, steps: seq<StepValue>)
    requires a != b
    ensures var p := Titled(rule, [Listing([b])], steps);
            && ApplyScope(Wide(rule, a, b), groups, p).Applied? && Returns(Wide(rule, a, b), groups, p, 0)
            && ApplyScope(Tight(b), groups, p).Applied? && Returns(Tight(b), groups, p, 0)
  {
    KeepsRelated(rule, a, b, steps);
    var activity := ActivityValue(rule, Some([Listing([b])]), steps, None);
    RunApplies(Wide(rule, a, b), groups, activity);
    RunApplies(Tight(b), groups, activity);
  }

  // Both runs return, and only the tighter scope leaves c in the activity's one step.
  ghost predicate StepGained(rule: string, a: string, b: string, groups: RemarksGroups, step: StepValue, c: string) {
    var s, t, p := Wide(rule, a, b), Tight(b), Titled(rule, [Listing([b])], [step]);
    && ApplyScope(s, groups, p).Applied? && Returns(s, groups, p, 0)
    && ApplyScope(t, groups, p).Applied? && Returns(t, groups, p, 0)
    && |Ran(s, groups, p, 0).steps| == 1 && !StepLists(Ran(s, groups, p, 0).steps[0], c)
    && |Ran(t, groups, p, 0).steps| == 1 && StepLists(Ran(t, groups, p, 0).steps[0], c)
  }

  lemma GainedInRuns(rule: string, a: string, b: string, groups: RemarksGroups, step: StepValue, c: string)
    requires rule != "" && a != b && Tighter(Wide(rule, a, b), Tight(b))
    requires StepGains(Wide(rule, a, b), Tight(b), rule, step, c)
    ensures StepGained(rule, a, b, groups, step, c)
  {
    var s, t, p := Wide(rule, a, b), Tight(b), Titled(rule, [Listing([b])], [step]);
    BothReturn(rule, a, b, groups, [step]);
    RanSteps(s, groups, p, 0);
    RanSteps(t, groups, p, 0);
    StepGainsExactly(s, t, groups, p, 0, 0, c);
  }

  // The removed control comes back to a step that includes both.
  lemma RemovalAddsToStep(rule: string, a: string, b: string, groups: RemarksGroups)
    requires rule != "" && a != b
    ensures Tighter(Wide(rule, a, b), Tight(b)) && StepGained(rule, a, b, groups, StepOf([Listing([a, b])]), a)
  {
    WideAndTight(rule, a, b);
    FilteredStep(rule, a, b);
    GainedInRuns(rule, a, b, groups, StepOf([Listing([a, b])]), a);
  }

  lemma FilteredStep(rule: string, a: string, b: string)
    requires a != b
    ensures StepGains(Wide(rule, a, b), Tight(b), rule, StepOf([Listing([a, b])]), a)
  {
    var sels := [Listing([a, b])];
    var step := StepOf(sels);
    WideAndTight(rule, a, b);
    assert step.reviewedControls.GetOr([]) == sels;
    assert a in sels[0].includeControls.GetOr([]) && b in sels[0].includeControls.GetOr([]);
    assert Includes(step, a);
  }

  // A step gains a control that was neither excluded nor removed: it is no longer emptied.
  lemma RemovalRevivesStep(rule: string, a: string, b: string, groups: RemarksGroups)
    requires rule != "" && a != b
    ensures Tighter(Wide(rule, a, b), Tight(b)) && Stays(Wide(rule, a, b), rule, b) && InScope(Tight(b), b)
    ensures StepGained(rule, a, b, groups, StepOf([Listing([a]), Listing([b])]), b)
  {
    WideAndTight(rule, a, b);
    RevivedStep(rule, a, b);
    GainedInRuns(rule, a, b, groups, StepOf([Listing([a]), Listing([b])]), b);
  }

  lemma RevivedStep(rule: string, a: string, b: string)
    requires a != b
    ensures StepGains(Wide(rule, a, b), Tight(b), rule, StepOf([Listing([a]), Listing([b])]), b)
  {
    var s, t := Wide(rule, a, b), Tight(b);
    var sels := [Listing([a]), Listing([b])];
    var step := StepOf(sels);
    WideAndTight(rule, a, b);
    assert step.reviewedControls.GetOr([]) == sels;
    assert NoneStays(s, rule, sels[0]);
    assert a in sels[0].includeControls.GetOr([]) && b in sels[1].includeControls.GetOr([]);
    assert LosesSelection(s, rule, step) && !LosesSelection(t, rule, step);
    assert Includes(step, b);
  }

  // An activity gets its related controls back.
  lemma RemovalAddsToActivity(rule: string, a: string, b: string, groups: RemarksGroups)
    requires rule != "" && a != b
    ensures var s, t, p := Wide(rule, a, b), Tight(b), Titled(rule, [Listing([b])], [StepOf([Listing([a])])]);
            && Tighter(s, t)
            && ApplyScope(s, groups, p).Applied? && Returns(s, groups, p, 0)
            && ApplyScope(t, groups, p).Applied? && Returns(t, groups, p, 0)
            && !ActivityLists(Ran(s, groups, p, 0), b) && ActivityLists(Ran(t, groups, p, 0), b)
  {
    var s, t, p := Wide(rule, a, b), Tight(b), Titled(rule, [Listing([b])], [StepOf([Listing([a])])]);
    WideAndTight(rule, a, b);
    BothReturn(rule, a, b, groups, [StepOf([Listing([a])])]);
    RevivedActivity(rule, a, b);
    ActivityGainsExactly(s, t, groups, p, 0, b);
  }

  lemma RevivedActivity(rule: string, a: string, b: string)
    requires rule != "" && a != b
    ensures ActivityGains(Wide(rule, a, b), Tight(b), Titled(rule, [Listing([b])],
                                                              [StepOf([Listing([a])])]).activities.value[0], b)
  {
    var s, t, step := Wide(rule, a, b), Tight(b), StepOf([Listing([a])]);
    var activity := ActivityValue(rule, Some([Listing([b])]), [step], None);
    WideAndTight(rule, a, b);
    KeepsRelated(rule, a, b, [step]);
    assert Listing([a]).includeControls.GetOr([]) == [a] && a in [a];
    assert NoneStays(s, rule, step.reviewedControls.value[0]);
    assert LosesSelection(s, rule, activity.steps[0]) && !LosesSelection(t, rule, activity.steps[0]);
    assert LosesStep(s, activity) && !LosesStep(t, activity);
    assert Lists(Listing([b]), b);
    assert b in Survivors(t, rule, activity.relatedControls.value[0]);
  }

  // ----- A globally excluded rule -----

  function Excluding(rule: string, a: string): AssessmentScope {
    AssessmentScope("", [Entry(a, [])], [rule], [])
  }

  // The rule is excluded globally, and the activity loses its related controls; but its step still
  // lists control z, which has no entry.
  lemma ExcludedRuleStaysInStep(rule: string, a: string, z: string, groups: RemarksGroups)
    requires rule != "" && a != z
    ensures var scope, p := Excluding(rule, a), Titled(rule, [Listing([a])], [StepOf([Listing([a, z])])]);
            && Names(scope.globalExcludeRules, rule)
            && ApplyScope(scope, groups, p).Applied? && Returns(scope, groups, p, 0)
            && !ActivityLists(Ran(scope, groups, p, 0), a) && !ExcludedForAll(Ran(scope, groups, p, 0))
            && |Ran(scope, groups, p, 0).steps| == 1 && StepLists(Ran(scope, groups, p, 0).steps[0], z)
  {
    var scope, step := Excluding(rule, a), StepOf([Listing([a, z])]);
    var p := Titled(rule, [Listing([a])], [step]);
    ListLeavesScope(rule, a, z);
    RunApplies(scope, groups, p.activities.value[0]);
    RanSteps(scope, groups, p, 0);
    ExcludedRuleInRun(scope, groups, p, 0, z);
    ExcludedRuleInRun(scope, groups, p, 0, a);
    assert StepLists(Ran(scope, groups, p, 0).steps[0], z);
  }

  lemma ListLeavesScope(rule: string, a: string, z: string)
    requires a != z
    ensures var scope, step := Excluding(rule, a), StepOf([Listing([a, z])]);
            && EveryListLeaves(scope, step) && Includes(step, z) && !InScope(scope, z)
            && !LosesStep(scope, ActivityValue(rule, Some([Listing([a])]), [step], None))
  {
    var scope, step := Excluding(rule, a), StepOf([Listing([a, z])]);
    OneEntry(Entry(a, []), z);
    EntryInScope(scope.includeControls, z);
    assert z in [a, z] && step.reviewedControls.GetOr([])[0].includeControls.GetOr([]) == [a, z];
    assert LeavesScope(scope, step.reviewedControls.GetOr([])[0]);
    LosesUnlessOutOfScope(scope, rule, step);
  }

  // ----- A waived rule -----

  // The scope selects a value for a parameter of control c and waives the rule, globally or for c.
  function Waiving(c: string, name: string, value: string, globally: seq<string>, forControl: seq<string>)
    : AssessmentScope
  {
    AssessmentScope("", [ControlEntry(c, [], [], forControl, [ParameterEntry(name, value)])], [], globally)
  }

  function WithParameter(rule: string, c: string, name: string, value: string): PlanValue {
    PlanOf(ActivityValue(rule, Some([Listing([c])]), [],
      Some([Property(name, value, TRESTLE_NAMESPACE, TEST_PARAMETER_CLASS, "")])))
  }

  lemma WaivingSelects(c: string, name: string, value: string, globally: seq<string>, forControl: seq<string>,
                       control: string, param: string)
    requires name != ""
    ensures var scope := Waiving(c, name, value, globally, forControl);
            SelectedValue(scope, control, param) == if control == c && param == name then Some(value) else None
  {
    var params := [ParameterEntry(name, value)];
    var entry := ControlEntry(c, [], [], forControl, params);
    assert params[..0] == [] && [entry][..0] == [];
    assert ParametersOf([entry], control) == if control == c then Some(params) else ParametersOf([], control);
    assert ValueIn(params, param) == if param == name then Some(value) else None;
  }

  lemma WaivingWaives(rule: string, c: string, name: string, value: string, globally: seq<string>,
                      forControl: seq<string>)
    requires rule != "" && (Names(globally, rule) || Names(forControl, rule))
    ensures var scope := Waiving(c, name, value, globally, forControl);
            && Survivors(scope, rule, Listing([c])) == {c} && !NoneInScope(scope, Listing([c]))
            && AnyWaived(scope, rule, [Listing([c])])
  {
    var scope := Waiving(c, name, value, globally, forControl);
    OneEntry(scope.includeControls[0], c);
    EntryInScope(scope.includeControls, c);
    assert Lists(Listing([c]), c) && Stays(scope, rule, c) && Waived(scope, rule, c);
    assert c in Survivors(scope, rule, [Listing([c])][0]) && c in ScopeControls(scope);
  }

  lemma WaivedRunApplies(rule: string, c: string, name: string, value: string, was: string, globally: seq<string>,
                         forControl: seq<string>, groups: RemarksGroups)
    requires rule != "" && name != "" && Params.Accepts(groups, name, value)
    requires Names(globally, rule) || Names(forControl, rule)
    ensures var scope, p := Waiving(c, name, value, globally, forControl), WithParameter(rule, c, name, was);
            ApplyScope(scope, groups, p).Applied? && Returns(scope, groups, p, 0)
  {
    var scope, p := Waiving(c, name, value, globally, forControl), WithParameter(rule, c, name, was);
    forall control, param
      ensures SelectedValue(scope, control, param).Some? ==>
                param == name && SelectedValue(scope, control, param) == Some(value)
    {
      WaivingSelects(c, name, value, globally, forControl, control, param);
    }
    PanicsExactlyWhen(scope, groups, p);
    RunByActivity(scope, groups, p);
  }

  lemma WaivedLeaves(rule: string, c: string, name: string, value: string, was: string, globally: seq<string>,
                     forControl: seq<string>)
    requires rule != "" && (Names(globally, rule) || Names(forControl, rule))
    ensures var scope, a := Waiving(c, name, value, globally, forControl),
                            WithParameter(rule, c, name, was).activities.value[0];
            LeftControls(scope, a) == [c] && WaivedActivity(scope, a)
  {
    var scope := Waiving(c, name, value, globally, forControl);
    var sels := [Listing([c])];
    WaivingWaives(rule, c, name, value, globally, forControl);
    assert sels[..0] == [] && LeftOfAll(scope, rule, sels[..0]) == [];
    LeftOfTitled(scope, rule, Listing([c]));
    assert StrictlyAscending([c]) && Elements([c]) == {c};
    AscendingUnique([c], Ascending({c}));
    assert LeftOfAll(scope, rule, sels) == [c];
  }

  // Whether it is waived globally or for its control: the activity is marked as waived, and its
  // test parameter is altered. "N/A" is acceptable for all component definitions.
  lemma WaivedParameterRewritten(rule: string, c: string, name: string, value: string, was: string,
                                 globally: seq<string>, forControl: seq<string>, groups: RemarksGroups)
    requires rule != "" && name != "" && value != "" && value != was
    requires Names(globally, rule) || Names(forControl, rule)
    requires Params.Accepts(groups, name, value)
    ensures var scope, p := Waiving(c, name, value, globally, forControl), WithParameter(rule, c, name, was);
            && ApplyScope(scope, groups, p).Applied? && Returns(scope, groups, p, 0)
            && WaivedCount(Ran(scope, groups, p, 0).props) > WaivedCount(p.activities.value[0].props)
            && !ParametersUnaltered(p.activities.value[0], Ran(scope, groups, p, 0))
  {
    var scope, p := Waiving(c, name, value, globally, forControl), WithParameter(rule, c, name, was);
    WaivedRunApplies(rule, c, name, value, was, globally, forControl, groups);
    WaivedLeaves(rule, c, name, value, was, globally, forControl);
    WaivedMarkerAppears(scope, groups, p, 0);
    WaivingSelects(c, name, value, globally, forControl, c, name);
    var a := p.activities.value[0];
    assert FirstMentions(scope, [c], 0, name);
    assert !Undisturbed(scope, [c], a.props.value[0]);
    PropertyKeptExactlyWhen(scope, groups, p, 0, 0);
  }

  // The rule is waived globally, but the entry of c includes only another rule.
  function WaivingOther(rule: string, other: string, c: string): AssessmentScope {
    AssessmentScope("", [ControlEntry(c, [other], [], [], [])], [], [rule])
  }

  // A global waiver does not take priority over an include list: the activity loses its control and
  // is not marked as waived.
  lemma IncludeListBeatsWaiver(rule: string, other: string, c: string, groups: RemarksGroups)
    requires rule != "" && other != rule && other != WILDCARD
    ensures var scope, p := WaivingOther(rule, other, c), Titled(rule, [Listing([c])], []);
            && Names(scope.globalWaiveRules, rule)
            && ApplyScope(scope, groups, p).Applied? && Returns(scope, groups, p, 0)
            && Ran(scope, groups, p, 0).relatedControls == None
            && WaivedCount(Ran(scope, groups, p, 0).props) == 0
  {
    var scope, p := WaivingOther(rule, other, c), Titled(rule, [Listing([c])], []);
    var a := p.activities.value[0];
    OneEntry(scope.includeControls[0], c);
    assert !Stays(scope, rule, c);
    assert Survivors(scope, rule, a.relatedControls.value[0]) == {};
    RunApplies(scope, groups, a);
    WaivedAtMost(scope, groups, p, 0);
    GloballyWaivedExactlyWhen(scope, groups, p, 0);
    ActivityAfterPasses(scope, a);
    RanByPasses(scope, groups, p, 0);
  }

  // ----- The generated scope and include-all -----

  // A step selection marked include-all, the list of which is nil.
  function AllControls(): Selection {
    Selection(true, None, None)
  }

  // The generated scope of a framework with a control lets an activity that relates to all controls
  // and has a step reviewing all controls end without any.
  lemma GeneratedScopeEmptiesStep(scope: AssessmentScope, framework: string, cds: seq<ComponentDefinition>,
                                  groups: RemarksGroups, rule: string)
    requires Generated(scope, framework, cds) && FrameworkControls(cds, framework) != {} && rule != ""
    ensures var p := Titled(rule, [AllControls()], [StepOf([AllControls()])]);
            && Returns(scope, groups, p, 0)
            && Ran(scope, groups, p, 0).relatedControls == Some([])
            && |Ran(scope, groups, p, 0).steps| == 1 && Ran(scope, groups, p, 0).steps[0].reviewedControls == None
  {
    var step := StepOf([AllControls()]);
    var p := Titled(rule, [AllControls()], [step]);
    AllControlsLeft(scope, framework, cds, rule);
    PanicsExactlyWhen(scope, groups, p);
    assert step.reviewedControls.value[0].includeControls.GetOr([]) == [];
    StepLosesAll(scope, groups, p, 0, 0, 0);
  }

  lemma AllControlsLeft(scope: AssessmentScope, framework: string, cds: seq<ComponentDefinition>, rule: string)
    requires Generated(scope, framework, cds) && FrameworkControls(cds, framework) != {}
    ensures EveryLeft(scope, rule, [AllControls()])
  {
    GeneratedScopeControls(scope, framework, cds);
    var c :| c in FrameworkControls(cds, framework);
    GeneratedKeepsRules(scope, framework, cds, rule, c);
    assert c in Survivors(scope, rule, AllControls());
  }

  // For every scope: a run that returns leaves neither the step nor the activity a control, once a
  // selection of the step has no include list, whether or not it is marked include-all.
  lemma StepLosesAll(scope: AssessmentScope, groups: RemarksGroups, p: PlanValue, i: nat, k: nat, j: nat)
    requires Returns(scope, groups, p, i) && p.activities.value[i].title != ""
    requires k < |p.activities.value[i].steps| && j < |p.activities.value[i].steps[k].reviewedControls.GetOr([])|
    requires p.activities.value[i].steps[k].reviewedControls.value[j].includeControls.GetOr([]) == []
    ensures Ran(scope, groups, p, i).relatedControls == Some([])
    ensures |Ran(scope, groups, p, i).steps| == |p.activities.value[i].steps|
    ensures Ran(scope, groups, p, i).steps[k].reviewedControls == None
  {
    var a := p.activities.value[i];
    assert NoneStays(scope, a.title, a.steps[k].reviewedControls.value[j]);
    StepEmptiedMeaning(scope, a.title, a.steps[k]);
    ActivityAfterPasses(scope, a);
    RanByPasses(scope, groups, p, i);
    RanStep(scope, groups, p, i, k);
  }

  // ----- A control that is deleted from the scope -----

  // Under the empty scope the step still lists its control.
  lemma DeletedControlStaysInStep(rule: string, c: string, groups: RemarksGroups)
    requires rule != ""
    ensures var scope := AssessmentScope("", [], [], []);
            var p := PlanOf(ActivityValue(rule, None, [StepOf([Listing([c])])], None));
            && !InScope(scope, c)
            && ApplyScope(scope, groups, p).Applied? && Returns(scope, groups, p, 0)
            && |Ran(scope, groups, p, 0).steps| == 1 && StepLists(Ran(scope, groups, p, 0).steps[0], c)
            && !Absent(ApplyScope(scope, groups, p).plan, c)
  {
    var scope, step := AssessmentScope("", [], [], []), StepOf([Listing([c])]);
    var p := PlanOf(ActivityValue(rule, None, [step], None));
    UnscopedStep(rule, c);
    RunApplies(scope, groups, p.activities.value[0]);
    UnscopedInRun(scope, groups, p, 0, c);
    AbsentExactlyWhen(scope, groups, p, c);
  }

  lemma UnscopedStep(rule: string, c: string)
    requires rule != ""
    ensures var scope, step := AssessmentScope("", [], [], []), StepOf([Listing([c])]);
            && StepKeepsUnscoped(scope, rule, step, c)
            && !LosesStep(scope, ActivityValue(rule, None, [step], None))
  {
    var step := StepOf([Listing([c])]);
    assert step.reviewedControls.GetOr([])[0].includeControls.GetOr([]) == [c] && c in [c];
    assert Includes(step, c);
  }

  // Only c is in scope: the activity is marked as skipped and loses c too, for its other selection.
  lemma SkippedWithControlInScope(rule: string, c: string, d: string, groups: RemarksGroups)
    requires rule != "" && c != d
    ensures var scope, p := Tight(c), Titled(rule, [Listing([c]), Listing([d])], []);
            && InScope(scope, c) && Stays(scope, rule, c)
            && ApplyScope(scope, groups, p).Applied? && Returns(scope, groups, p, 0)
            && SkippedCount(Ran(scope, groups, p, 0).props) > SkippedCount(p.activities.value[0].props)
            && Ran(scope, groups, p, 0).relatedControls == None
  {
    var scope, p := Tight(c), Titled(rule, [Listing([c]), Listing([d])], []);
    WideAndTight(rule, d, c);
    assert LeftOf(scope, rule, p.activities.value[0].relatedControls.value[1]) == {};
    RunApplies(scope, groups, p.activities.value[0]);
    SkippedMarkerAppears(scope, groups, p, 0);
    SkippedLosesRelated(scope, groups, p, 0);
  }
}
