/** Whole runs with the generated scope: when they panic, when the engine rejects the values the
    generator selects, and when they leave the plan as it is. */
module GeneratedRuns {
  import opened Wrappers
  import opened Ordering
  import opened Oscal
  import opened ComponentDefinitions
  import Params = ParameterSelection
  import opened ScopeRules
  import opened ScopeTheorems
  import opened ScopeLaws
  import opened ParameterRuns
  import opened DefaultSettings
  import opened ScopeGenerator
  import opened GeneratedScope

  // ===== The values the generated scope selects =====

  lemma {:induction false} SetValuesGiven(sps: seq<SetParameter>, param: string)
    ensures SetValues(sps, param).Some? ==> SetValues(sps, param).value != [] && param != ""
  {
    if sps != [] {
      SetValuesGiven(sps[..|sps| - 1], param);
    }
  }

  // Only parameters with a name, of implemented controls, are set, and to at least one value.
  lemma {:induction false} SettingGiven(cis: seq<ControlImplementation>, framework: string, groups: RemarksGroups,
                                        control: string, param: string)
    ensures Setting(cis, framework, groups, control, param).Some? ==>
              && Setting(cis, framework, groups, control, param).value != []
              && param != "" && Implemented(cis, framework, control)
  {
    if cis != [] {
      var init, last := cis[..|cis| - 1], cis[|cis| - 1];
      SettingGiven(init, framework, groups, control, param);
      SetValuesGiven(last.setParameters, param);
      assert forall ci :: ci in init ==> ci in cis;
      if last.framework == Some(framework) && Sets(last, groups, control, param).Some? {
        assert Requires(last, framework, control);
        assert last in cis;
      }
    }
  }

  // The first of the values set for a parameter of a control.
  ghost function FirstSetting(cds: seq<ComponentDefinition>, framework: string, control: string, param: string)
    : Option<string>
  {
    SettingGiven(AllImplementations(cds), framework, Groups(cds), control, param);
    match SettingIn(cds, framework, control, param)
    case None => None
    case Some(values) => Some(values[0])
  }

  // A control without any setting gets a placeholder instead.
  ghost function DefaultValue(cds: seq<ComponentDefinition>, framework: string, control: string, param: string)
    : Option<string>
  {
    if FirstSetting(cds, framework, control, param).Some? then
      FirstSetting(cds, framework, control, param)
    else if control in FrameworkControls(cds, framework) && param == Params.NOT_APPLICABLE &&
            forall name :: FirstSetting(cds, framework, control, name) == None then
      Some(Params.NOT_APPLICABLE)
    else
      None
  }

  // ----- Look-up in one entry -----

  lemma {:induction false} ValueInAbsent(params: seq<ParameterEntry>, name: string)
    requires forall x :: x in params ==> x.name != name
    ensures ValueIn(params, name) == None
  {
    if params != [] {
      assert params[|params| - 1] in params;
      ValueInAbsent(params[..|params| - 1], name);
    }
  }

  lemma {:induction false} ValueInDistinct(params: seq<ParameterEntry>, k: nat)
    requires DistinctNames(params) && k < |params| && params[k].name != ""
    ensures ValueIn(params, params[k].name) == Some(params[k].value)
  {
    var init, last := params[..|params| - 1], params[|params| - 1];
    if k < |params| - 1 {
      assert init[k] == params[k] && params[k].name != last.name;
      assert forall i :: 0 <= i < |init| ==> init[i] == params[i];
      ValueInDistinct(init, k);
    }
  }

  lemma SettingsLookedUp(params: seq<ParameterEntry>, setting: string -> Option<seq<string>>, name: string)
    requires ListsSettings(params, setting) && setting("") == None
    requires setting(name).Some? ==> setting(name).value != []
    ensures params != []
    ensures ValueIn(params, name) ==
            if setting(name).Some? then Some(setting(name).value[0])
            else if name == Params.NOT_APPLICABLE && forall n :: setting(n) == None then Some(Params.NOT_APPLICABLE)
            else None
  {
    if forall n :: setting(n) == None {
      assert NO_PARAMETERS[..0] == [] && ValueIn(NO_PARAMETERS[..0], name) == None;
    } else if x :| x in params && x.name == name {
      var k :| 0 <= k < |params| && params[k] == x;
      ValueInDistinct(params, k);
    } else {
      ValueInAbsent(params, name);
    }
  }

  // ----- Look-up among the entries -----

  lemma {:induction false} ParametersOfDistinct(entries: seq<ControlEntry>, control: string)
    requires forall i, j :: 0 <= i < j < |entries| ==> entries[i].controlId != entries[j].controlId
    requires forall e :: e in entries ==> e.selectParameters != []
    ensures forall e :: e in entries && e.controlId == control ==>
              ParametersOf(entries, control) == Some(e.selectParameters)
    ensures (forall e :: e in entries ==> e.controlId != control) ==> ParametersOf(entries, control) == None
  {
    if entries != [] {
      var init, last := entries[..|entries| - 1], entries[|entries| - 1];
      assert entries == init + [last];
      assert forall e :: e in entries <==> e in init || e == last;
      ParametersOfDistinct(init, control);
      forall e | e in init
        ensures e.controlId != last.controlId
      {
        var i :| 0 <= i < |init| && init[i] == e;
        assert entries[i].controlId != entries[|entries| - 1].controlId;
      }
    }
  }

  lemma GeneratedEntries(scope: AssessmentScope, framework: string, cds: seq<ComponentDefinition>)
    requires Generated(scope, framework, cds)
    ensures var entries := scope.includeControls;
            forall i, j :: 0 <= i < j < |entries| ==> entries[i].controlId != entries[j].controlId
    ensures forall e :: e in scope.includeControls ==> e.selectParameters != []
  {
    var ids := Ids(scope.includeControls);
    forall i, j | 0 <= i < j < |ids|
      ensures ids[i] != ids[j]
    {
      LessIrreflexive(ids[i]);
    }
    forall e | e in scope.includeControls
      ensures e.selectParameters != []
    {
      EntrySelects(e, framework, cds, "");
    }
  }

  lemma EntrySelects(e: ControlEntry, framework: string, cds: seq<ComponentDefinition>, name: string)
    requires IsDefaultEntry(e, cds, framework)
    ensures e.selectParameters != []
    ensures e.controlId in FrameworkControls(cds, framework) ==>
              ValueIn(e.selectParameters, name) == DefaultValue(cds, framework, e.controlId, name)
  {
    var setting := n => SettingIn(cds, framework, e.controlId, n);
    SettingGiven(AllImplementations(cds), framework, Groups(cds), e.controlId, "");
    SettingGiven(AllImplementations(cds), framework, Groups(cds), e.controlId, name);
    SettingsLookedUp(e.selectParameters, setting, name);
    assert forall n :: setting(n) == None <==> FirstSetting(cds, framework, e.controlId, n) == None;
  }

  // The scope's value for a parameter of a control is the default value.
  lemma GeneratedSelects(scope: AssessmentScope, framework: string, cds: seq<ComponentDefinition>,
                         control: string, param: string)
    requires Generated(scope, framework, cds)
    ensures SelectedValue(scope, control, param) == DefaultValue(cds, framework, control, param)
  {
    GeneratedScopeControls(scope, framework, cds);
    GeneratedEntries(scope, framework, cds);
    ParametersOfDistinct(scope.includeControls, control);
    if control in ScopeControls(scope) {
      var e :| e in scope.includeControls && e.controlId == control;
      EntrySelects(e, framework, cds, param);
    } else {
      SettingGiven(AllImplementations(cds), framework, Groups(cds), control, param);
      assert forall e :: e in scope.includeControls ==> e.controlId in ScopeControls(scope);
    }
  }

  // By positions: the last implementation that sets the parameter, and its last set-parameter with
  // the name and values, give the value.
  lemma LastSettingSelects(scope: AssessmentScope, framework: string, cds: seq<ComponentDefinition>,
                           control: string, param: string, i: int, j: int, k: int, n: int)
    requires Generated(scope, framework, cds) && LastSetting(cds, framework, control, param, i, j, k)
    requires LastGiven(cds[i].components[j].controlImplementations[k].setParameters, param, n)
    ensures SelectedValue(scope, control, param) ==
            Some(cds[i].components[j].controlImplementations[k].setParameters[n].values[0])
  {
    var ci := cds[i].components[j].controlImplementations[k];
    GeneratedSelects(scope, framework, cds, control, param);
    SettingMeaning(cds, framework, control, param);
    SetsMeaning(ci, Groups(cds), control, param, ci.setParameters[n].values);
    assert exists m, remarks :: LinkedAt(ci, Groups(cds), control, param, m, remarks) by {
      SetsMeaning(ci, Groups(cds), control, param, Sets(ci, Groups(cds), control, param).value);
    }
  }

  // ===== Verdicts =====

  ghost predicate Acceptable(groups: RemarksGroups, param: string, value: Option<string>) {
    value.Some? ==> Params.Accepts(groups, param, value.value)
  }

  // Every first value set for an implemented control is acceptable.
  ghost predicate SettingsAcceptable(cds: seq<ComponentDefinition>, framework: string, groups: RemarksGroups) {
    forall c, p :: Acceptable(groups, p, FirstSetting(cds, framework, c, p))
  }

  // The placeholder is always acceptable.
  lemma DefaultAcceptable(cds: seq<ComponentDefinition>, framework: string, groups: RemarksGroups,
                          control: string, param: string)
    ensures Acceptable(groups, param, DefaultValue(cds, framework, control, param)) <==>
            Acceptable(groups, param, FirstSetting(cds, framework, control, param))
  {
  }

  // The engine accepts the generator's values if and only if these settings are acceptable: the
  // generator does not look at alternatives.
  lemma GeneratedValidExactlyWhen(scope: AssessmentScope, framework: string, cds: seq<ComponentDefinition>,
                                  groups: RemarksGroups)
    requires Generated(scope, framework, cds)
    ensures ParametersValid(scope, groups) <==> SettingsAcceptable(cds, framework, groups)
  {
    forall c, p
      ensures Acceptable(groups, p, SelectedValue(scope, c, p)) <==>
              Acceptable(groups, p, FirstSetting(cds, framework, c, p))
    {
      GeneratedSelects(scope, framework, cds, c, p);
      DefaultAcceptable(cds, framework, groups, c, p);
    }
    if SettingsAcceptable(cds, framework, groups) {
      forall c, p | SelectedValue(scope, c, p).Some?
        ensures Params.Accepts(groups, p, SelectedValue(scope, c, p).value)
      {
        assert Acceptable(groups, p, FirstSetting(cds, framework, c, p));
      }
    }
    if ParametersValid(scope, groups) {
      forall c, p
        ensures Acceptable(groups, p, FirstSetting(cds, framework, c, p))
      {
        assert Acceptable(groups, p, SelectedValue(scope, c, p));
      }
    }
  }

  // A titled activity with a step selection that has no include list, and without related controls
  // or with a selection of which no control is implemented.
  ghost predicate DefaultPanics(a: ActivityValue, implemented: set<string>) {
    && a.title != ""
    && (exists k :: 0 <= k < |a.steps| && !StepSound(a.steps[k]))
    && (a.relatedControls.None? ||
        exists n :: 0 <= n < |a.relatedControls.value| &&
                    Meant(a.relatedControls.value[n], implemented) * implemented == {})
  }

  ghost predicate AnyDefaultPanics(p: PlanValue, implemented: set<string>) {
    p.activities.Some? &&
    exists i :: 0 <= i < |p.activities.value| && DefaultPanics(p.activities.value[i], implemented)
  }

  lemma SurvivorsAreMeant(scope: AssessmentScope, framework: string, cds: seq<ComponentDefinition>,
                          rule: string, s: Selection)
    requires Generated(scope, framework, cds)
    ensures Survivors(scope, rule, s) == Meant(s, ScopeControls(scope)) * ScopeControls(scope)
    ensures LeftOf(scope, rule, s) == Meant(s, ScopeControls(scope)) * ScopeControls(scope)
  {
    forall c | c in ScopeControls(scope)
      ensures Stays(scope, rule, c)
    {
      GeneratedKeepsRules(scope, framework, cds, rule, c);
    }
  }

  lemma DefaultPanicsIsPanics(scope: AssessmentScope, framework: string, cds: seq<ComponentDefinition>,
                              a: ActivityValue)
    requires Generated(scope, framework, cds)
    ensures Panics(scope, a) <==> DefaultPanics(a, ScopeControls(scope))
  {
    AnyStepEmptiedIsLosesStep(scope, a);
    StepsKeptExactlyWhen(scope, framework, cds, a.title, a.steps);
    if a.relatedControls.Some? {
      var sels := a.relatedControls.value;
      forall n | 0 <= n < |sels|
        ensures Survivors(scope, a.title, sels[n]) == {} <==>
                Meant(sels[n], ScopeControls(scope)) * ScopeControls(scope) == {}
      {
        SurvivorsAreMeant(scope, framework, cds, a.title, sels[n]);
      }
    }
  }

  // The outcome of a run with the generated scope, for every plan and whatever definitions the
  // values are validated against.
  lemma DefaultOutcome(scope: AssessmentScope, framework: string, cds: seq<ComponentDefinition>,
                       groups: RemarksGroups, p: PlanValue)
    requires Generated(scope, framework, cds)
    ensures var panics := AnyDefaultPanics(p, FrameworkControls(cds, framework));
            && (ApplyScope(scope, groups, p).NilDereference? <==> panics)
            && (ApplyScope(scope, groups, p).Rejected? <==>
                !panics && p.activities.Some? && !SettingsAcceptable(cds, framework, groups))
            && (ApplyScope(scope, groups, p).Applied? <==>
                !panics && (p.activities.None? || SettingsAcceptable(cds, framework, groups)))
  {
    GeneratedScopeControls(scope, framework, cds);
    GeneratedValidExactlyWhen(scope, framework, cds, groups);
    PanicsExactlyWhen(scope, groups, p);
    RunByActivity(scope, groups, p);
    if p.activities.Some? {
      forall i | 0 <= i < |p.activities.value|
        ensures Panics(scope, p.activities.value[i]) <==>
                DefaultPanics(p.activities.value[i], ScopeControls(scope))
      {
        DefaultPanicsIsPanics(scope, framework, cds, p.activities.value[i]);
      }
    }
  }

  // ===== A no-op, parameters included =====

  // The controls the selections mean, each selection sorted.
  ghost function MeantAll(sels: seq<Selection>, implemented: set<string>): seq<string> {
    if sels == [] then [] else
      MeantAll(sels[..|sels| - 1], implemented) + Ascending(Meant(sels[|sels| - 1], implemented))
  }

  ghost predicate FirstDefaults(cds: seq<ComponentDefinition>, framework: string, ids: seq<string>, k: int,
                                name: string) {
    && 0 <= k < |ids| && DefaultValue(cds, framework, ids[k], name).Some?
    && forall m :: 0 <= m < k ==> DefaultValue(cds, framework, ids[m], name) == None
  }

  // A test parameter has the default value of the first of the controls with one, unless that is
  // empty or there is none.
  ghost predicate HasDefault(cds: seq<ComponentDefinition>, framework: string, ids: seq<string>, prop: Property) {
    prop.class_ == TEST_PARAMETER_CLASS ==>
      forall k :: FirstDefaults(cds, framework, ids, k, prop.name) ==>
        var v := DefaultValue(cds, framework, ids[k], prop.name).value;
        v == "" || v == prop.value
  }

  ghost predicate HasDefaults(cds: seq<ComponentDefinition>, framework: string, a: ActivityValue) {
    var ids := MeantAll(a.relatedControls.GetOr([]), FrameworkControls(cds, framework));
    forall j :: 0 <= j < |a.props.GetOr([])| ==> HasDefault(cds, framework, ids, a.props.GetOr([])[j])
  }

  lemma {:induction false} LeftAreMeant(scope: AssessmentScope, framework: string, cds: seq<ComponentDefinition>,
                                        rule: string, sels: seq<Selection>)
    requires Generated(scope, framework, cds) && AllSound(sels, ScopeControls(scope))
    ensures LeftOfAll(scope, rule, sels) == MeantAll(sels, ScopeControls(scope))
    ensures !SomeNotLeft(scope, rule, sels)
  {
    forall n | 0 <= n < |sels|
      ensures LeftOf(scope, rule, sels[n]) == Meant(sels[n], ScopeControls(scope)) != {}
    {
      SurvivorsAreMeant(scope, framework, cds, rule, sels[n]);
      assert Sound(sels[n], ScopeControls(scope));
    }
    if sels != [] {
      var init := sels[..|sels| - 1];
      assert forall n :: 0 <= n < |init| ==> init[n] == sels[n];
      LeftAreMeant(scope, framework, cds, rule, init);
    }
  }

  lemma SoundLeft(scope: AssessmentScope, framework: string, cds: seq<ComponentDefinition>, a: ActivityValue)
    requires Generated(scope, framework, cds) && ActivitySound(a, ScopeControls(scope))
    ensures LeftControls(scope, a) == MeantAll(a.relatedControls.GetOr([]), ScopeControls(scope))
  {
    AnyStepEmptiedIsLosesStep(scope, a);
    StepsKeptExactlyWhen(scope, framework, cds, a.title, a.steps);
    if a.relatedControls.Some? {
      assert a.relatedControls.GetOr([]) == a.relatedControls.value;
      LeftAreMeant(scope, framework, cds, a.title, a.relatedControls.value);
    }
  }

  lemma DefaultsUndisturbed(scope: AssessmentScope, framework: string, cds: seq<ComponentDefinition>,
                            a: ActivityValue)
    requires Generated(scope, framework, cds) && ActivitySound(a, ScopeControls(scope))
    ensures AllUndisturbed(scope, a) <==> HasDefaults(cds, framework, a)
  {
    GeneratedScopeControls(scope, framework, cds);
    SoundLeft(scope, framework, cds, a);
    forall j | 0 <= j < |a.props.GetOr([])|
      ensures Undisturbed(scope, LeftControls(scope, a), a.props.GetOr([])[j]) <==>
              HasDefault(cds, framework, LeftControls(scope, a), a.props.GetOr([])[j])
    {
      DefaultUndisturbed(scope, framework, cds, LeftControls(scope, a), a.props.GetOr([])[j]);
    }
  }

  lemma DefaultUndisturbed(scope: AssessmentScope, framework: string, cds: seq<ComponentDefinition>,
                           ids: seq<string>, prop: Property)
    requires Generated(scope, framework, cds)
    ensures Undisturbed(scope, ids, prop) <==> HasDefault(cds, framework, ids, prop)
  {
    forall c
      ensures SelectedValue(scope, c, prop.name) == DefaultValue(cds, framework, c, prop.name)
    {
      GeneratedSelects(scope, framework, cds, c, prop.name);
    }
    assert forall k :: FirstMentions(scope, ids, k, prop.name) <==> FirstDefaults(cds, framework, ids, k, prop.name);
  }

  // The run leaves an activity alone exactly when the first two passes do and no property changes.
  lemma RanUntouched(scope: AssessmentScope, groups: RemarksGroups, p: PlanValue, i: nat, implemented: set<string>)
    requires Returns(scope, groups, p, i)
    ensures TwoPasses(scope, p.activities.value[i]).Some?
    ensures ActivityUntouched(p.activities.value[i], Ran(scope, groups, p, i), implemented) <==>
            ActivityUntouched(p.activities.value[i], TwoPasses(scope, p.activities.value[i]).value, implemented) &&
            ParametersUnaltered(p.activities.value[i], Ran(scope, groups, p, i))
  {
    RunByActivity(scope, groups, p);
    var a, r := p.activities.value[i], Ran(scope, groups, p, i);
    var b := TwoPasses(scope, a).value;
    assert r == b.(props := r.props) && (r.props.None? <==> b.props.None?);
    if a.props.Some? {
      PassesKeepProps(scope, a, b);
      assert |r.props.value| == |b.props.value|;
      if |b.props.value| == |a.props.value| {
        assert b.props.value == a.props.value;
        if ParametersUnaltered(a, r) {
          assert r.props.value == a.props.value;
        }
      }
    }
  }

  lemma ActivityIsNoOp(scope: AssessmentScope, framework: string, cds: seq<ComponentDefinition>,
                       groups: RemarksGroups, p: PlanValue, i: nat)
    requires Generated(scope, framework, cds)
    requires ApplyScope(scope, groups, p).Applied? && Returns(scope, groups, p, i)
    ensures ActivityUntouched(p.activities.value[i], Ran(scope, groups, p, i), FrameworkControls(cds, framework)) <==>
            ActivitySound(p.activities.value[i], FrameworkControls(cds, framework)) &&
            HasDefaults(cds, framework, p.activities.value[i])
  {
    var a := p.activities.value[i];
    GeneratedScopeControls(scope, framework, cds);
    RanUntouched(scope, groups, p, i, ScopeControls(scope));
    ActivityUnscoped(scope, framework, cds, a);
    ActivityUnalteredExactlyWhen(scope, groups, p, i);
    if ActivitySound(a, ScopeControls(scope)) {
      DefaultsUndisturbed(scope, framework, cds, a);
    }
  }

  lemma SoundNeverPanics(a: ActivityValue, implemented: set<string>)
    requires ActivitySound(a, implemented)
    ensures !DefaultPanics(a, implemented)
  {
  }

  // A run with the generated scope returns without an error and leaves the plan as it is, values of
  // parameters included, if and only if the plan is sound, the settings are acceptable, and the
  // test parameters have their default values already.
  lemma DefaultRunIsNoOp(scope: AssessmentScope, framework: string, cds: seq<ComponentDefinition>,
                         groups: RemarksGroups, p: PlanValue)
    requires Generated(scope, framework, cds)
    ensures (ApplyScope(scope, groups, p).Applied? &&
             PlanUntouched(p, ApplyScope(scope, groups, p).plan, FrameworkControls(cds, framework))) <==>
            && PlanSound(p, FrameworkControls(cds, framework))
            && (p.activities.Some? ==>
                  SettingsAcceptable(cds, framework, groups) &&
                  forall i :: 0 <= i < |p.activities.value| ==> HasDefaults(cds, framework, p.activities.value[i]))
  {
    var implemented := FrameworkControls(cds, framework);
    GeneratedScopeControls(scope, framework, cds);
    DefaultOutcome(scope, framework, cds, groups, p);
    if PlanSound(p, implemented) && p.activities.Some? {
      forall i | 0 <= i < |p.activities.value|
        ensures !DefaultPanics(p.activities.value[i], implemented)
      {
        SoundNeverPanics(p.activities.value[i], implemented);
      }
    }
    if ApplyScope(scope, groups, p).Applied? {
      RunByActivity(scope, groups, p);
      RestrictAllSound(p.reviewedControls, implemented);
      if p.activities.Some? {
        forall i | 0 <= i < |p.activities.value|
          ensures ActivityUntouched(p.activities.value[i], ApplyScope(scope, groups, p).plan.activities.value[i],
                                    implemented) <==>
                  ActivitySound(p.activities.value[i], implemented) &&
                  HasDefaults(cds, framework, p.activities.value[i])
        {
          assert Returns(scope, groups, p, i);
          ActivityIsNoOp(scope, framework, cds, groups, p, i);
        }
      }
    }
  }
}
