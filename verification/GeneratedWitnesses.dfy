/** A component definition the generated scope of which the engine refuses, or with which it
    overwrites a parameter. */
module GeneratedWitnesses {
  import opened Wrappers
  import opened Ordering
  import opened Oscal
  import opened ComponentDefinitions
  import opened ParameterAlternatives
  import opened ScopeRules
  import opened ScopeLaws
  import opened ParameterRuns
  import opened DefaultSettings
  import opened ScopeGenerator
  import opened GeneratedScope
  import opened GeneratedRuns
  import opened ScopeWitnesses

  // ----- The definition -----

  // A rule, a parameter and the parameter's one alternative, in one remarks group.
  function GroupProps(rule: string, param: string, key: string, remarks: string): seq<Property> {
    [Property(RULE_ID_PROP, rule, TRESTLE_NAMESPACE, "", remarks),
     Property(PARAMETER_ID_PROP, param, TRESTLE_NAMESPACE, "", remarks),
     Property(Params.ALTERNATIVES_PROP, Render([Choice(key, Double, "\"\"")]), TRESTLE_NAMESPACE, "", remarks)]
  }

  function RequirementOf(control: string, rule: string): ImplementedRequirement {
    ImplementedRequirement(control, [Property(RULE_ID_PROP, rule, TRESTLE_NAMESPACE, "", "")])
  }

  // The framework's one implementation requires the control and sets the parameter.
  function ImplementationOf(framework: string, control: string, rule: string, param: string, value: string)
    : ControlImplementation
  {
    ControlImplementation(Some(framework), [SetParameter(param, [value])], [RequirementOf(control, rule)])
  }

  function Definitions(framework: string, control: string, rule: string, param: string, key: string, value: string,
                       remarks: string): seq<ComponentDefinition>
  {
    [ComponentDefinition([Component(GroupProps(rule, param, key, remarks),
                                    [ImplementationOf(framework, control, rule, param, value)])])]
  }

  lemma OneImplementation(framework: string, control: string, rule: string, param: string, key: string,
                          value: string, remarks: string)
    ensures AllImplementations(Definitions(framework, control, rule, param, key, value, remarks)) ==
            [ImplementationOf(framework, control, rule, param, value)]
  {
    var cds := Definitions(framework, control, rule, param, key, value, remarks);
    var components := cds[0].components;
    assert cds[..0] == [] && components[..0] == [];
    assert ImplementationsOf(components) == [] + components[0].controlImplementations;
    assert AllImplementations(cds) == [] + ImplementationsOf(components);
  }

  lemma {:induction false} SameRemarks(props: seq<Property>, remarks: string, other: string)
    requires forall p :: p in props ==> p.remarks == remarks
    ensures WithRemarks(props, remarks) == props
    ensures other != remarks ==> WithRemarks(props, other) == []
  {
    if props != [] {
      assert props[|props| - 1] in props;
      SameRemarks(props[..|props| - 1], remarks, other);
      assert props == props[..|props| - 1] + [props[|props| - 1]];
    }
  }

  lemma OneGroup(framework: string, control: string, rule: string, param: string, key: string,
                 value: string, remarks: string)
    requires remarks != ""
    ensures var groups := Groups(Definitions(framework, control, rule, param, key, value, remarks));
            && (forall g :: g in groups <==> g == remarks)
            && groups[remarks] == GroupProps(rule, param, key, remarks)
  {
    var cds := Definitions(framework, control, rule, param, key, value, remarks);
    var components, props := cds[0].components, GroupProps(rule, param, key, remarks);
    assert cds[..0] == [] && components[..0] == [];
    assert PropsOfComponents(components) == [] + props;
    assert AllProps(cds) == [] + props == props;
    forall g
      ensures g in GroupsOf(props) <==> g == remarks
      ensures g == remarks ==> GroupsOf(props)[g] == props
    {
      SameRemarks(props, remarks, g);
      GroupContents(props, g);
    }
  }

  lemma OneAlternative(rule: string, param: string, key: string, remarks: string)
    requires Plain(key) && Unquoted(key)
    ensures Params.GroupAlternatives(GroupProps(rule, param, key, remarks), param) == [key]
  {
    var props := GroupProps(rule, param, key, remarks);
    assert RULE_ID_PROP[0] == 'R' && PARAMETER_ID_PROP[0] == 'P';
    assert !Params.IsParameterIdProperty(RULE_ID_PROP);
    assert Params.First(props, Params.Names(param)) == Some(props[1]) by {
      assert props[1..][0] == props[1];
    }
    assert Params.AlternativesName(PARAMETER_ID_PROP) == Params.ALTERNATIVES_PROP;
    assert RULE_ID_PROP != Params.ALTERNATIVES_PROP && |PARAMETER_ID_PROP| < |Params.ALTERNATIVES_PROP|;
    ThirdIsFirst(props, Params.Named(Params.ALTERNATIVES_PROP));
    var choices := [Choice(key, Double, "\"\"")];
    ParseInverse(choices);
    assert KeysOf(choices) == [key];
    assert Dedup([key]) == [key];
  }

  lemma ThirdIsFirst(props: seq<Property>, p: Property -> bool)
    requires |props| == 3 && !p(props[0]) && !p(props[1]) && p(props[2])
    ensures Params.First(props, p) == Some(props[2])
  {
    assert props[1..][0] == props[1] && props[1..][1..][0] == props[2];
    assert Params.First(props[1..][1..], p) == Some(props[2]);
    assert Params.First(props[1..], p) == Some(props[2]);
  }

  // The parameter accepts its key, the empty value and "N/A".
  lemma OnlyKeyAccepted(framework: string, control: string, rule: string, param: string, key: string,
                        value: string, remarks: string)
    requires remarks != "" && Plain(key) && Unquoted(key)
    ensures Params.Accepts(Groups(Definitions(framework, control, rule, param, key, value, remarks)), param, value) <==>
            value == key || value == "" || value == Params.NOT_APPLICABLE
  {
    var groups := Groups(Definitions(framework, control, rule, param, key, value, remarks));
    OneGroup(framework, control, rule, param, key, value, remarks);
    OneAlternative(rule, param, key, remarks);
    assert remarks in groups && key in Params.GroupAlternatives(groups[remarks], param);
    assert Params.IsAlternative(groups, param, key);
  }

  // ----- What the generator selects -----

  lemma RuleOfGroup(rule: string, param: string, key: string, remarks: string)
    ensures GroupRule(GroupProps(rule, param, key, remarks)) == rule
    ensures forall name :: GroupHasParameter(GroupProps(rule, param, key, remarks), name) <==> name == param
  {
    var props := GroupProps(rule, param, key, remarks);
    assert RULE_ID_PROP[0] == 'R' && PARAMETER_ID_PROP[0] == 'P' && Params.ALTERNATIVES_PROP[0] == 'P';
    assert PARAMETER_ID_PROP[10] == 'I' && Params.ALTERNATIVES_PROP[10] == 'V';
    assert !Params.IsParameterIdProperty(RULE_ID_PROP) && !Params.IsParameterIdProperty(Params.ALTERNATIVES_PROP);
    var two := props[..2];
    assert two[..1] == [props[0]] && GroupRule(two[..1]) == rule;
    assert GroupRule(two) == GroupRule(two[..1]);
    assert GroupRule(props) == GroupRule(two);
    assert props[1] in props;
  }

  lemma OneSetting(framework: string, control: string, rule: string, param: string, key: string,
                   value: string, remarks: string, c: string, name: string)
    requires remarks != "" && control != "" && rule != "" && param != ""
    ensures SettingIn(Definitions(framework, control, rule, param, key, value, remarks), framework, c, name) ==
            if c == control && name == param then Some([value]) else None
  {
    var cds := Definitions(framework, control, rule, param, key, value, remarks);
    var ci := ImplementationOf(framework, control, rule, param, value);
    OneImplementation(framework, control, rule, param, key, value, remarks);
    assert [ci][..0] == [];
    assert Setting([ci][..0], framework, Groups(cds), c, name) == None;
    OneSets(framework, control, rule, param, key, value, remarks, c, name);
  }

  lemma OneSets(framework: string, control: string, rule: string, param: string, key: string,
                value: string, remarks: string, c: string, name: string)
    requires remarks != "" && control != "" && rule != "" && param != ""
    ensures Sets(ImplementationOf(framework, control, rule, param, value),
                 Groups(Definitions(framework, control, rule, param, key, value, remarks)), c, name) ==
            if c == control && name == param then Some([value]) else None
  {
    var groups := Groups(Definitions(framework, control, rule, param, key, value, remarks));
    var ci, ir := ImplementationOf(framework, control, rule, param, value), RequirementOf(control, rule);
    OneGroup(framework, control, rule, param, key, value, remarks);
    RuleOfGroup(rule, param, key, remarks);
    assert ir.props[0] in ir.props && HasRule(ir, rule);
    assert Links(ir, groups, param) by {
      assert LinksGroup(ir, groups[remarks], param);
    }
    assert ir in ci.implementedRequirements;
    assert ci.setParameters[..0] == [];
    assert SetValues(ci.setParameters[..0], name) == None;
    assert SetValues(ci.setParameters, name) == if name == param then Some([value]) else None;
  }

  lemma OneImplemented(framework: string, control: string, rule: string, param: string, key: string,
                       value: string, remarks: string)
    requires control != ""
    ensures FrameworkControls(Definitions(framework, control, rule, param, key, value, remarks), framework) == {control}
  {
    var cds := Definitions(framework, control, rule, param, key, value, remarks);
    var ci := ImplementationOf(framework, control, rule, param, value);
    OneImplementation(framework, control, rule, param, key, value, remarks);
    assert ci.implementedRequirements[0] in ci.implementedRequirements && ci in [ci];
    assert Requires(ci, framework, control);
  }

  // The scope the generator gives for the definition.
  function DefaultScope(framework: string, control: string, param: string, value: string): AssessmentScope {
    AssessmentScope(framework, [ControlEntry(control, [WILDCARD], [], [], [ParameterEntry(param, value)])], [], [])
  }

  lemma DefaultScopeIsGenerated(framework: string, control: string, rule: string, param: string, key: string,
                                value: string, remarks: string)
    requires remarks != "" && control != "" && rule != "" && param != ""
    ensures Generated(DefaultScope(framework, control, param, value), framework,
                      Definitions(framework, control, rule, param, key, value, remarks))
  {
    var cds := Definitions(framework, control, rule, param, key, value, remarks);
    var scope := DefaultScope(framework, control, param, value);
    assert Ids(scope.includeControls) == [control];
    forall c
      ensures c in Ids(scope.includeControls) <==> Implemented(AllImplementations(cds), framework, c)
    {
      OneImplemented(framework, control, rule, param, key, value, remarks);
      assert c in FrameworkControls(cds, framework) <==> c == control;
    }
    DefaultEntry(framework, control, rule, param, key, value, remarks);
  }

  lemma DefaultEntry(framework: string, control: string, rule: string, param: string, key: string,
                     value: string, remarks: string)
    requires remarks != "" && control != "" && rule != "" && param != ""
    ensures IsDefaultEntry(DefaultScope(framework, control, param, value).includeControls[0],
                           Definitions(framework, control, rule, param, key, value, remarks), framework)
  {
    var cds := Definitions(framework, control, rule, param, key, value, remarks);
    var e := DefaultScope(framework, control, param, value).includeControls[0];
    forall name
      ensures SettingIn(cds, framework, control, name) == if name == param then Some([value]) else None
    {
      OneSetting(framework, control, rule, param, key, value, remarks, control, name);
    }
    ListsOne(param, value, name => SettingIn(cds, framework, e.controlId, name));
  }

  lemma ListsOne(param: string, value: string, setting: string -> Option<seq<string>>)
    requires forall name :: setting(name) == if name == param then Some([value]) else None
    ensures ListsSettings([ParameterEntry(param, value)], setting)
  {
    assert setting(param) == Some([value]);
    assert [ParameterEntry(param, value)][0].name == param;
  }

  // ----- The runs -----

  lemma SettingsOf(framework: string, control: string, rule: string, param: string, key: string,
                   value: string, remarks: string)
    requires remarks != "" && control != "" && rule != "" && param != "" && Plain(key) && Unquoted(key)
    ensures var cds := Definitions(framework, control, rule, param, key, value, remarks);
            && FirstSetting(cds, framework, control, param) == Some(value)
            && (SettingsAcceptable(cds, framework, Groups(cds)) <==>
                value == key || value == "" || value == Params.NOT_APPLICABLE)
  {
    var cds := Definitions(framework, control, rule, param, key, value, remarks);
    OnlyKeyAccepted(framework, control, rule, param, key, value, remarks);
    forall c, name
      ensures FirstSetting(cds, framework, c, name) == if c == control && name == param then Some(value) else None
    {
      OneSetting(framework, control, rule, param, key, value, remarks, c, name);
    }
    assert Acceptable(Groups(cds), param, FirstSetting(cds, framework, control, param)) <==>
           value == key || value == "" || value == Params.NOT_APPLICABLE;
  }

  lemma PlanIsSound(rule: string, control: string, param: string, was: string)
    ensures PlanSound(WithParameter(rule, control, param, was), {control})
    ensures MeantAll([Listing([control])], {control}) == [control]
  {
    var s := Listing([control]);
    var a := WithParameter(rule, control, param, was).activities.value[0];
    assert a.relatedControls.GetOr([]) == [s];
    assert Meant(s, {control}) == {control};
    assert [s][..0] == [] && MeantAll([s][..0], {control}) == [];
    assert StrictlyAscending([control]) && Elements([control]) == {control};
    AscendingUnique([control], Ascending({control}));
  }

  // The set value is none of the alternatives: the engine rejects the generated scope as it is, on
  // every plan with activities on which it does not panic, and so on this sound one.
  lemma GeneratedScopeRejected(scope: AssessmentScope, framework: string, control: string, rule: string, param: string,
                               key: string, value: string, remarks: string, was: string, p: PlanValue)
    requires remarks != "" && control != "" && rule != "" && param != "" && Plain(key) && Unquoted(key)
    requires value != key && value != "" && value != Params.NOT_APPLICABLE
    requires Generated(scope, framework, Definitions(framework, control, rule, param, key, value, remarks))
    ensures var cds := Definitions(framework, control, rule, param, key, value, remarks);
            && (p.activities.Some? ==> !ApplyScope(scope, Groups(cds), p).Applied?)
            && PlanSound(WithParameter(rule, control, param, was), FrameworkControls(cds, framework))
            && ApplyScope(scope, Groups(cds), WithParameter(rule, control, param, was)).Rejected?
  {
    var cds := Definitions(framework, control, rule, param, key, value, remarks);
    SettingsOf(framework, control, rule, param, key, value, remarks);
    OneImplemented(framework, control, rule, param, key, value, remarks);
    PlanIsSound(rule, control, param, was);
    DefaultOutcome(scope, framework, cds, Groups(cds), p);
    DefaultOutcome(scope, framework, cds, Groups(cds), WithParameter(rule, control, param, was));
  }

  // The set value is the alternative: the run is accepted, and overwrites another value of the
  // parameter in a sound plan.
  lemma GeneratedScopeOverwrites(scope: AssessmentScope, framework: string, control: string, rule: string,
                                 param: string, key: string, remarks: string, was: string)
    requires remarks != "" && control != "" && rule != "" && param != "" && Plain(key) && Unquoted(key) && was != key
    requires Generated(scope, framework, Definitions(framework, control, rule, param, key, key, remarks))
    ensures var cds := Definitions(framework, control, rule, param, key, key, remarks);
            var p := WithParameter(rule, control, param, was);
            && PlanSound(p, FrameworkControls(cds, framework))
            && ApplyScope(scope, Groups(cds), p).Applied? && Returns(scope, Groups(cds), p, 0)
            && !ParametersUnaltered(p.activities.value[0], Ran(scope, Groups(cds), p, 0))
  {
    var cds := Definitions(framework, control, rule, param, key, key, remarks);
    var p := WithParameter(rule, control, param, was);
    SettingsOf(framework, control, rule, param, key, key, remarks);
    OneImplemented(framework, control, rule, param, key, key, remarks);
    PlanIsSound(rule, control, param, was);
    DefaultOutcome(scope, framework, cds, Groups(cds), p);
    GeneratedScopeControls(scope, framework, cds);
    DefaultsUndisturbed(scope, framework, cds, p.activities.value[0]);
    LacksDefault(framework, cds, control, rule, param, key, was);
    ActivityUnalteredExactlyWhen(scope, Groups(cds), p, 0);
  }

  lemma LacksDefault(framework: string, cds: seq<ComponentDefinition>, control: string, rule: string, param: string,
                     key: string, was: string)
    requires FrameworkControls(cds, framework) == {control} && key != "" && was != key
    requires FirstSetting(cds, framework, control, param) == Some(key)
    ensures !HasDefaults(cds, framework, WithParameter(rule, control, param, was).activities.value[0])
  {
    var a := WithParameter(rule, control, param, was).activities.value[0];
    PlanIsSound(rule, control, param, was);
    assert a.relatedControls.GetOr([]) == [Listing([control])];
    assert DefaultValue(cds, framework, control, param) == Some(key);
    assert FirstDefaults(cds, framework, [control], 0, param);
    assert !HasDefault(cds, framework, [control], a.props.GetOr([])[0]);
  }
}
