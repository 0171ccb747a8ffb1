/** What the component definitions say about a framework: the controls it implements and the values
    set for their parameters; with both spelled out by positions in the documents. */
module DefaultSettings {
  import opened Wrappers
  import opened Oscal
  import opened ComponentDefinitions
  import opened ParameterSelection
  import opened Positions

  // ===== What the component definitions say =====

  ghost function ImplementationsOf(components: seq<Component>): seq<ControlImplementation> {
    if components == [] then [] else
      ImplementationsOf(components[..|components| - 1]) + components[|components| - 1].controlImplementations
  }

  // All control implementations, in document order.
  ghost function AllImplementations(cds: seq<ComponentDefinition>): seq<ControlImplementation> {
    if cds == [] then [] else
      AllImplementations(cds[..|cds| - 1]) + ImplementationsOf(cds[|cds| - 1].components)
  }

  ghost predicate Requires(ci: ControlImplementation, framework: string, control: string) {
    && ci.framework == Some(framework) && control != ""
    && exists ir :: ir in ci.implementedRequirements && ir.controlId == control
  }

  ghost predicate Implemented(cis: seq<ControlImplementation>, framework: string, control: string) {
    exists ci :: ci in cis && Requires(ci, framework, control)
  }

  // The rule a remarks group is about: that of its last rule property, or none.
  function GroupRule(props: seq<Property>): string {
    if props == [] then ""
    else if props[|props| - 1].name == RULE_ID_PROP then props[|props| - 1].value
    else GroupRule(props[..|props| - 1])
  }

  ghost predicate GroupHasParameter(props: seq<Property>, param: string) {
    exists p :: p in props && IsParameterIdProperty(p.name) && p.value == param
  }

  ghost predicate HasRule(ir: ImplementedRequirement, rule: string) {
    exists p :: p in ir.props && p.name == RULE_ID_PROP && p.value == rule
  }

  ghost predicate LinksGroup(ir: ImplementedRequirement, props: seq<Property>, param: string) {
    GroupRule(props) != "" && HasRule(ir, GroupRule(props)) && GroupHasParameter(props, param)
  }

  // A rule of the requirement shares a remarks group with the parameter.
  ghost predicate Links(ir: ImplementedRequirement, groups: RemarksGroups, param: string) {
    exists g :: g in groups && LinksGroup(ir, groups[g], param)
  }

  ghost predicate LinksControl(irs: seq<ImplementedRequirement>, groups: RemarksGroups, control: string,
                               param: string) {
    control != "" && exists ir :: ir in irs && ir.controlId == control && Links(ir, groups, param)
  }

  // The values of the last set-parameter that names the parameter and has values.
  ghost function SetValues(sps: seq<SetParameter>, param: string): Option<seq<string>> {
    if sps == [] || param == "" then None
    else if sps[|sps| - 1].paramId == param && sps[|sps| - 1].values != [] then Some(sps[|sps| - 1].values)
    else SetValues(sps[..|sps| - 1], param)
  }

  // What one implementation sets for a parameter of a control.
  ghost function Sets(ci: ControlImplementation, groups: RemarksGroups, control: string,
                      param: string): Option<seq<string>>
  {
    if LinksControl(ci.implementedRequirements, groups, control, param) then SetValues(ci.setParameters,
        param) else None
  }

  // The last implementation for the framework that sets the parameter wins.
  ghost function Setting(cis: seq<ControlImplementation>, framework: string, groups: RemarksGroups,
                         control: string, param: string): Option<seq<string>>
  {
    if cis == [] then None else
      var last := cis[|cis| - 1];
      if last.framework == Some(framework) && Sets(last, groups, control, param).Some? then
        Sets(last, groups, control, param)
      else
        Setting(cis[..|cis| - 1], framework, groups, control, param)
  }

  ghost function SettingIn(cds: seq<ComponentDefinition>, framework: string, control: string, param: string)
    : Option<seq<string>>
  {
    Setting(AllImplementations(cds), framework, Groups(cds), control, param)
  }

  // ===== By positions in the documents =====

  ghost function Nested(cds: seq<ComponentDefinition>): (r: seq<seq<seq<ControlImplementation>>>)
    ensures |r| == |cds|
    ensures forall i :: 0 <= i < |cds| ==> r[i] == NestedIn(cds[i].components)
  {
    seq(|cds|, i requires 0 <= i < |cds| => NestedIn(cds[i].components))
  }

  ghost function NestedIn(components: seq<Component>): (r: seq<seq<ControlImplementation>>)
    ensures |r| == |components|
    ensures forall j :: 0 <= j < |components| ==> r[j] == components[j].controlImplementations
  {
    seq(|components|, j requires 0 <= j < |components| => components[j].controlImplementations)
  }

  lemma {:induction false} ImplementationsAreConcat(components: seq<Component>)
    ensures ImplementationsOf(components) == Concat(NestedIn(components))
  {
    if components != [] {
      ImplementationsAreConcat(components[..|components| - 1]);
      assert NestedIn(components)[..|components| - 1] == NestedIn(components[..|components| - 1]);
    }
  }

  lemma {:induction false} AllAreConcat(cds: seq<ComponentDefinition>)
    ensures AllImplementations(cds) == Concat(Rows(Nested(cds)))
  {
    if cds != [] {
      AllAreConcat(cds[..|cds| - 1]);
      ImplementationsAreConcat(cds[|cds| - 1].components);
      assert Rows(Nested(cds))[..|cds| - 1] == Rows(Nested(cds[..|cds| - 1]));
    }
  }

  // Position k of component j of definition i.
  ghost predicate Exists(cds: seq<ComponentDefinition>, i: int, j: int, k: int) {
    && 0 <= i < |cds| && 0 <= j < |cds[i].components|
    && 0 <= k < |cds[i].components[j].controlImplementations|
  }

  // All implementations: those of all components of all definitions, in document order.
  lemma ImplementationsByPosition(cds: seq<ComponentDefinition>) returns (at: seq<(nat, nat, nat)>)
    ensures |at| == |AllImplementations(cds)|
    ensures forall n :: 0 <= n < |at| ==>
              Exists(cds, at[n].0, at[n].1, at[n].2) &&
              AllImplementations(cds)[n] == cds[at[n].0].components[at[n].1].controlImplementations[at[n].2]
    ensures forall m, n :: 0 <= m < n < |at| ==> Earlier3(at[m], at[n])
    ensures forall i: nat, j: nat, k: nat :: Exists(cds, i, j, k) ==> (i, j, k) in at
  {
    AllAreConcat(cds);
    at := ConcatPlaces3(Nested(cds));
    NestedPlaces(cds, at);
  }

  lemma NestedPlaces(cds: seq<ComponentDefinition>, at: seq<(nat, nat, nat)>)
    requires Places3(AllImplementations(cds), Nested(cds), at)
    ensures forall n :: 0 <= n < |at| ==>
              Exists(cds, at[n].0, at[n].1, at[n].2) &&
              AllImplementations(cds)[n] == cds[at[n].0].components[at[n].1].controlImplementations[at[n].2]
    ensures forall i: nat, j: nat, k: nat :: Exists(cds, i, j, k) ==> (i, j, k) in at
  {
    forall n | 0 <= n < |at|
      ensures Exists(cds, at[n].0, at[n].1, at[n].2)
      ensures AllImplementations(cds)[n] == cds[at[n].0].components[at[n].1].controlImplementations[at[n].2]
    {
      assert Nested(cds)[at[n].0] == NestedIn(cds[at[n].0].components);
    }
    forall i: nat, j: nat, k: nat | Exists(cds, i, j, k)
      ensures (i, j, k) in at
    {
      assert Nested(cds)[i] == NestedIn(cds[i].components);
      assert Nested(cds)[i][j] == cds[i].components[j].controlImplementations;
    }
  }

  // Requirement m of the implementation at (i, j, k), which is for the framework, is for the control.
  ghost predicate RequiredAt(cds: seq<ComponentDefinition>, framework: string, control: string,
                             i: int, j: int, k: int, m: int)
  {
    Exists(cds, i, j, k) &&
    var ci := cds[i].components[j].controlImplementations[k];
    ci.framework == Some(framework) &&
    0 <= m < |ci.implementedRequirements| && ci.implementedRequirements[m].controlId == control
  }

  // A control is implemented exactly when some implementation for the framework, in whichever
  // definition and component, has a requirement for it.
  lemma ImplementedMeaning(cds: seq<ComponentDefinition>, framework: string, control: string)
    ensures Implemented(AllImplementations(cds), framework, control) <==>
            control != "" && exists i, j, k, m :: RequiredAt(cds, framework, control, i, j, k, m)
  {
    var at := ImplementationsByPosition(cds);
    var cis := AllImplementations(cds);
    if ci :| ci in cis && Requires(ci, framework, control) {
      var n :| 0 <= n < |cis| && cis[n] == ci;
      var ir :| ir in ci.implementedRequirements && ir.controlId == control;
      var m :| 0 <= m < |ci.implementedRequirements| && ci.implementedRequirements[m] == ir;
      assert RequiredAt(cds, framework, control, at[n].0, at[n].1, at[n].2, m);
    }
    if i, j, k, m :| control != "" && RequiredAt(cds, framework, control, i, j, k, m) {
      var ci := cds[i].components[j].controlImplementations[k];
      assert (i as nat, j as nat, k as nat) in at;
      var n :| 0 <= n < |at| && at[n] == (i as nat, j as nat, k as nat);
      assert cis[n] == ci && ci in cis && ci.implementedRequirements[m] in ci.implementedRequirements;
    }
  }

  // ----- Which setting counts -----

  // The implementation sets the parameter of the control for the framework.
  ghost predicate SetsFor(ci: ControlImplementation, framework: string, groups: RemarksGroups, control: string,
                          param: string)
  {
    ci.framework == Some(framework) && Sets(ci, groups, control, param).Some?
  }

  ghost predicate LastSets(cis: seq<ControlImplementation>, framework: string, groups: RemarksGroups,
                           control: string, param: string, n: int)
  {
    && 0 <= n < |cis| && SetsFor(cis[n], framework, groups, control, param)
    && forall m :: n < m < |cis| ==> !SetsFor(cis[m], framework, groups, control, param)
  }

  lemma {:induction false} LastIsSetting(cis: seq<ControlImplementation>, framework: string, groups: RemarksGroups,
                                         control: string, param: string, n: int)
    requires LastSets(cis, framework, groups, control, param, n)
    ensures Setting(cis, framework, groups, control, param) == Sets(cis[n], groups, control, param)
  {
    if n < |cis| - 1 {
      assert !SetsFor(cis[|cis| - 1], framework, groups, control, param);
      LastIsSetting(cis[..|cis| - 1], framework, groups, control, param, n);
    }
  }

  lemma {:induction false} NoSetting(cis: seq<ControlImplementation>, framework: string, groups: RemarksGroups,
                                     control: string, param: string)
    requires forall n :: 0 <= n < |cis| ==> !SetsFor(cis[n], framework, groups, control, param)
    ensures Setting(cis, framework, groups, control, param) == None
  {
    if cis != [] {
      assert !SetsFor(cis[|cis| - 1], framework, groups, control, param);
      NoSetting(cis[..|cis| - 1], framework, groups, control, param);
    }
  }

  ghost predicate LastSetting(cds: seq<ComponentDefinition>, framework: string, control: string, param: string,
                              i: int, j: int, k: int)
  {
    && Exists(cds, i, j, k)
    && SetsFor(cds[i].components[j].controlImplementations[k], framework, Groups(cds), control, param)
    && forall x, y, z :: Exists(cds, x, y, z) && (i < x || (i == x && (j < y || (j == y && k < z)))) ==>
         !SetsFor(cds[x].components[y].controlImplementations[z], framework, Groups(cds), control, param)
  }

  // The last implementation, in document order, that sets the parameter wins; without one there is
  // no setting.
  lemma SettingMeaning(cds: seq<ComponentDefinition>, framework: string, control: string, param: string)
    ensures (forall i, j, k :: Exists(cds, i, j, k) ==>
               !SetsFor(cds[i].components[j].controlImplementations[k], framework, Groups(cds), control, param)) ==>
              SettingIn(cds, framework, control, param) == None
    ensures forall i, j, k :: LastSetting(cds, framework, control, param, i, j, k) ==>
              SettingIn(cds, framework, control, param) ==
              Sets(cds[i].components[j].controlImplementations[k], Groups(cds), control, param)
  {
    var at := ImplementationsByPosition(cds);
    var cis, groups := AllImplementations(cds), Groups(cds);
    if forall i, j, k :: Exists(cds, i, j, k) ==>
         !SetsFor(cds[i].components[j].controlImplementations[k], framework, groups, control, param)
    {
      forall n | 0 <= n < |cis|
        ensures !SetsFor(cis[n], framework, groups, control, param)
      {
        assert Exists(cds, at[n].0, at[n].1, at[n].2);
      }
      NoSetting(cis, framework, groups, control, param);
    }
    forall i, j, k | LastSetting(cds, framework, control, param, i, j, k)
      ensures SettingIn(cds, framework, control, param) ==
              Sets(cds[i].components[j].controlImplementations[k], groups, control, param)
    {
      assert (i as nat, j as nat, k as nat) in at;
      var n :| 0 <= n < |at| && at[n] == (i as nat, j as nat, k as nat);
      forall m | n < m < |cis|
        ensures !SetsFor(cis[m], framework, groups, control, param)
      {
        assert Earlier3(at[n], at[m]) && Exists(cds, at[m].0, at[m].1, at[m].2);
      }
      LastIsSetting(cis, framework, groups, control, param, n);
    }
  }

  // ----- What one implementation sets -----

  ghost predicate LastGiven(sps: seq<SetParameter>, param: string, n: int) {
    && 0 <= n < |sps| && param != "" && sps[n].paramId == param && sps[n].values != []
    && forall m :: n < m < |sps| ==> sps[m].paramId != param || sps[m].values == []
  }

  lemma {:induction false} GivenIsSet(sps: seq<SetParameter>, param: string, n: int)
    requires LastGiven(sps, param, n)
    ensures SetValues(sps, param) == Some(sps[n].values)
  {
    if n < |sps| - 1 {
      assert sps[|sps| - 1].paramId != param || sps[|sps| - 1].values == [];
      GivenIsSet(sps[..|sps| - 1], param, n);
    }
  }

  lemma {:induction false} SetValuesAt(sps: seq<SetParameter>, param: string) returns (n: nat)
    requires SetValues(sps, param).Some?
    ensures LastGiven(sps, param, n) && SetValues(sps, param) == Some(sps[n].values)
  {
    var last := sps[|sps| - 1];
    if last.paramId == param && last.values != [] {
      n := |sps| - 1;
    } else {
      n := SetValuesAt(sps[..|sps| - 1], param);
    }
  }

  // The values of the last set-parameter that names the parameter and has values.
  lemma SetValuesMeaning(sps: seq<SetParameter>, param: string, values: seq<string>)
    ensures SetValues(sps, param) == Some(values) <==>
            exists n :: LastGiven(sps, param, n) && sps[n].values == values
  {
    if SetValues(sps, param).Some? {
      var n := SetValuesAt(sps, param);
    }
    if n :| LastGiven(sps, param, n) && sps[n].values == values {
      GivenIsSet(sps, param, n);
    }
  }

  ghost predicate LastRule(props: seq<Property>, n: int) {
    && 0 <= n < |props| && props[n].name == "Rule_Id"
    && forall m :: n < m < |props| ==> props[m].name != "Rule_Id"
  }

  lemma {:induction false} RuleIsLast(props: seq<Property>, n: int)
    requires LastRule(props, n)
    ensures GroupRule(props) == props[n].value
  {
    if n < |props| - 1 {
      assert props[|props| - 1].name != RULE_ID_PROP;
      RuleIsLast(props[..|props| - 1], n);
    }
  }

  lemma {:induction false} GroupRuleAt(props: seq<Property>) returns (n: nat)
    requires GroupRule(props) != ""
    ensures LastRule(props, n)
  {
    if props[|props| - 1].name == RULE_ID_PROP {
      n := |props| - 1;
    } else {
      n := GroupRuleAt(props[..|props| - 1]);
    }
  }

  // The rule of a group is the value of its last rule property.
  lemma GroupRuleMeaning(props: seq<Property>, rule: string)
    requires rule != ""
    ensures GroupRule(props) == rule <==> exists n :: LastRule(props, n) && props[n].value == rule
  {
    if GroupRule(props) != "" {
      var n := GroupRuleAt(props);
      RuleIsLast(props, n);
    }
    if n :| LastRule(props, n) && props[n].value == rule {
      RuleIsLast(props, n);
    }
  }

  // The rule is that of the group's last rule property, and one of the requirement's rule properties
  // names it; a parameter id property of the group, in any of its names, has the parameter as value.
  ghost predicate LinkedBy(ir: ImplementedRequirement, props: seq<Property>, param: string, n: int, x: int, y: int) {
    && LastRule(props, n) && props[n].value != ""
    && 0 <= x < |ir.props| && ir.props[x].name == "Rule_Id" && ir.props[x].value == props[n].value
    && 0 <= y < |props| && IsParameterIdProperty(props[y].name) && props[y].value == param
  }

  lemma LinksGroupMeaning(ir: ImplementedRequirement, props: seq<Property>, param: string)
    ensures LinksGroup(ir, props, param) <==> exists n, x, y :: LinkedBy(ir, props, param, n, x, y)
  {
    if LinksGroup(ir, props, param) {
      GroupRuleMeaning(props, GroupRule(props));
      var n :| LastRule(props, n) && props[n].value == GroupRule(props);
      var p :| p in ir.props && p.name == RULE_ID_PROP && p.value == GroupRule(props);
      var q :| q in props && IsParameterIdProperty(q.name) && q.value == param;
      var x :| 0 <= x < |ir.props| && ir.props[x] == p;
      var y :| 0 <= y < |props| && props[y] == q;
      assert LinkedBy(ir, props, param, n, x, y);
    }
    if n, x, y :| LinkedBy(ir, props, param, n, x, y) {
      GroupRuleMeaning(props, props[n].value);
      assert ir.props[x] in ir.props && props[y] in props;
    }
  }

  // Requirement m of the implementation is for the control and links a group to the parameter.
  ghost predicate LinkedAt(ci: ControlImplementation, groups: RemarksGroups, control: string, param: string, m: int,
                           remarks: string) {
    && 0 <= m < |ci.implementedRequirements| && ci.implementedRequirements[m].controlId == control
    && remarks in groups
    && exists n, x, y :: LinkedBy(ci.implementedRequirements[m], groups[remarks], param, n, x, y)
  }

  lemma LinksControlMeaning(ci: ControlImplementation, groups: RemarksGroups, control: string, param: string)
    ensures LinksControl(ci.implementedRequirements, groups, control, param) <==>
            control != "" && exists m, remarks :: LinkedAt(ci, groups, control, param, m, remarks)
  {
    var irs := ci.implementedRequirements;
    if LinksControl(irs, groups, control, param) {
      var ir :| ir in irs && ir.controlId == control && Links(ir, groups, param);
      var m :| 0 <= m < |irs| && irs[m] == ir;
      var remarks :| remarks in groups && LinksGroup(ir, groups[remarks], param);
      LinksGroupMeaning(ir, groups[remarks], param);
      assert LinkedAt(ci, groups, control, param, m, remarks);
    }
    if m, remarks :| control != "" && LinkedAt(ci, groups, control, param, m, remarks) {
      LinksGroupMeaning(irs[m], groups[remarks], param);
      assert irs[m] in irs && Links(irs[m], groups, param);
    }
  }

  // What an implementation sets: the values of its last set-parameter with the parameter's name and
  // values, provided one of its requirements for the control links a remarks group to the parameter.
  lemma SetsMeaning(ci: ControlImplementation, groups: RemarksGroups, control: string, param: string,
                    values: seq<string>)
    ensures Sets(ci, groups, control, param) == Some(values) <==>
            && control != ""
            && (exists m, remarks :: LinkedAt(ci, groups, control, param, m, remarks))
            && (exists n :: LastGiven(ci.setParameters, param, n) && ci.setParameters[n].values == values)
  {
    LinksControlMeaning(ci, groups, control, param);
    SetValuesMeaning(ci.setParameters, param, values);
  }
}
