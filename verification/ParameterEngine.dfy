/** The parameter pass and ApplyScope itself. */
module ParameterEngine {
  import opened Wrappers
  import opened Oscal
  import opened ComponentDefinitions
  import opened ParameterSelection
  import opened ScopeRules
  import opened ScopeEngine
  import RuleEngine

  type Table = map<string, string>

  // ----- The selected parameters by control -----

  ghost predicate TableOf(params: seq<ParameterEntry>, table: Table) {
    forall n ::
      && (n in table <==> ValueIn(params, n).Some?)
      && (n in table ==> table[n] == ValueIn(params, n).value)
  }

  ghost predicate TablesOf(entries: seq<ControlEntry>, tables: map<string, Table>) {
    forall c ::
      && (c in tables <==> ParametersOf(entries, c).Some?)
      && (c in tables ==> TableOf(ParametersOf(entries, c).value, tables[c]))
  }

  method ParameterTable(params: seq<ParameterEntry>) returns (table: Table)
    ensures TableOf(params, table)
  {
    table := map[];
    for k := 0 to |params|
      invariant TableOf(params[..k], table)
    {
      var p := params[k];
      assert params[..k + 1][..k] == params[..k];
      if p.name == "" {
        continue;
      }
      table := table[p.name := p.value];
    }
    assert params[..|params|] == params;
  }

  method ControlParameters(scope: AssessmentScope) returns (tables: map<string, Table>)
    ensures TablesOf(scope.includeControls, tables)
  {
    tables := map[];
    var entries := scope.includeControls;
    for k := 0 to |entries|
      invariant TablesOf(entries[..k], tables)
    {
      assert entries[..k + 1][..k] == entries[..k];
      if |entries[k].selectParameters| > 0 {
        var table := ParameterTable(entries[k].selectParameters);
        tables := tables[entries[k].controlId := table];
      }
    }
    assert entries[..|entries|] == entries;
  }

  // ----- Validation -----

  // Both ranges are over maps, in arbitrary order; validation does not stop at an error.
  method ValidateAll(tables: map<string, Table>, cds: seq<ComponentDefinition>) returns (valid: bool)
    ensures valid <==> forall c, n :: c in tables && n in tables[c] ==> Accepts(Groups(cds), n, tables[c][n])
  {
    var groups := ExtractRemarksProperties(cds);
    valid := true;
    var controls := tables.Keys;
    while controls != {}
      invariant controls <= tables.Keys
      invariant valid <==> forall c, n :: c in tables && c !in controls && n in tables[c] ==>
                  Accepts(groups, n, tables[c][n])
    {
      var c :| c in controls;
      controls := controls - {c};
      var table := tables[c];
      var tableValid := ValidateTable(table, groups);
      valid := valid && tableValid;
    }
  }

  method ValidateTable(table: Table, groups: RemarksGroups) returns (valid: bool)
    ensures valid <==> forall n :: n in table ==> Accepts(groups, n, table[n])
  {
    valid := true;
    var names := table.Keys;
    while names != {}
      invariant names <= table.Keys
      invariant valid <==> forall n :: n in table && n !in names ==> Accepts(groups, n, table[n])
    {
      var n :| n in names;
      names := names - {n};
      var ok, alternatives := FilterParameterSelection(n, table[n], groups);
      if !ok {
        valid := false;
      }
    }
  }

  lemma TablesMeanSelected(scope: AssessmentScope, tables: map<string, Table>)
    requires TablesOf(scope.includeControls, tables)
    ensures forall c, n :: SelectedValue(scope, c, n) ==
              if c in tables && n in tables[c] then Some(tables[c][n]) else None
  {
  }

  // ----- Updating the test parameters of an activity -----

  method FindParameterValue(name: string, controls: seq<string>, tables: map<string, Table>,
                            ghost scope: AssessmentScope)
    returns (value: string)
    requires TablesOf(scope.includeControls, tables)
    ensures value == ValueFor(scope, controls, name)
  {
    TablesMeanSelected(scope, tables);
    assert controls[0..] == controls;
    for k := 0 to |controls|
      invariant ValueFor(scope, controls, name) == ValueFor(scope, controls[k..], name)
    {
      assert controls[k..][1..] == controls[k + 1..];
      var c := controls[k];
      if c in tables {
        if name in tables[c] {
          return tables[c][name];
        }
      }
    }
    return "";
  }

  method GetRelatedControlIds(activity: Activity) returns (ids: seq<string>)
    ensures ids == RelatedIds(Selections(activity.Related()))
  {
    ids := [];
    if activity.relatedControls == None {
      return;
    }
    var sels := activity.relatedControls.value;
    ghost var values := Selections(sels);
    for k := 0 to |sels|
      invariant ids == RelatedIds(values[..k])
    {
      assert values[..k + 1][..k] == values[..k];
      if sels[k].includeControls != None {
        ids := ids + sels[k].includeControls.value;
      }
    }
    assert values[..|sels|] == values;
  }

  method UpdateProperties(props: seq<Property>, controls: seq<string>, tables: map<string, Table>,
                          ghost scope: AssessmentScope)
    returns (r: seq<Property>)
    requires TablesOf(scope.includeControls, tables)
    ensures r == UpdateProps(scope, controls, props)
  {
    r := props;
    for k := 0 to |props|
      invariant |r| == |props|
      invariant forall i :: 0 <= i < k ==> r[i] == UpdateProp(scope, controls, props[i])
      invariant forall i :: k <= i < |props| ==> r[i] == props[i]
    {
      if r[k].class_ == TEST_PARAMETER_CLASS {
        var newValue := "";
        if |controls| > 0 {
          newValue := FindParameterValue(r[k].name, controls, tables, scope);
        }
        if newValue != "" {
          r := r[k := r[k].(value := newValue)];
        }
      }
    }
  }

  method ParameterScopeActivity(activity: Activity, tables: map<string, Table>, ghost scope: AssessmentScope)
    requires TablesOf(scope.includeControls, tables) && activity.Valid()
    modifies activity`props
    ensures activity.Valid() && activity.Sels() == old(activity.Sels())
    ensures activity.Value() == ParameterPassActivity(scope, old(activity.Value()))
  {
    if activity.props == None {
      return;
    }
    var ids := GetRelatedControlIds(activity);
    var props := UpdateProperties(activity.props.value, ids, tables, scope);
    activity.props := Some(props);
    OnlyPropsChanged(activity);
  }

  twostate lemma OnlyPropsChanged(activity: Activity)
    requires activity.relatedControls == old(activity.relatedControls)
    requires unchanged(activity.steps) && unchanged(old(activity.Sels()))
    ensures activity.Sels() == old(activity.Sels())
    ensures activity.Valid() == old(activity.Valid())
    ensures activity.RelatedValues() == old(activity.RelatedValues())
    ensures activity.StepValues() == old(activity.StepValues())
  {
    SelectionsUnchanged(activity.Related());
    forall i | 0 <= i < |activity.steps|
      ensures activity.steps[i].Value() == old(activity.steps[i].Value())
    {
      StepUnchanged(activity.steps[i]);
    }
  }

  // ----- The plan -----

  method ParameterScopeActivities(acts: seq<Activity>, tables: map<string, Table>, ghost scope: AssessmentScope)
    requires TablesOf(scope.includeControls, tables) && Separate(acts)
    modifies acts
    ensures Separate(acts) && AllSels(acts) == old(AllSels(acts))
    ensures ActivityValues(acts) == ParameterPassAll(scope, old(ActivityValues(acts)))
  {
    ghost var before := ActivityValues(acts);
    ghost var after := ParameterPassAll(scope, before);
    for k := 0 to |acts|
      invariant Separate(acts) && AllSels(acts) == old(AllSels(acts))
      invariant forall i :: 0 <= i < k ==> acts[i].Value() == after[i]
      invariant forall i :: k <= i < |acts| ==> acts[i].Value() == before[i]
    {
      ParameterScopeNth(acts, k, tables, scope);
    }
    assert ActivityValues(acts) == after;
  }

  method ParameterScopeNth(acts: seq<Activity>, k: nat, tables: map<string, Table>, ghost scope: AssessmentScope)
    requires TablesOf(scope.includeControls, tables) && Separate(acts) && k < |acts|
    modifies acts[k]
    ensures Separate(acts) && AllSels(acts) == old(AllSels(acts))
    ensures acts[k].Value() == ParameterPassActivity(scope, old(acts[k].Value()))
    ensures forall i :: 0 <= i < |acts| && i != k ==> acts[i].Value() == old(acts[i].Value())
  {
    ParameterScopeActivity(acts[k], tables, scope);
    forall i | 0 <= i < |acts|
      ensures i != k ==> acts[i].Value() == old(acts[i].Value())
      ensures acts[i].Valid() && acts[i].Sels() == old(acts[i].Sels())
    {
      if i != k {
        ActivityUnchanged(acts[i]);
      }
    }
  }

  // Without selected parameters there is nothing to validate and nothing to change.
  lemma NoParameters(scope: AssessmentScope, groups: RemarksGroups, acts: seq<ActivityValue>)
    requires TablesOf(scope.includeControls, map[])
    ensures ParametersValid(scope, groups)
    ensures ParameterPassAll(scope, acts) == acts
  {
    TablesMeanSelected(scope, map[]);
    forall a: ActivityValue
      ensures ParameterPassActivity(scope, a) == a
    {
      if a.props.Some? {
        var ids := RelatedIds(a.relatedControls.GetOr([]));
        forall name
          ensures ValueFor(scope, ids, name) == ""
        {
          NoValue(scope, ids, name);
        }
        assert UpdateProps(scope, ids, a.props.value) == a.props.value;
      }
    }
  }

  lemma {:induction false} NoValue(scope: AssessmentScope, controls: seq<string>, name: string)
    requires forall c :: SelectedValue(scope, c, name) == None
    ensures ValueFor(scope, controls, name) == ""
  {
    if controls != [] {
      NoValue(scope, controls[1..], name);
    }
  }

  method ApplyParameterScope(scope: AssessmentScope, plan: AssessmentPlan, cds: seq<ComponentDefinition>)
    returns (ok: bool)
    requires plan.Valid()
    modifies plan.Activities()
    ensures plan.Valid()
    ensures ok <==> plan.activities.None? || ParametersValid(scope, Groups(cds))
    ensures plan.Value() == if ok then ParameterPass(scope, old(plan.Value())) else old(plan.Value())
  {
    var tables := ControlParameters(scope);
    PlanUnchanged(plan);
    if |tables| == 0 {
      assert tables == map[];
      NoParameters(scope, Groups(cds), ActivityValues(plan.Activities()));
      PlanParts(plan);
      return true;
    }
    if plan.activities == None {
      return true;
    }
    ok := ValidateAndWrite(scope, plan, tables, cds);
  }

  // The rest of the pass, for a plan with activities.
  method ValidateAndWrite(scope: AssessmentScope, plan: AssessmentPlan, tables: map<string, Table>,
                          cds: seq<ComponentDefinition>)
    returns (ok: bool)
    requires plan.Valid() && plan.activities.Some? && TablesOf(scope.includeControls, tables)
    modifies plan.Activities()
    ensures plan.Valid()
    ensures ok <==> ParametersValid(scope, Groups(cds))
    ensures plan.Value() == if ok then ParameterPass(scope, old(plan.Value())) else old(plan.Value())
  {
    ok := SelectionsValid(scope, tables, cds);
    PlanUnchanged(plan);
    if ok {
      ParameterScopeLocal(scope, plan, tables);
    }
  }

  method SelectionsValid(scope: AssessmentScope, tables: map<string, Table>, cds: seq<ComponentDefinition>)
    returns (ok: bool)
    requires TablesOf(scope.includeControls, tables)
    ensures ok <==> ParametersValid(scope, Groups(cds))
  {
    ok := ValidateAll(tables, cds);
    TablesMeanSelected(scope, tables);
  }

  method ParameterScopeLocal(scope: AssessmentScope, plan: AssessmentPlan, tables: map<string, Table>)
    requires plan.Valid() && plan.activities.Some? && TablesOf(scope.includeControls, tables)
    modifies plan.Activities()
    ensures plan.Valid()
    ensures plan.Value() == ParameterPass(scope, old(plan.Value()))
  {
    PlanParts(plan);
    ParameterScopeActivities(plan.activities.value, tables, scope);
    SelectionsUnchanged(plan.reviewedControls);
    PlanParts(plan);
  }

  // ----- ApplyScope -----

  datatype Result = Success | ValidationError | Panic

  method ApplyScopeToPlan(scope: AssessmentScope, plan: AssessmentPlan, cds: seq<ComponentDefinition>)
    returns (result: Result)
    requires plan.Valid()
    modifies plan.reviewedControls, plan.Activities(), AllSteps(plan.Activities()), AllSels(plan.Activities())
    ensures match ApplyScope(scope, Groups(cds), old(plan.Value()))
            case NilDereference => result == Panic
            case Rejected(p) => result == ValidationError && plan.Valid() && plan.Value() == p
            case Applied(p) => result == Success && plan.Valid() && plan.Value() == p
  {
    ApplyControlScope(scope, plan);
    var ok := RuleEngine.ApplyRuleScope(scope, plan);
    if !ok {
      return Panic;
    }
    var valid := ApplyParameterScope(scope, plan, cds);
    return if valid then Success else ValidationError;
  }
}
