/** The tailoring generator: from an OSCAL policy and a data-stream profile to the selects and
    set-values of an XCCDF tailoring profile that extends it. */
module Tailoring {
  import opened Wrappers
  import opened GoStrings
  import opened Positions

  // ===== Records =====

  datatype SelectElement = SelectElement(idRef: string, selected: bool)

  datatype SetValueElement = SetValueElement(idRef: string, value: string)

  // A profile of the data stream, whose values are resolved in place.
  class ProfileElement {
    const selections: seq<SelectElement>
    var values: seq<SetValueElement>

    constructor (selections: seq<SelectElement>, values: seq<SetValueElement>)
      ensures this.selections == selections && this.values == values
    {
      this.selections, this.values := selections, values;
    }
  }

  datatype ValueOption = ValueOption(selector: string, value: string)

  datatype Variable = Variable(id: string, options: seq<ValueOption>)

  datatype Parameter = Parameter(id: string, value: string)

  datatype RuleSet = RuleSet(ruleId: string, parameters: seq<Parameter>, checks: seq<string>)

  type Policy = seq<RuleSet>

  const RULE_ID_PREFIX := "xccdf_org.ssgproject.content_rule_"
  const VAR_ID_PREFIX := "xccdf_org.ssgproject.content_value_"

  function RuleRef(ruleId: string): string {
    RULE_ID_PREFIX + ruleId
  }

  function VarRef(varId: string): string {
    VAR_ID_PREFIX + varId
  }

  function RuleOf(idRef: string): string {
    TrimPrefix(idRef, RULE_ID_PREFIX)
  }

  function VarOf(idRef: string): string {
    TrimPrefix(idRef, VAR_ID_PREFIX)
  }

  // ===== What the generator emits =====

  ghost predicate NamesRule(policy: Policy, ruleId: string) {
    exists r :: r in policy && r.ruleId == ruleId
  }

  ghost function Unselected(profile: seq<SelectElement>, policy: Policy): seq<SelectElement> {
    if profile == [] then [] else
      var last := profile[|profile| - 1];
      Unselected(profile[..|profile| - 1], policy) +
      (if last.selected && !NamesRule(policy, RuleOf(last.idRef)) then [SelectElement(last.idRef, false)] else [])
  }

  // The first entry of the profile for a rule decides whether it is already selected.
  ghost function FirstSelect(profile: seq<SelectElement>, ruleId: string): Option<bool> {
    if profile == [] then None
    else if RuleOf(profile[0].idRef) == ruleId then Some(profile[0].selected)
    else FirstSelect(profile[1..], ruleId)
  }

  ghost function Added(profile: seq<SelectElement>, policy: Policy): seq<SelectElement> {
    if policy == [] then [] else
      var init, last := policy[..|policy| - 1], policy[|policy| - 1];
      Added(profile, init) +
      (if FirstSelect(profile, last.ruleId) != Some(true) && !NamesRule(init, last.ruleId)
       then [SelectElement(RuleRef(last.ruleId), true)] else [])
  }

  ghost function Emitted(profile: seq<SelectElement>, policy: Policy): seq<SelectElement> {
    Unselected(profile, policy) + Added(profile, policy)
  }

  ghost function FirstValue(values: seq<SetValueElement>, varId: string): Option<string> {
    if values == [] then None
    else if VarOf(values[0].idRef) == varId then Some(values[0].value)
    else FirstValue(values[1..], varId)
  }

  ghost function Params(policy: Policy): seq<Parameter> {
    if policy == [] then [] else Params(policy[..|policy| - 1]) + policy[|policy| - 1].parameters
  }

  ghost function ParametersOf(policy: Policy): (r: seq<seq<Parameter>>)
    ensures |r| == |policy|
    ensures forall k :: 0 <= k < |policy| ==> r[k] == policy[k].parameters
  {
    seq(|policy|, k requires 0 <= k < |policy| => policy[k].parameters)
  }

  lemma {:induction false} ParamsAreConcat(policy: Policy)
    ensures Params(policy) == Concat(ParametersOf(policy))
  {
    if policy != [] {
      ParamsAreConcat(policy[..|policy| - 1]);
      assert ParametersOf(policy)[..|policy| - 1] == ParametersOf(policy[..|policy| - 1]);
    }
  }

  // The parameters of all rules, rule by rule, each rule's in order.
  lemma ParamsByPosition(policy: Policy) returns (at: seq<(nat, nat)>)
    ensures |at| == |Params(policy)|
    ensures forall n :: 0 <= n < |at| ==>
              at[n].0 < |policy| && at[n].1 < |policy[at[n].0].parameters| &&
              Params(policy)[n] == policy[at[n].0].parameters[at[n].1]
    ensures forall m, n :: 0 <= m < n < |at| ==> Earlier(at[m], at[n])
    ensures forall k: nat, j: nat :: k < |policy| && j < |policy[k].parameters| ==> (k, j) in at
  {
    ParamsAreConcat(policy);
    at := ConcatPlaces(ParametersOf(policy));
  }

  ghost predicate Differs(values: seq<SetValueElement>, prm: Parameter) {
    FirstValue(values, prm.id) != Some(prm.value)
  }

  ghost predicate AnyDiffers(values: seq<SetValueElement>, prms: seq<Parameter>, varId: string) {
    exists q :: q in prms && q.id == varId && Differs(values, q)
  }

  ghost function AddedValues(values: seq<SetValueElement>, prms: seq<Parameter>): seq<SetValueElement> {
    if prms == [] then [] else
      var init, last := prms[..|prms| - 1], prms[|prms| - 1];
      AddedValues(values, init) +
      (if Differs(values, last) && !AnyDiffers(values, init, last.id) then [SetValueElement(VarRef(last.id),
          last.value)]
       else [])
  }

  // ===== Selects =====

  method UnselectAbsentRules(start: seq<SelectElement>, profile: seq<SelectElement>, policy: Policy)
    returns (r: seq<SelectElement>)
    ensures r == start + Unselected(profile, policy)
  {
    r := start;
    for k := 0 to |profile|
      invariant r == start + Unselected(profile[..k], policy)
    {
      var dsRule := profile[k];
      var dsRuleAlsoInPolicy := false;
      var ruleId := RuleOf(dsRule.idRef);
      for j := 0 to |policy|
        invariant !dsRuleAlsoInPolicy
        invariant forall i :: 0 <= i < j ==> policy[i].ruleId != ruleId
      {
        if ruleId == policy[j].ruleId {
          dsRuleAlsoInPolicy := true;
          assert policy[j] in policy;
          break;
        }
      }
      assert dsRuleAlsoInPolicy <==> NamesRule(policy, ruleId);
      assert profile[..k + 1][..k] == profile[..k];
      if !dsRuleAlsoInPolicy && dsRule.selected {
        r := r + [SelectElement(dsRule.idRef, false)];
      }
    }
    assert profile[..|profile|] == profile;
  }

  method AlreadySelected(profile: seq<SelectElement>, ruleId: string) returns (already: bool)
    ensures already <==> FirstSelect(profile, ruleId) == Some(true)
  {
    already := false;
    assert profile[0..] == profile;
    for j := 0 to |profile|
      invariant !already
      invariant FirstSelect(profile, ruleId) == FirstSelect(profile[j..], ruleId)
    {
      assert profile[j..][1..] == profile[j + 1..];
      if ruleId == RuleOf(profile[j].idRef) {
        if profile[j].selected {
          already := true;
        }
        return;
      }
    }
  }

  method SelectAdditionalRules(start: seq<SelectElement>, profile: seq<SelectElement>, policy: Policy)
    returns (r: seq<SelectElement>)
    ensures r == start + Added(profile, policy)
  {
    r := start;
    var seen: set<string> := {};
    for k := 0 to |policy|
      invariant r == start + Added(profile, policy[..k])
      invariant forall id :: FirstSelect(profile, id) != Some(true) ==>
                (RuleRef(id) in seen <==> NamesRule(policy[..k], id))
    {
      var rule := policy[k];
      var already := AlreadySelected(profile, rule.ruleId);
      var ruleRef := RuleRef(rule.ruleId);
      NamesSnoc(policy, k);
      assert policy[..k + 1][..k] == policy[..k];
      if !already && ruleRef !in seen {
        seen := seen + {ruleRef};
        r := r + [SelectElement(ruleRef, true)];
      }
      forall id
        ensures RuleRef(id) == ruleRef <==> id == rule.ruleId
      {
        RefsInjective(RULE_ID_PREFIX, id, rule.ruleId);
      }
    }
    assert policy[..|policy|] == policy;
  }

  lemma RefsInjective(prefix: string, a: string, b: string)
    ensures prefix + a == prefix + b <==> a == b
    ensures TrimPrefix(prefix + a, prefix) == a
  {
    assert (prefix + a)[|prefix|..] == a;
    assert (prefix + b)[|prefix|..] == b;
  }

  lemma PrefixedRef(prefix: string, idRef: string, id: string)
    requires HasPrefix(idRef, prefix)
    ensures TrimPrefix(idRef, prefix) == id <==> idRef == prefix + id
  {
    assert idRef == prefix + idRef[|prefix|..];
    RefsInjective(prefix, idRef[|prefix|..], id);
  }

  lemma NamesSnoc(policy: Policy, k: nat)
    requires k < |policy|
    ensures forall id :: NamesRule(policy[..k + 1], id) <==> NamesRule(policy[..k], id) || policy[k].ruleId == id
  {
    assert forall r :: r in policy[..k + 1] <==> r in policy[..k] || r == policy[k];
    assert policy[k] in policy[..k + 1] && NamesRule(policy[..k + 1], policy[k].ruleId);
    forall id | NamesRule(policy[..k], id)
      ensures NamesRule(policy[..k + 1], id)
    {
      var r :| r in policy[..k] && r.ruleId == id;
      assert r in policy[..k + 1];
    }
  }

  // ===== Values =====

  ghost function OptionValue(options: seq<ValueOption>, selector: string): Option<string> {
    if options == [] then None
    else if options[0].selector == selector then Some(options[0].value)
    else OptionValue(options[1..], selector)
  }

  // The search goes on past a variable of that id without the option.
  ghost function ResolvedOption(variables: seq<Variable>, id: string, selector: string): Option<string> {
    if variables == [] then None
    else if variables[0].id == id && OptionValue(variables[0].options, selector).Some? then
      OptionValue(variables[0].options, selector)
    else ResolvedOption(variables[1..], id, selector)
  }

  // Option j of variable i is the first with the selector among all variables of that id.
  ghost predicate FirstOption(variables: seq<Variable>, id: string, selector: string, i: int, j: int) {
    && 0 <= i < |variables| && variables[i].id == id
    && 0 <= j < |variables[i].options| && variables[i].options[j].selector == selector
    && (forall m :: 0 <= m < j ==> variables[i].options[m].selector != selector)
    && (forall n :: 0 <= n < i && variables[n].id == id ==> !HasOption(variables[n].options, selector))
  }

  ghost predicate HasOption(options: seq<ValueOption>, selector: string) {
    exists m :: 0 <= m < |options| && options[m].selector == selector
  }

  lemma {:induction false} OptionValueIs(options: seq<ValueOption>, selector: string)
    ensures OptionValue(options, selector).Some? <==> HasOption(options, selector)
    ensures HasOption(options, selector) ==>
              exists j :: 0 <= j < |options| && options[j].selector == selector &&
                OptionValue(options, selector) == Some(options[j].value) &&
                forall m :: 0 <= m < j ==> options[m].selector != selector
  {
    if options != [] && options[0].selector != selector {
      var rest := options[1..];
      OptionValueIs(rest, selector);
      assert forall m :: 0 <= m < |rest| ==> rest[m] == options[m + 1];
      if HasOption(options, selector) {
        var m :| 0 <= m < |options| && options[m].selector == selector;
        assert rest[m - 1].selector == selector;
        var j :| 0 <= j < |rest| && rest[j].selector == selector &&
          OptionValue(rest, selector) == Some(rest[j].value) &&
          forall n :: 0 <= n < j ==> rest[n].selector != selector;
        forall n | 0 <= n < j + 1
          ensures options[n].selector != selector
        {
          assert n == 0 || options[n] == rest[n - 1];
        }
        assert options[j + 1] == rest[j];
      }
    }
  }

  // A value resolves to the first option with its selector, if any variable of that id has one.
  lemma {:induction false} ResolvedOptionIs(variables: seq<Variable>, id: string, selector: string)
    ensures ResolvedOption(variables, id, selector).Some? <==>
            exists n :: 0 <= n < |variables| && variables[n].id == id && HasOption(variables[n].options, selector)
    ensures ResolvedOption(variables, id, selector).Some? ==>
              exists i, j :: FirstOption(variables, id, selector, i, j) &&
                ResolvedOption(variables, id, selector) == Some(variables[i].options[j].value)
  {
    if variables != [] {
      OptionValueIs(variables[0].options, selector);
      if variables[0].id == id && HasOption(variables[0].options, selector) {
        var j :| 0 <= j < |variables[0].options| && variables[0].options[j].selector == selector &&
          OptionValue(variables[0].options, selector) == Some(variables[0].options[j].value) &&
          forall m :: 0 <= m < j ==> variables[0].options[m].selector != selector;
        assert FirstOption(variables, id, selector, 0, j);
      } else {
        ResolvedOptionIs(variables[1..], id, selector);
        LaterOption(variables, id, selector);
      }
    }
  }

  lemma LaterOption(variables: seq<Variable>, id: string, selector: string)
    requires variables != [] && !(variables[0].id == id && HasOption(variables[0].options, selector))
    ensures forall i, j :: FirstOption(variables[1..], id, selector, i, j) ==>
              FirstOption(variables, id, selector, i + 1, j) && variables[1..][i] == variables[i + 1]
    ensures (exists n :: 0 <= n < |variables| && variables[n].id == id && HasOption(variables[n].options, selector)) ==>
              exists n :: 0 <= n < |variables[1..]| && variables[1..][n].id == id &&
                          HasOption(variables[1..][n].options, selector)
  {
    var rest := variables[1..];
    assert forall n :: 0 <= n < |rest| ==> rest[n] == variables[n + 1];
    forall i, j | FirstOption(rest, id, selector, i, j)
      ensures FirstOption(variables, id, selector, i + 1, j)
    {
      forall n | 0 <= n < i + 1 && variables[n].id == id
        ensures !HasOption(variables[n].options, selector)
      {
        assert n == 0 || variables[n] == rest[n - 1];
      }
    }
    if n :| 0 <= n < |variables| && variables[n].id == id && HasOption(variables[n].options, selector) {
      assert rest[n - 1] == variables[n];
    }
  }

  method FindOption(options: seq<ValueOption>, selector: string) returns (r: Option<string>)
    ensures r == OptionValue(options, selector)
  {
    assert options[0..] == options;
    for k := 0 to |options|
      invariant OptionValue(options, selector) == OptionValue(options[k..], selector)
    {
      assert options[k..][1..] == options[k + 1..];
      if options[k].selector == selector {
        return Some(options[k].value);
      }
    }
    return None;
  }

  method GetValueFromOption(variables: seq<Variable>, id: string, selector: string) returns (r: Option<string>)
    ensures r == ResolvedOption(variables, id, selector)
  {
    assert variables[0..] == variables;
    for k := 0 to |variables|
      invariant ResolvedOption(variables, id, selector) == ResolvedOption(variables[k..], id, selector)
    {
      assert variables[k..][1..] == variables[k + 1..];
      if variables[k].id == id {
        r := FindOption(variables[k].options, selector);
        if r.Some? {
          return;
        }
      }
    }
    return None;
  }

  ghost predicate Resolvable(variables: seq<Variable>, v: SetValueElement) {
    ResolvedOption(variables, v.idRef, v.value).Some?
  }

  ghost predicate AllResolvable(variables: seq<Variable>, values: seq<SetValueElement>) {
    forall v :: v in values ==> Resolvable(variables, v)
  }

  ghost predicate FailsToResolve(variables: seq<Variable>, values: seq<SetValueElement>, idRef: string) {
    exists v :: v in values && v.idRef == idRef && !Resolvable(variables, v)
  }

  // The values before the first one that does not resolve are resolved, the others left.
  ghost function Resolved(variables: seq<Variable>, values: seq<SetValueElement>): (r: seq<SetValueElement>)
    ensures |r| == |values|
  {
    if values == [] || !Resolvable(variables, values[0]) then values else
      [SetValueElement(values[0].idRef, ResolvedOption(variables, values[0].idRef, values[0].value).value)] +
      Resolved(variables, values[1..])
  }

  method ResolveDsVariableOptions(profile: ProfileElement, variables: seq<Variable>) returns (failed: Option<string>)
    modifies profile
    ensures profile.values == Resolved(variables, old(profile.values))
    ensures failed.None? <==> AllResolvable(variables, old(profile.values))
    ensures failed.Some? ==> FailsToResolve(variables, old(profile.values), failed.value)
  {
    var before := profile.values;
    ghost var done: seq<SetValueElement> := [];
    assert before == [] + before[0..];
    for i := 0 to |before|
      invariant |done| == i
      invariant profile.values == done + before[i..]
      invariant AllResolvable(variables, before[..i])
      invariant Resolved(variables, before) == done + Resolved(variables, before[i..])
    {
      var value := profile.values[i];
      assert value == before[i];
      var resolvedValue := GetValueFromOption(variables, value.idRef, value.value);
      if resolvedValue == None {
        Unresolved(variables, before, i);
        return Some(value.idRef);
      }
      var resolved := SetValueElement(value.idRef, resolvedValue.value);
      ResolvedStep(variables, before, done, i, resolved);
      profile.values := profile.values[i := resolved];
      done := done + [resolved];
    }
    assert before[..|before|] == before;
    assert done + Resolved(variables, before[|before|..]) == done;
    return None;
  }

  lemma ResolvedStep(variables: seq<Variable>, before: seq<SetValueElement>, done: seq<SetValueElement>, i: nat,
                     resolved: SetValueElement)
    requires i < |before| && |done| == i && Resolvable(variables, before[i])
    requires resolved ==
             SetValueElement(before[i].idRef, ResolvedOption(variables, before[i].idRef, before[i].value).value)
    ensures done + Resolved(variables, before[i..]) == (done + [resolved]) + Resolved(variables, before[i + 1..])
    ensures (done + before[i..])[i := resolved] == (done + [resolved]) + before[i + 1..]
    ensures AllResolvable(variables, before[..i]) ==> AllResolvable(variables, before[..i + 1])
  {
    assert before[i..][0] == before[i] && before[i..][1..] == before[i + 1..];
    assert before[..i + 1] == before[..i] + [before[i]];
  }

  lemma Unresolved(variables: seq<Variable>, before: seq<SetValueElement>, i: nat)
    requires i < |before| && !Resolvable(variables, before[i])
    ensures Resolved(variables, before[i..]) == before[i..]
    ensures !AllResolvable(variables, before) && FailsToResolve(variables, before, before[i].idRef)
  {
    assert before[i..][0] == before[i] && before[i] in before;
  }

  method AlreadySet(values: seq<SetValueElement>, prm: Parameter) returns (already: bool)
    ensures already <==> !Differs(values, prm)
  {
    already := false;
    assert values[0..] == values;
    for j := 0 to |values|
      invariant !already
      invariant FirstValue(values, prm.id) == FirstValue(values[j..], prm.id)
    {
      assert values[j..][1..] == values[j + 1..];
      if prm.id == VarOf(values[j].idRef) {
        if prm.value == values[j].value {
          already := true;
        }
        return;
      }
    }
  }

  // The seen map holds the references already emitted.
  ghost predicate SeenVars(seen: set<string>, values: seq<SetValueElement>, prms: seq<Parameter>) {
    forall id :: VarRef(id) in seen <==> AnyDiffers(values, prms, id)
  }

  method UpdateRuleValues(start: seq<SetValueElement>, seen0: set<string>, values: seq<SetValueElement>,
                          prms: seq<Parameter>, ghost done: seq<Parameter>)
    returns (r: seq<SetValueElement>, seen: set<string>)
    requires SeenVars(seen0, values, done) && start == AddedValues(values, done)
    ensures SeenVars(seen, values, done + prms) && r == AddedValues(values, done + prms)
  {
    r, seen := start, seen0;
    assert done + prms[..0] == done;
    for k := 0 to |prms|
      invariant SeenVars(seen, values, done + prms[..k])
      invariant r == AddedValues(values, done + prms[..k])
    {
      var prm := prms[k];
      var already := AlreadySet(values, prm);
      var varRef := VarRef(prm.id);
      AddedSnoc(values, done, prms, k);
      forall id
        ensures VarRef(id) == varRef <==> id == prm.id
      {
        RefsInjective(VAR_ID_PREFIX, id, prm.id);
      }
      if !already && varRef !in seen {
        seen := seen + {varRef};
        r := r + [SetValueElement(varRef, prm.value)];
      }
    }
    assert prms[..|prms|] == prms;
  }

  lemma AddedSnoc(values: seq<SetValueElement>, done: seq<Parameter>, prms: seq<Parameter>, k: nat)
    requires k < |prms|
    ensures var before, prm := done + prms[..k], prms[k];
            && AddedValues(values, done + prms[..k + 1]) ==
               AddedValues(values, before) +
               (if Differs(values, prm) && !AnyDiffers(values, before, prm.id) then
                   [SetValueElement(VarRef(prm.id), prm.value)]
                else [])
            && forall id :: AnyDiffers(values, done + prms[..k + 1], id) <==>
                 AnyDiffers(values, before, id) || (prm.id == id && Differs(values, prm))
  {
    var before, after := done + prms[..k], done + prms[..k + 1];
    assert after == before + [prms[k]];
    assert after[..|after| - 1] == before;
    assert forall q :: q in after <==> q in before || q == prms[k];
  }

  method UpdateTailoringValues(values: seq<SetValueElement>, policy: Policy)
    returns (r: seq<SetValueElement>)
    ensures r == AddedValues(values, Params(policy))
  {
    r := [];
    var seen: set<string> := {};
    for k := 0 to |policy|
      invariant r == AddedValues(values, Params(policy[..k]))
      invariant SeenVars(seen, values, Params(policy[..k]))
    {
      assert policy[..k + 1][..k] == policy[..k];
      r, seen := UpdateRuleValues(r, seen, values, policy[k].parameters, Params(policy[..k]));
    }
    assert policy[..|policy|] == policy;
  }

  // ===== The whole generator =====

  datatype TailoringProfile = TailoringProfile(selections: seq<SelectElement>, values: seq<SetValueElement>)

  datatype Error =
    | EmptyPolicy
    | UnknownRules(ruleIds: seq<string>)
    | UnknownVariable(varId: string)
    | UnresolvedValue(idRef: string)

  datatype Result = Success(profile: TailoringProfile) | Failure(error: Error)

  ghost predicate KnownRule(dsRules: seq<string>, ruleId: string) {
    exists d :: d in dsRules && RuleOf(d) == ruleId
  }

  ghost predicate KnownVariable(variables: seq<Variable>, varId: string) {
    exists v :: v in variables && VarOf(v.id) == varId
  }

  // The reference is that of the id, or the id itself when that does not start with the prefix.
  ghost predicate RefersTo(idRef: string, prefix: string, id: string) {
    idRef == prefix + id || (idRef == id && !(prefix <= id))
  }

  lemma StripsTo(idRef: string, prefix: string, id: string)
    ensures TrimPrefix(idRef, prefix) == id <==> RefersTo(idRef, prefix, id)
  {
    RefsInjective(prefix, id, id);
    if HasPrefix(idRef, prefix) {
      PrefixedRef(prefix, idRef, id);
    }
  }

  ghost predicate HasRule(dsRules: seq<string>, ruleId: string) {
    exists i :: 0 <= i < |dsRules| && RefersTo(dsRules[i], "xccdf_org.ssgproject.content_rule_", ruleId)
  }

  ghost predicate HasVariable(variables: seq<Variable>, varId: string) {
    exists i :: 0 <= i < |variables| && RefersTo(variables[i].id, "xccdf_org.ssgproject.content_value_", varId)
  }

  lemma KnownRuleMeaning(dsRules: seq<string>, ruleId: string)
    ensures KnownRule(dsRules, ruleId) <==> HasRule(dsRules, ruleId)
  {
    forall d
      ensures RuleOf(d) == ruleId <==> RefersTo(d, RULE_ID_PREFIX, ruleId)
    {
      StripsTo(d, RULE_ID_PREFIX, ruleId);
    }
  }

  lemma KnownVariableMeaning(variables: seq<Variable>, varId: string)
    ensures KnownVariable(variables, varId) <==> HasVariable(variables, varId)
  {
    forall v: Variable
      ensures VarOf(v.id) == varId <==> RefersTo(v.id, VAR_ID_PREFIX, varId)
    {
      StripsTo(v.id, VAR_ID_PREFIX, varId);
    }
  }

  lemma KnownMeaning(dsRules: seq<string>, variables: seq<Variable>)
    ensures forall id :: KnownRule(dsRules, id) <==> HasRule(dsRules, id)
    ensures forall id :: KnownVariable(variables, id) <==> HasVariable(variables, id)
  {
    forall id
      ensures KnownRule(dsRules, id) <==> HasRule(dsRules, id)
      ensures KnownVariable(variables, id) <==> HasVariable(variables, id)
    {
      KnownRuleMeaning(dsRules, id);
      KnownVariableMeaning(variables, id);
    }
  }

  // The data stream has every rule and parameter of the policy.
  ghost predicate InDataStream(policy: Policy, dsRules: seq<string>, variables: seq<Variable>) {
    && (forall k :: 0 <= k < |policy| ==> HasRule(dsRules, policy[k].ruleId))
    && (forall k, j :: 0 <= k < |policy| && 0 <= j < |policy[k].parameters| ==>
          HasVariable(variables, policy[k].parameters[j].id))
  }

  // Policies are accepted whose rules and parameters the data stream has under their prefixed references.
  lemma PrefixedInDataStream(policy: Policy, dsRules: seq<string>, variables: seq<Variable>)
    requires forall k :: 0 <= k < |policy| ==> "xccdf_org.ssgproject.content_rule_" + policy[k].ruleId in dsRules
    requires forall k, j :: 0 <= k < |policy| && 0 <= j < |policy[k].parameters| ==>
               exists i :: 0 <= i < |variables| &&
                 variables[i].id == "xccdf_org.ssgproject.content_value_" + policy[k].parameters[j].id
    ensures InDataStream(policy, dsRules, variables)
  {
    forall k | 0 <= k < |policy|
      ensures HasRule(dsRules, policy[k].ruleId)
    {
      var i :| 0 <= i < |dsRules| && dsRules[i] == "xccdf_org.ssgproject.content_rule_" + policy[k].ruleId;
      assert RefersTo(dsRules[i], "xccdf_org.ssgproject.content_rule_", policy[k].ruleId);
    }
  }

  lemma ParameterInDataStream(value: string, options: seq<ValueOption>)
    ensures InDataStream([RuleSet("r", [Parameter("v", value)], [])], ["xccdf_org.ssgproject.content_rule_r"],
                         [Variable("xccdf_org.ssgproject.content_value_v", options)])
  {
    var policy := [RuleSet("r", [Parameter("v", value)], [])];
    var dsRules := ["xccdf_org.ssgproject.content_rule_r"];
    var variables := [Variable("xccdf_org.ssgproject.content_value_v", options)];
    assert "xccdf_org.ssgproject.content_rule_" + "r" == dsRules[0];
    assert "xccdf_org.ssgproject.content_value_" + "v" == variables[0].id;
    PrefixedInDataStream(policy, dsRules, variables);
  }

  // Some variable with the value's reference as id has an option with the value as selector.
  ghost predicate OptionFor(variables: seq<Variable>, v: SetValueElement) {
    exists i, j ::
      && 0 <= i < |variables| && variables[i].id == v.idRef
      && 0 <= j < |variables[i].options| && variables[i].options[j].selector == v.value
  }

  ghost predicate ValuesResolve(values: seq<SetValueElement>, variables: seq<Variable>) {
    forall k :: 0 <= k < |values| ==> OptionFor(variables, values[k])
  }

  lemma ResolvableMeaning(variables: seq<Variable>, values: seq<SetValueElement>)
    ensures AllResolvable(variables, values) <==> ValuesResolve(values, variables)
  {
    forall v
      ensures Resolvable(variables, v) <==> OptionFor(variables, v)
    {
      ResolvedOptionIs(variables, v.idRef, v.value);
    }
    forall k | 0 <= k < |values|
      ensures values[k] in values
    {
    }
  }

  lemma RulesKnown(policy: Policy, dsRules: seq<string>)
    ensures (forall rule :: rule in policy ==> KnownRule(dsRules, rule.ruleId)) <==>
            forall k :: 0 <= k < |policy| ==> HasRule(dsRules, policy[k].ruleId)
  {
    forall k | 0 <= k < |policy|
      ensures policy[k] in policy
      ensures KnownRule(dsRules, policy[k].ruleId) <==> HasRule(dsRules, policy[k].ruleId)
    {
      KnownRuleMeaning(dsRules, policy[k].ruleId);
    }
  }

  lemma VariablesKnown(policy: Policy, variables: seq<Variable>)
    ensures (forall q :: q in Params(policy) ==> KnownVariable(variables, q.id)) <==>
            forall k, j :: 0 <= k < |policy| && 0 <= j < |policy[k].parameters| ==>
              HasVariable(variables, policy[k].parameters[j].id)
  {
    var at := ParamsByPosition(policy);
    forall k, j | 0 <= k < |policy| && 0 <= j < |policy[k].parameters|
      ensures policy[k].parameters[j] in Params(policy)
    {
      assert (k as nat, j as nat) in at;
    }
    forall q | q in Params(policy)
      ensures KnownVariable(variables, q.id) <==> HasVariable(variables, q.id)
      ensures exists k, j :: 0 <= k < |policy| && 0 <= j < |policy[k].parameters| && policy[k].parameters[j] == q
    {
      KnownVariableMeaning(variables, q.id);
      var n :| 0 <= n < |at| && Params(policy)[n] == q;
      assert policy[at[n].0].parameters[at[n].1] == q;
    }
  }

  lemma AcceptableMeaning(policy: Policy, values: seq<SetValueElement>, dsRules: seq<string>,
                          variables: seq<Variable>)
    ensures Acceptable(policy, values, dsRules, variables) <==>
            InDataStream(policy, dsRules, variables) && ValuesResolve(values, variables)
  {
    RulesKnown(policy, dsRules);
    VariablesKnown(policy, variables);
    ResolvableMeaning(variables, values);
  }

  method ValidateRuleExistence(ruleId: string, dsRules: seq<string>) returns (known: bool)
    ensures known <==> KnownRule(dsRules, ruleId)
  {
    for k := 0 to |dsRules|
      invariant forall d :: d in dsRules[..k] ==> RuleOf(d) != ruleId
    {
      if RuleOf(dsRules[k]) == ruleId {
        assert dsRules[k] in dsRules;
        return true;
      }
    }
    return false;
  }

  method ValidateVariableExistence(varId: string, variables: seq<Variable>) returns (known: bool)
    ensures known <==> KnownVariable(variables, varId)
  {
    for k := 0 to |variables|
      invariant forall v :: v in variables[..k] ==> VarOf(v.id) != varId
    {
      if VarOf(variables[k].id) == varId {
        assert variables[k] in variables;
        return true;
      }
    }
    return false;
  }

  method GetTailoringSelections(policy: Policy, profile: ProfileElement, dsRules: seq<string>)
    returns (r: seq<SelectElement>, unknown: seq<string>)
    ensures unknown == [] <==> forall rule :: rule in policy ==> KnownRule(dsRules, rule.ruleId)
    ensures forall id :: id in unknown <==> NamesRule(policy, id) && !KnownRule(dsRules, id)
    ensures unknown == [] ==> r == Emitted(profile.selections, policy)
  {
    r, unknown := [], [];
    for k := 0 to |policy|
      invariant forall id :: id in unknown <==> NamesRule(policy[..k], id) && !KnownRule(dsRules, id)
    {
      NamesSnoc(policy, k);
      var known := ValidateRuleExistence(policy[k].ruleId, dsRules);
      if !known {
        unknown := unknown + [policy[k].ruleId];
      }
    }
    assert policy[..|policy|] == policy;
    if |unknown| > 0 {
      assert unknown[0] in unknown;
      return;
    }
    forall rule | rule in policy
      ensures KnownRule(dsRules, rule.ruleId)
    {
      assert NamesRule(policy, rule.ruleId);
    }
    r := UnselectAbsentRules(r, profile.selections, policy);
    r := SelectAdditionalRules(r, profile.selections, policy);
    assert r == [] + Unselected(profile.selections, policy) + Added(profile.selections, policy);
  }

  method UnknownVariableIn(prms: seq<Parameter>, variables: seq<Variable>) returns (unknown: Option<string>)
    ensures unknown.None? ==> forall q :: q in prms ==> KnownVariable(variables, q.id)
    ensures unknown.Some? ==> !KnownVariable(variables, unknown.value) && exists q :: q in prms && q.id == unknown.value
  {
    for k := 0 to |prms|
      invariant forall q :: q in prms[..k] ==> KnownVariable(variables, q.id)
    {
      var known := ValidateVariableExistence(prms[k].id, variables);
      if !known {
        assert prms[k] in prms;
        return Some(prms[k].id);
      }
    }
    return None;
  }

  method FindUnknownVariable(policy: Policy, variables: seq<Variable>) returns (unknown: Option<string>)
    ensures unknown.None? ==> forall q :: q in Params(policy) ==> KnownVariable(variables, q.id)
    ensures unknown.Some? ==>
              !KnownVariable(variables, unknown.value) && exists q :: q in Params(policy) && q.id == unknown.value
  {
    for k := 0 to |policy|
      invariant forall q :: q in Params(policy[..k]) ==> KnownVariable(variables, q.id)
    {
      assert policy[..k + 1][..k] == policy[..k];
      unknown := UnknownVariableIn(policy[k].parameters, variables);
      if unknown.Some? {
        ParamsOfRule(policy, k);
        return;
      }
    }
    assert policy[..|policy|] == policy;
    return None;
  }

  lemma {:induction false} ParamsOfRule(policy: Policy, k: nat)
    requires k < |policy|
    ensures forall q :: q in policy[k].parameters ==> q in Params(policy)
  {
    var init := policy[..|policy| - 1];
    if k < |init| {
      assert init[k] == policy[k];
      ParamsOfRule(init, k);
    }
  }

  ghost predicate Acceptable(policy: Policy, values: seq<SetValueElement>, dsRules: seq<string>,
                             variables: seq<Variable>) {
    && (forall rule :: rule in policy ==> KnownRule(dsRules, rule.ruleId))
    && (forall q :: q in Params(policy) ==> KnownVariable(variables, q.id))
    && AllResolvable(variables, values)
  }

  // nil policies are an error; rules are checked before variables, variables before options.
  method PolicyToTailoring(policy: Option<Policy>, profile: ProfileElement, dsRules: seq<string>,
                           variables: seq<Variable>)
    returns (r: Result)
    modifies profile
    ensures r.Success? <==>
            && policy.Some? && InDataStream(policy.value, dsRules, variables)
            && ValuesResolve(old(profile.values), variables)
    ensures r.Success? ==>
              r.profile == TailoringProfile(Emitted(profile.selections, policy.value),
                                            AddedValues(Resolved(variables, old(profile.values)), Params(policy.value)))
    ensures r.Failure? && (r.error.EmptyPolicy? || r.error.UnknownRules? || r.error.UnknownVariable?) ==>
              profile.values == old(profile.values)
    ensures match r
            case Success(_) => true
            case Failure(EmptyPolicy) => policy.None?
            case Failure(UnknownRules(ids)) =>
              policy.Some? && ids != [] &&
              forall id :: id in ids <==> NamesRule(policy.value, id) && !HasRule(dsRules, id)
            case Failure(UnknownVariable(id)) =>
              policy.Some? && !HasVariable(variables, id) && exists q :: q in Params(policy.value) && q.id == id
            case Failure(UnresolvedValue(idRef)) =>
              FailsToResolve(variables, old(profile.values), idRef) &&
              profile.values == Resolved(variables, old(profile.values))
  {
    if policy == None {
      return Failure(EmptyPolicy);
    }
    AcceptableMeaning(policy.value, profile.values, dsRules, variables);
    KnownMeaning(dsRules, variables);
    var selections, unknownRules := GetTailoringSelections(policy.value, profile, dsRules);
    if |unknownRules| > 0 {
      return Failure(UnknownRules(unknownRules));
    }
    var unknownVariable := FindUnknownVariable(policy.value, variables);
    if unknownVariable.Some? {
      return Failure(UnknownVariable(unknownVariable.value));
    }
    var failed := ResolveDsVariableOptions(profile, variables);
    if failed.Some? {
      return Failure(UnresolvedValue(failed.value));
    }
    var values := UpdateTailoringValues(profile.values, policy.value);
    return Success(TailoringProfile(selections, values));
  }
}
