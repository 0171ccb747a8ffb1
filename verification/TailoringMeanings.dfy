/** The look-ups and lists of the tailoring generator, spelled out by positions in the profile and the
    policy: which of several entries counts, and what is emitted in which order. */
module TailoringMeanings {
  import opened Wrappers
  import opened Positions
  import opened Tailoring
  import opened TailoringTheorems

  // ===== Which of several entries counts =====

  // Entry i is the first that refers to the rule.
  ghost predicate FirstEntry(profile: seq<SelectElement>, ruleId: string, i: int) {
    && 0 <= i < |profile| && RefersTo(profile[i].idRef, "xccdf_org.ssgproject.content_rule_", ruleId)
    && forall m :: 0 <= m < i ==> !RefersTo(profile[m].idRef, "xccdf_org.ssgproject.content_rule_", ruleId)
  }

  // The first entry says whether a rule is selected already.
  lemma {:induction false} FirstSelectMeaning(profile: seq<SelectElement>, ruleId: string, selected: bool)
    ensures FirstSelect(profile, ruleId) == Some(selected) <==>
            exists i :: FirstEntry(profile, ruleId, i) && profile[i].selected == selected
  {
    if profile != [] {
      var rest := profile[1..];
      StripsTo(profile[0].idRef, RULE_ID_PREFIX, ruleId);
      FirstSelectMeaning(rest, ruleId, selected);
      if RuleOf(profile[0].idRef) == ruleId {
        assert FirstEntry(profile, ruleId, 0);
      } else {
        forall i | 0 < i
          ensures FirstEntry(profile, ruleId, i) <==> FirstEntry(rest, ruleId, i - 1)
          ensures i < |profile| ==> profile[i] == rest[i - 1]
        {
          assert forall m :: 0 < m < |profile| ==> profile[m] == rest[m - 1];
          assert forall m :: 0 <= m < |rest| ==> rest[m] == profile[m + 1];
        }
        if i :| FirstEntry(rest, ruleId, i) && rest[i].selected == selected {
          assert FirstEntry(profile, ruleId, i + 1);
        }
      }
    }
  }

  ghost predicate FirstSet(values: seq<SetValueElement>, varId: string, i: int) {
    && 0 <= i < |values| && RefersTo(values[i].idRef, "xccdf_org.ssgproject.content_value_", varId)
    && forall m :: 0 <= m < i ==> !RefersTo(values[m].idRef, "xccdf_org.ssgproject.content_value_", varId)
  }

  // The first entry gives the value a parameter is compared with.
  lemma {:induction false} FirstValueMeaning(values: seq<SetValueElement>, varId: string, value: string)
    ensures FirstValue(values, varId) == Some(value) <==>
            exists i :: FirstSet(values, varId, i) && values[i].value == value
  {
    if values != [] {
      var rest := values[1..];
      StripsTo(values[0].idRef, VAR_ID_PREFIX, varId);
      FirstValueMeaning(rest, varId, value);
      if VarOf(values[0].idRef) == varId {
        assert FirstSet(values, varId, 0);
      } else {
        forall i | 0 < i
          ensures FirstSet(values, varId, i) <==> FirstSet(rest, varId, i - 1)
          ensures i < |values| ==> values[i] == rest[i - 1]
        {
          assert forall m :: 0 < m < |values| ==> values[m] == rest[m - 1];
          assert forall m :: 0 <= m < |rest| ==> rest[m] == values[m + 1];
        }
        if i :| FirstSet(rest, varId, i) && rest[i].value == value {
          assert FirstSet(values, varId, i + 1);
        }
      }
    }
  }

  // ----- Replaying: the last entry counts -----

  ghost predicate LastEntryFor(sels: seq<SelectElement>, idRef: string, i: int) {
    && 0 <= i < |sels| && sels[i].idRef == idRef
    && forall m :: i < m < |sels| ==> sels[m].idRef != idRef
  }

  lemma {:induction false} LastSelectMeaning(sels: seq<SelectElement>, idRef: string, selected: bool)
    ensures LastSelect(sels, idRef) == Some(selected) <==>
            exists i :: LastEntryFor(sels, idRef, i) && sels[i].selected == selected
  {
    if sels != [] {
      var init := sels[..|sels| - 1];
      LastSelectMeaning(init, idRef, selected);
      if sels[|sels| - 1].idRef == idRef {
        assert LastEntryFor(sels, idRef, |sels| - 1);
      } else {
        forall i
          ensures LastEntryFor(sels, idRef, i) <==> LastEntryFor(init, idRef, i)
        {
          assert forall m :: 0 <= m < |init| ==> init[m] == sels[m];
        }
      }
    }
  }

  ghost predicate LastSetFor(values: seq<SetValueElement>, idRef: string, i: int) {
    && 0 <= i < |values| && values[i].idRef == idRef
    && forall m :: i < m < |values| ==> values[m].idRef != idRef
  }

  lemma {:induction false} LastValueMeaning(values: seq<SetValueElement>, idRef: string, value: string)
    ensures LastValue(values, idRef) == Some(value) <==>
            exists i :: LastSetFor(values, idRef, i) && values[i].value == value
  {
    if values != [] {
      var init := values[..|values| - 1];
      LastValueMeaning(init, idRef, value);
      if values[|values| - 1].idRef == idRef {
        assert LastSetFor(values, idRef, |values| - 1);
      } else {
        forall i
          ensures LastSetFor(values, idRef, i) <==> LastSetFor(init, idRef, i)
        {
          assert forall m :: 0 <= m < |init| ==> init[m] == values[m];
        }
      }
    }
  }

  // ===== What is emitted, in which order =====

  // No rule of the policy is the one the reference is for.
  ghost predicate Absent(policy: Policy, idRef: string) {
    forall k :: 0 <= k < |policy| ==> !RefersTo(idRef, "xccdf_org.ssgproject.content_rule_", policy[k].ruleId)
  }

  lemma AbsentMeaning(policy: Policy, idRef: string)
    ensures NamesRule(policy, RuleOf(idRef)) <==> !Absent(policy, idRef)
  {
    forall k | 0 <= k < |policy|
      ensures RuleOf(idRef) == policy[k].ruleId <==>
              RefersTo(idRef, "xccdf_org.ssgproject.content_rule_", policy[k].ruleId)
    {
      StripsTo(idRef, RULE_ID_PREFIX, policy[k].ruleId);
    }
    if k :| 0 <= k < |policy| && RefersTo(idRef, "xccdf_org.ssgproject.content_rule_", policy[k].ruleId) {
      assert policy[k] in policy;
    }
  }

  ghost function UnselectFor(profile: seq<SelectElement>, policy: Policy, k: nat): Option<SelectElement> {
    if k < |profile| && profile[k].selected && Absent(policy, profile[k].idRef) then
      Some(SelectElement(profile[k].idRef, false))
    else
      None
  }

  lemma UnselectForStep(profile: seq<SelectElement>, policy: Policy)
    requires profile != []
    ensures var init := profile[..|profile| - 1];
            && (forall k: nat :: k < |init| ==> UnselectFor(init, policy, k) == UnselectFor(profile, policy, k))
            && Unselected(profile, policy) ==
               Unselected(init, policy) +
               match UnselectFor(profile, policy, |init|) case None => [] case Some(e) => [e]
  {
    AbsentMeaning(policy, profile[|profile| - 1].idRef);
  }

  // One unselect for each selected entry of the profile that is for no rule of the policy, in order.
  lemma {:induction false} UnselectedInOrder(profile: seq<SelectElement>, policy: Policy) returns (at: seq<nat>)
    ensures Picks(Unselected(profile, policy), |profile|, at, (k: nat) => UnselectFor(profile, policy, k))
  {
    if profile == [] {
      at := [];
    } else {
      var init := profile[..|profile| - 1];
      var before := UnselectedInOrder(init, policy);
      var f, g := (k: nat) => UnselectFor(init, policy, k), (k: nat) => UnselectFor(profile, policy, k);
      UnselectForStep(profile, policy);
      PicksSame(Unselected(init, policy), |init|, before, f, g);
      PicksNext(Unselected(init, policy), |init|, before, g);
      at := if g(|init|).Some? then before + [|init|] else before;
    }
  }

  // Rule k of the policy is not selected by the profile's first entry for it, and is named there
  // first.
  ghost function SelectFor(profile: seq<SelectElement>, policy: Policy, k: nat): Option<SelectElement> {
    if && k < |policy|
       && (forall i :: FirstEntry(profile, policy[k].ruleId, i) ==> !profile[i].selected)
       && (forall j :: 0 <= j < k ==> policy[j].ruleId != policy[k].ruleId) then
      Some(SelectElement("xccdf_org.ssgproject.content_rule_" + policy[k].ruleId, true))
    else
      None
  }

  lemma NamedBefore(policy: Policy, id: string)
    ensures NamesRule(policy, id) <==> exists j :: 0 <= j < |policy| && policy[j].ruleId == id
  {
    if j :| 0 <= j < |policy| && policy[j].ruleId == id {
      assert policy[j] in policy;
    }
  }

  lemma SelectForStep(profile: seq<SelectElement>, policy: Policy)
    requires policy != []
    ensures var init := policy[..|policy| - 1];
            && (forall k: nat :: k < |init| ==> SelectFor(profile, init, k) == SelectFor(profile, policy, k))
            && Added(profile, policy) ==
               Added(profile, init) + match SelectFor(profile, policy, |init|) case None => [] case Some(e) => [e]
  {
    var init, last := policy[..|policy| - 1], policy[|policy| - 1];
    assert forall j :: 0 <= j < |init| ==> init[j] == policy[j];
    FirstSelectMeaning(profile, last.ruleId, true);
    NamedBefore(init, last.ruleId);
  }

  // One select for each rule of the policy that is not selected yet, at its first occurrence, in order.
  lemma {:induction false} AddedInOrder(profile: seq<SelectElement>, policy: Policy) returns (at: seq<nat>)
    ensures Picks(Added(profile, policy), |policy|, at, (k: nat) => SelectFor(profile, policy, k))
  {
    if policy == [] {
      at := [];
    } else {
      var init := policy[..|policy| - 1];
      var before := AddedInOrder(profile, init);
      var f, g := (k: nat) => SelectFor(profile, init, k), (k: nat) => SelectFor(profile, policy, k);
      SelectForStep(profile, policy);
      PicksSame(Added(profile, init), |init|, before, f, g);
      PicksNext(Added(profile, init), |init|, before, g);
      at := if g(|init|).Some? then before + [|init|] else before;
    }
  }

  // The first value set for the parameter, if there is one, is another.
  ghost predicate NeedsSet(values: seq<SetValueElement>, p: Parameter) {
    forall i :: FirstSet(values, p.id, i) ==> values[i].value != p.value
  }

  lemma DiffersMeaning(values: seq<SetValueElement>, p: Parameter)
    ensures Differs(values, p) <==> NeedsSet(values, p)
  {
    FirstValueMeaning(values, p.id, p.value);
  }

  ghost function SetFor(values: seq<SetValueElement>, prms: seq<Parameter>, k: nat): Option<SetValueElement> {
    if && k < |prms| && NeedsSet(values, prms[k])
       && (forall j :: 0 <= j < k && prms[j].id == prms[k].id ==> !NeedsSet(values, prms[j])) then
      Some(SetValueElement("xccdf_org.ssgproject.content_value_" + prms[k].id, prms[k].value))
    else
      None
  }

  lemma AnyDiffersMeaning(values: seq<SetValueElement>, prms: seq<Parameter>, id: string)
    ensures AnyDiffers(values, prms, id) <==>
            exists j :: 0 <= j < |prms| && prms[j].id == id && NeedsSet(values, prms[j])
  {
    forall j | 0 <= j < |prms|
      ensures prms[j] in prms && (Differs(values, prms[j]) <==> NeedsSet(values, prms[j]))
    {
      DiffersMeaning(values, prms[j]);
    }
  }

  lemma SetForEarlier(values: seq<SetValueElement>, prms: seq<Parameter>, k: nat)
    requires k < |prms| - 1
    ensures SetFor(values, prms[..|prms| - 1], k) == SetFor(values, prms, k)
  {
    assert forall j :: 0 <= j <= k ==> prms[..|prms| - 1][j] == prms[j];
  }

  lemma SetForLast(values: seq<SetValueElement>, prms: seq<Parameter>)
    requires prms != []
    ensures var init := prms[..|prms| - 1];
            AddedValues(values, prms) ==
            AddedValues(values, init) + match SetFor(values, prms, |init|) case None => [] case Some(e) => [e]
  {
    var init, last := prms[..|prms| - 1], prms[|prms| - 1];
    assert forall j :: 0 <= j < |init| ==> init[j] == prms[j];
    DiffersMeaning(values, last);
    AnyDiffersMeaning(values, init, last.id);
  }

  // One set-value for each parameter with another value than the first the profile sets, at the first
  // such occurrence, in order.
  lemma {:induction false} AddedValuesInOrder(values: seq<SetValueElement>, prms: seq<Parameter>)
    returns (at: seq<nat>)
    ensures Picks(AddedValues(values, prms), |prms|, at, (k: nat) => SetFor(values, prms, k))
  {
    if prms == [] {
      at := [];
    } else {
      var init := prms[..|prms| - 1];
      var before := AddedValuesInOrder(values, init);
      var f, g := (k: nat) => SetFor(values, init, k), (k: nat) => SetFor(values, prms, k);
      forall k: nat | k < |init|
        ensures f(k) == g(k)
      {
        SetForEarlier(values, prms, k);
      }
      SetForLast(values, prms);
      PicksSame(AddedValues(values, init), |init|, before, f, g);
      PicksNext(AddedValues(values, init), |init|, before, g);
      at := if g(|init|).Some? then before + [|init|] else before;
    }
  }

  // ===== Resolving =====

  // Up to the first value without an option every value is replaced by its option's, and none from
  // there on.
  lemma {:induction false} ResolvedMeaning(variables: seq<Variable>, values: seq<SetValueElement>, n: nat)
    requires n <= |values| && forall k :: 0 <= k < n ==> OptionFor(variables, values[k])
    requires n < |values| ==> !OptionFor(variables, values[n])
    ensures forall k :: n <= k < |values| ==> Resolved(variables, values)[k] == values[k]
    ensures forall k :: 0 <= k < n ==>
              Resolved(variables, values)[k].idRef == values[k].idRef &&
              exists i, j :: FirstOption(variables, values[k].idRef, values[k].value, i, j) &&
                Resolved(variables, values)[k].value == variables[i].options[j].value
  {
    if values != [] {
      var rest := values[1..];
      ResolvedOptionIs(variables, values[0].idRef, values[0].value);
      if n > 0 {
        assert OptionFor(variables, values[0]);
        assert Resolvable(variables, values[0]);
        assert forall k :: 0 <= k < |rest| ==> rest[k] == values[k + 1];
        ResolvedMeaning(variables, rest, n - 1);
        ResolvedTail(variables, values);
      }
    }
  }

  lemma ResolvedTail(variables: seq<Variable>, values: seq<SetValueElement>)
    requires values != [] && Resolvable(variables, values[0])
    ensures forall k :: 0 < k < |values| ==>
              values[k] == values[1..][k - 1] &&
              Resolved(variables, values)[k] == Resolved(variables, values[1..])[k - 1]
  {
  }
}
