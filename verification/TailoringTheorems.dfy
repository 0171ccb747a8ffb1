/** What an emitted tailoring means: replayed over the profile it extends, it selects what the
    policy names and sets the policy's values.

    XCCDF 1.2 (NIST IR 7275 Revision 4), sections 6.5 and 6.7: a tailoring profile that extends
    a profile is processed after it, and a later select or set-value for the same reference
    takes the place of an earlier one. */
module TailoringTheorems {
  import opened Wrappers
  import opened GoStrings
  import opened Tailoring

  // ===== Replaying selects =====

  ghost function LastSelect(sels: seq<SelectElement>, idRef: string): Option<bool> {
    if sels == [] then None
    else if sels[|sels| - 1].idRef == idRef then Some(sels[|sels| - 1].selected)
    else LastSelect(sels[..|sels| - 1], idRef)
  }

  // Whether a rule is selected after the selects, given what it was before.
  ghost function Replay(sels: seq<SelectElement>, idRef: string, before: bool): bool {
    LastSelect(sels, idRef).GetOr(before)
  }

  // The rule under the tailoring: the benchmark's default, the profile, then the overrides.
  ghost function Tailored(profile: seq<SelectElement>, overrides: seq<SelectElement>, idRef: string,
                          default: bool): bool {
    Replay(overrides, idRef, Replay(profile, idRef, default))
  }

  ghost predicate Mentions(sels: seq<SelectElement>, idRef: string) {
    exists e :: e in sels && e.idRef == idRef
  }

  ghost predicate Wanted(policy: Policy, idRef: string) {
    exists r :: r in policy && RuleRef(r.ruleId) == idRef
  }

  ghost predicate Named(profile: seq<SelectElement>, policy: Policy, idRef: string) {
    Mentions(profile, idRef) || Wanted(policy, idRef)
  }

  // The overrides make every rule named by the profile or the policy selected exactly when the
  // policy names it, whatever the benchmark's defaults, and touch no other rule.
  ghost predicate MeansPolicy(profile: seq<SelectElement>, policy: Policy, overrides: seq<SelectElement>) {
    forall idRef, default ::
      Tailored(profile, overrides, idRef, default) ==
      if Named(profile, policy, idRef) then Wanted(policy, idRef) else default
  }

  // ----- The emitted selects -----

  lemma {:induction false} LastSelectIn(sels: seq<SelectElement>, idRef: string)
    ensures LastSelect(sels, idRef).Some? <==> Mentions(sels, idRef)
    ensures LastSelect(sels, idRef).Some? ==> SelectElement(idRef, LastSelect(sels, idRef).value) in sels
  {
    if sels != [] {
      var init, last := sels[..|sels| - 1], sels[|sels| - 1];
      assert sels == init + [last];
      LastSelectIn(init, idRef);
      assert forall e :: e in sels <==> e in init || e == last;
    }
  }

  lemma {:induction false} UnselectedElements(profile: seq<SelectElement>, policy: Policy)
    ensures forall e :: e in Unselected(profile, policy) <==>
              !e.selected && SelectElement(e.idRef, true) in profile && !NamesRule(policy, RuleOf(e.idRef))
  {
    if profile != [] {
      var init, last := profile[..|profile| - 1], profile[|profile| - 1];
      UnselectedElements(init, policy);
      assert forall e :: e in profile <==> e in init || e == last;
    }
  }

  lemma {:induction false} AddedElements(profile: seq<SelectElement>, policy: Policy)
    ensures forall e :: e in Added(profile, policy) <==>
              e.selected &&
              exists r :: r in policy && RuleRef(r.ruleId) == e.idRef && FirstSelect(profile, r.ruleId) != Some(true)
  {
    if policy != [] {
      var init, last := policy[..|policy| - 1], policy[|policy| - 1];
      AddedElements(profile, init);
      assert forall r :: r in policy <==> r in init || r == last;
      if NamesRule(init, last.ruleId) {
        var r :| r in init && r.ruleId == last.ruleId;
        assert RuleRef(r.ruleId) == RuleRef(last.ruleId);
      }
    }
  }

  lemma WantedIsNamed(policy: Policy, idRef: string)
    ensures Wanted(policy, idRef) <==> HasPrefix(idRef, RULE_ID_PREFIX) && NamesRule(policy, RuleOf(idRef))
  {
    if HasPrefix(idRef, RULE_ID_PREFIX) {
      assert idRef == RULE_ID_PREFIX + idRef[|RULE_ID_PREFIX|..];
      assert idRef == RuleRef(RuleOf(idRef));
    }
    forall r | r in policy && RuleRef(r.ruleId) == idRef
      ensures HasPrefix(idRef, RULE_ID_PREFIX) && RuleOf(idRef) == r.ruleId
    {
      RefsInjective(RULE_ID_PREFIX, r.ruleId, r.ruleId);
    }
  }

  // What the emitted list says of a reference: selected, unselected, or nothing.
  lemma EmittedSays(profile: seq<SelectElement>, policy: Policy, idRef: string)
    ensures SelectElement(idRef, true) in Emitted(profile, policy) <==>
            Wanted(policy, idRef) && FirstSelect(profile, RuleOf(idRef)) != Some(true)
    ensures SelectElement(idRef, false) in Emitted(profile, policy) <==>
            SelectElement(idRef, true) in profile && !NamesRule(policy, RuleOf(idRef))
    ensures LastSelect(Emitted(profile, policy), idRef) ==
            if SelectElement(idRef, true) in Emitted(profile, policy) then Some(true)
            else if SelectElement(idRef, false) in Emitted(profile, policy) then Some(false)
            else None
  {
    UnselectedElements(profile, policy);
    AddedElements(profile, policy);
    WantedIsNamed(policy, idRef);
    LastSelectIn(Emitted(profile, policy), idRef);
    forall r | r in policy && RuleRef(r.ruleId) == idRef
      ensures RuleOf(idRef) == r.ruleId
    {
      RefsInjective(RULE_ID_PREFIX, r.ruleId, r.ruleId);
    }
  }

  // ----- The meaning, exactly -----

  // The program looks rules up without their prefix, and stops at the first entry. It goes wrong
  // when a policy rule has an unprefixed namesake in the profile, or several entries that disagree.
  ghost predicate LooksUpRight(profile: seq<SelectElement>, policy: Policy) {
    && (forall r :: r in policy && FirstSelect(profile, r.ruleId) == Some(true) ==>
          LastSelect(profile, RuleRef(r.ruleId)) == Some(true))
    && (forall e :: e in profile && !HasPrefix(e.idRef, RULE_ID_PREFIX) && NamesRule(policy, e.idRef) ==>
          LastSelect(profile, e.idRef) == Some(false))
  }

  lemma EmittedRight(profile: seq<SelectElement>, policy: Policy, idRef: string, default: bool)
    requires LooksUpRight(profile, policy)
    ensures Tailored(profile, Emitted(profile, policy), idRef, default) ==
            if Named(profile, policy, idRef) then Wanted(policy, idRef) else default
  {
    EmittedSays(profile, policy, idRef);
    LastSelectIn(profile, idRef);
    WantedIsNamed(policy, idRef);
    if Wanted(policy, idRef) {
      var r :| r in policy && RuleRef(r.ruleId) == idRef;
      RefsInjective(RULE_ID_PREFIX, r.ruleId, r.ruleId);
    } else if Mentions(profile, idRef) {
      var e :| e in profile && e.idRef == idRef;
    }
  }

  lemma EmittedWrong(profile: seq<SelectElement>, policy: Policy)
    requires MeansPolicy(profile, policy, Emitted(profile, policy))
    ensures LooksUpRight(profile, policy)
  {
    forall r | r in policy && FirstSelect(profile, r.ruleId) == Some(true)
      ensures LastSelect(profile, RuleRef(r.ruleId)) == Some(true)
    {
      var idRef := RuleRef(r.ruleId);
      EmittedSays(profile, policy, idRef);
      RefsInjective(RULE_ID_PREFIX, r.ruleId, r.ruleId);
      assert Wanted(policy, idRef) && NamesRule(policy, r.ruleId);
      assert Tailored(profile, Emitted(profile, policy), idRef, false);
    }
    forall e | e in profile && !HasPrefix(e.idRef, RULE_ID_PREFIX) && NamesRule(policy, e.idRef)
      ensures LastSelect(profile, e.idRef) == Some(false)
    {
      EmittedSays(profile, policy, e.idRef);
      WantedIsNamed(policy, e.idRef);
      LastSelectIn(profile, e.idRef);
      assert Mentions(profile, e.idRef);
      assert !Tailored(profile, Emitted(profile, policy), e.idRef, true);
    }
  }

  // For all profiles and policies: the emitted selects mean the policy exactly when the look-ups
  // are right.
  lemma SelectsMeanPolicyExactlyWhen(profile: seq<SelectElement>, policy: Policy)
    ensures MeansPolicy(profile, policy, Emitted(profile, policy)) <==> LooksUpRight(profile, policy)
  {
    if LooksUpRight(profile, policy) {
      forall idRef, default
        ensures Tailored(profile, Emitted(profile, policy), idRef, default) ==
                if Named(profile, policy, idRef) then Wanted(policy, idRef) else default
      {
        EmittedRight(profile, policy, idRef, default);
      }
    } else if MeansPolicy(profile, policy, Emitted(profile, policy)) {
      EmittedWrong(profile, policy);
    }
  }

  // The profile selects an entry without the prefix: the policy's rule counts as selected already,
  // and its reference is never selected.
  lemma NamesakeGoesWrong(id: string)
    requires !HasPrefix(id, RULE_ID_PREFIX)
    ensures var profile, policy := [SelectElement(id, true)], [RuleSet(id, [], [])];
            !LooksUpRight(profile, policy) && !MeansPolicy(profile, policy, Emitted(profile, policy))
  {
    var profile, policy := [SelectElement(id, true)], [RuleSet(id, [], [])];
    assert RuleOf(profile[0].idRef) == id && FirstSelect(profile, id) == Some(true);
    assert |RuleRef(id)| > |id|;
    assert LastSelect(profile, RuleRef(id)) == None;
    assert policy[0] in policy && policy[0].ruleId == id;
    SelectsMeanPolicyExactlyWhen(profile, policy);
  }

  // Two entries of the profile disagree on a rule of the policy: the look-up stops at the first,
  // which selects it, while the last unselects it.
  lemma DisagreeingEntriesGoWrong(id: string)
    ensures var profile := [SelectElement(RuleRef(id), true), SelectElement(RuleRef(id), false)];
            var policy := [RuleSet(id, [], [])];
            !LooksUpRight(profile, policy) && !MeansPolicy(profile, policy, Emitted(profile, policy))
  {
    var profile := [SelectElement(RuleRef(id), true), SelectElement(RuleRef(id), false)];
    var policy := [RuleSet(id, [], [])];
    RefsInjective(RULE_ID_PREFIX, id, id);
    assert RuleOf(profile[0].idRef) == id && FirstSelect(profile, id) == Some(true);
    assert LastSelect(profile, RuleRef(id)) == Some(false);
    assert policy[0] in policy && policy[0].ruleId == id;
    SelectsMeanPolicyExactlyWhen(profile, policy);
  }

  ghost predicate Once(sels: seq<SelectElement>) {
    forall i, j :: 0 <= i < j < |sels| ==> sels[i].idRef != sels[j].idRef
  }

  lemma OnceConcat(a: seq<SelectElement>, b: seq<SelectElement>)
    ensures Once(a + b) <==> Once(a) && Once(b) && forall e, f :: e in a && f in b ==> e.idRef != f.idRef
  {
    var c := a + b;
    assert forall i :: 0 <= i < |a| ==> c[i] == a[i];
    assert forall j :: 0 <= j < |b| ==> c[|a| + j] == b[j];
    if Once(a) && Once(b) && forall e, f :: e in a && f in b ==> e.idRef != f.idRef {
      OnceAppended(a, b);
    } else if Once(c) {
      OnceParts(a, b);
    }
  }

  lemma OnceAppended(a: seq<SelectElement>, b: seq<SelectElement>)
    requires Once(a) && Once(b)
    requires forall e, f :: e in a && f in b ==> e.idRef != f.idRef
    ensures Once(a + b)
  {
    var c := a + b;
    forall i, j | 0 <= i < j < |c|
      ensures c[i].idRef != c[j].idRef
    {
      assert i < |a| ==> c[i] == a[i] && a[i] in a;
      assert j >= |a| ==> c[j] == b[j - |a|] && b[j - |a|] in b;
    }
  }

  lemma OnceParts(a: seq<SelectElement>, b: seq<SelectElement>)
    requires Once(a + b)
    ensures Once(a) && Once(b)
    ensures forall e, f :: e in a && f in b ==> e.idRef != f.idRef
  {
    var c := a + b;
    forall i, j | 0 <= i < j < |a|
      ensures a[i].idRef != a[j].idRef
    {
      assert c[i] == a[i] && c[j] == a[j];
    }
    forall i, j | 0 <= i < j < |b|
      ensures b[i].idRef != b[j].idRef
    {
      assert c[|a| + i] == b[i] && c[|a| + j] == b[j];
    }
    forall e, f | e in a && f in b
      ensures e.idRef != f.idRef
    {
      var i :| 0 <= i < |a| && a[i] == e;
      var j :| 0 <= j < |b| && b[j] == f;
      assert c[i] == e && c[|a| + j] == f;
    }
  }

  // Data-stream profiles: every reference carries the prefix and occurs once.
  ghost predicate WellFormed(profile: seq<SelectElement>) {
    && (forall e :: e in profile ==> HasPrefix(e.idRef, RULE_ID_PREFIX))
    && Once(profile)
  }

  lemma {:induction false} FirstIsLast(profile: seq<SelectElement>, ruleId: string)
    requires WellFormed(profile)
    ensures FirstSelect(profile, ruleId) == LastSelect(profile, RuleRef(ruleId))
  {
    if profile != [] {
      var first, rest := profile[0], profile[1..];
      assert profile == [first] + rest;
      assert forall e :: e in rest ==> e in profile;
      FirstIsLast(rest, ruleId);
      LastSelectCons(first, rest, RuleRef(ruleId));
      assert first in profile;
      PrefixedRef(RULE_ID_PREFIX, first.idRef, ruleId);
      LastSelectIn(rest, RuleRef(ruleId));
      forall e | e in rest
        ensures e.idRef != first.idRef
      {
        var j :| 0 <= j < |rest| && rest[j] == e;
        assert profile[0].idRef != profile[j + 1].idRef;
      }
    }
  }

  lemma {:induction false} LastSelectCons(first: SelectElement, rest: seq<SelectElement>, idRef: string)
    ensures LastSelect([first] + rest, idRef) ==
            if LastSelect(rest, idRef).Some? then LastSelect(rest, idRef)
            else if first.idRef == idRef then Some(first.selected) else None
  {
    if rest != [] {
      assert ([first] + rest)[..|rest|] == [first] + rest[..|rest| - 1];
      LastSelectCons(first, rest[..|rest| - 1], idRef);
    } else {
      assert [first] + rest == [first];
    }
  }

  lemma SelectsMeanPolicy(profile: seq<SelectElement>, policy: Policy)
    requires WellFormed(profile)
    ensures MeansPolicy(profile, policy, Emitted(profile, policy))
  {
    forall r | r in policy
      ensures FirstSelect(profile, r.ruleId) == LastSelect(profile, RuleRef(r.ruleId))
    {
      FirstIsLast(profile, r.ruleId);
    }
    SelectsMeanPolicyExactlyWhen(profile, policy);
  }

  // ----- Minimality -----

  // Two entries of the profile select the same rule, which the policy does not name.
  ghost predicate SelectsAbsentTwice(profile: seq<SelectElement>, policy: Policy) {
    exists i, j :: 0 <= i < j < |profile| && profile[i] == profile[j] && Dropped(profile[i], policy)
  }

  ghost predicate Dropped(e: SelectElement, policy: Policy) {
    e.selected && !NamesRule(policy, RuleOf(e.idRef))
  }

  lemma SelectsAbsentSnoc(init: seq<SelectElement>, last: SelectElement, policy: Policy)
    ensures SelectsAbsentTwice(init + [last], policy) <==>
            SelectsAbsentTwice(init, policy) || (Dropped(last, policy) && last in init)
  {
    var profile := init + [last];
    assert forall i :: 0 <= i < |init| ==> profile[i] == init[i];
    if SelectsAbsentTwice(profile, policy) {
      var i, j :| 0 <= i < j < |profile| && profile[i] == profile[j] && Dropped(profile[i], policy);
      assert profile[i] == init[i] && (j < |init| ==> profile[j] == init[j]);
    }
    if SelectsAbsentTwice(init, policy) {
      var i, j :| 0 <= i < j < |init| && init[i] == init[j] && Dropped(init[i], policy);
      assert profile[i] == profile[j] && Dropped(profile[i], policy);
    }
    if Dropped(last, policy) && last in init {
      var i :| 0 <= i < |init| && init[i] == last;
      assert profile[i] == profile[|init|] && Dropped(profile[i], policy);
    }
  }

  lemma UnselectedSnoc(init: seq<SelectElement>, last: SelectElement, policy: Policy)
    requires Dropped(last, policy)
    ensures Once(Unselected(init, policy) + [SelectElement(last.idRef, false)]) <==>
            Once(Unselected(init, policy)) && last !in init
  {
    var u, e := Unselected(init, policy), SelectElement(last.idRef, false);
    UnselectedElements(init, policy);
    OnceConcat(u, [e]);
    assert last == SelectElement(last.idRef, true);
    assert e in u <==> last in init;
    if last !in init {
      forall f | f in u
        ensures f.idRef != e.idRef
      {
        assert f == SelectElement(f.idRef, false);
      }
    }
  }

  lemma {:induction false} UnselectedOnce(profile: seq<SelectElement>, policy: Policy)
    ensures Once(Unselected(profile, policy)) <==> !SelectsAbsentTwice(profile, policy)
  {
    if profile != [] {
      var init, last := profile[..|profile| - 1], profile[|profile| - 1];
      UnselectedOnce(init, policy);
      assert profile == init + [last];
      SelectsAbsentSnoc(init, last, policy);
      if Dropped(last, policy) {
        UnselectedSnoc(init, last, policy);
      } else {
        assert Unselected(profile, policy) == Unselected(init, policy);
      }
    }
  }

  lemma {:induction false} AddedOnce(profile: seq<SelectElement>, policy: Policy)
    ensures Once(Added(profile, policy))
  {
    if policy != [] {
      var init, last := policy[..|policy| - 1], policy[|policy| - 1];
      AddedOnce(profile, init);
      AddedElements(profile, init);
      if !NamesRule(init, last.ruleId) {
        forall e | e in Added(profile, init)
          ensures e.idRef != RuleRef(last.ruleId)
        {
          var r :| r in init && RuleRef(r.ruleId) == e.idRef;
          RefsInjective(RULE_ID_PREFIX, r.ruleId, last.ruleId);
        }
        OnceConcat(Added(profile, init), [SelectElement(RuleRef(last.ruleId), true)]);
      }
    }
  }

  // For all profiles, no reference is emitted both as selected and as unselected.
  lemma EmittedConsistent(profile: seq<SelectElement>, policy: Policy, idRef: string)
    ensures !(SelectElement(idRef, true) in Emitted(profile, policy) &&
              SelectElement(idRef, false) in Emitted(profile, policy))
  {
    EmittedSays(profile, policy, idRef);
    WantedIsNamed(policy, idRef);
  }

  // A reference is emitted twice exactly when the profile selects twice a rule to be unselected.
  lemma EmittedOnceExactlyWhen(profile: seq<SelectElement>, policy: Policy)
    ensures Once(Emitted(profile, policy)) <==> !SelectsAbsentTwice(profile, policy)
  {
    UnselectedOnce(profile, policy);
    AddedOnce(profile, policy);
    UnselectedElements(profile, policy);
    AddedElements(profile, policy);
    var u, a := Unselected(profile, policy), Added(profile, policy);
    forall e, f | e in u && f in a
      ensures e.idRef != f.idRef
    {
      WantedIsNamed(policy, f.idRef);
    }
    OnceConcat(u, a);
  }

  // Not from a well-formed profile.
  lemma EmittedOnce(profile: seq<SelectElement>, policy: Policy)
    requires WellFormed(profile)
    ensures Once(Emitted(profile, policy))
  {
    EmittedOnceExactlyWhen(profile, policy);
  }

  // Overrides with the policy's meaning, for rules that are unselected unless the profile says so.
  ghost predicate MeansPolicyByProfile(profile: seq<SelectElement>, policy: Policy, overrides: seq<SelectElement>) {
    forall idRef :: Named(profile, policy, idRef) ==>
      Tailored(profile, overrides, idRef, false) == Wanted(policy, idRef)
  }

  // Every emitted reference is needed: any overrides with the policy's meaning mention it.
  lemma EmittedNeeded(profile: seq<SelectElement>, policy: Policy, overrides: seq<SelectElement>, idRef: string)
    requires WellFormed(profile) && MeansPolicyByProfile(profile, policy, overrides)
    requires Mentions(Emitted(profile, policy), idRef)
    ensures Mentions(overrides, idRef)
  {
    EmittedSays(profile, policy, idRef);
    LastSelectIn(Emitted(profile, policy), idRef);
    LastSelectIn(profile, idRef);
    LastSelectIn(overrides, idRef);
    WantedIsNamed(policy, idRef);
    if Wanted(policy, idRef) {
      var r :| r in policy && RuleRef(r.ruleId) == idRef;
      RefsInjective(RULE_ID_PREFIX, r.ruleId, r.ruleId);
      FirstIsLast(profile, RuleOf(idRef));
      assert Named(profile, policy, idRef);
    } else {
      assert SelectElement(idRef, true) in profile;
      assert HasPrefix(idRef, RULE_ID_PREFIX);
      assert idRef == RULE_ID_PREFIX + idRef[|RULE_ID_PREFIX|..];
      OneEntry(profile, SelectElement(idRef, true));
      assert Mentions(profile, idRef) && Named(profile, policy, idRef);
    }
  }

  lemma {:induction false} OneEntry(profile: seq<SelectElement>, e: SelectElement)
    requires WellFormed(profile) && e in profile
    ensures LastSelect(profile, e.idRef) == Some(e.selected)
  {
    var init, last := profile[..|profile| - 1], profile[|profile| - 1];
    var k :| 0 <= k < |profile| && profile[k] == e;
    if k < |profile| - 1 {
      assert profile[k].idRef != profile[|profile| - 1].idRef;
      assert init[k] == e && forall x :: x in init ==> x in profile;
      OneEntry(init, e);
    }
  }

  ghost function Refs(sels: seq<SelectElement>): set<string> {
    set e | e in sels :: e.idRef
  }

  lemma RefsSnoc(sels: seq<SelectElement>)
    requires sels != []
    ensures Refs(sels) == Refs(sels[..|sels| - 1]) + {sels[|sels| - 1].idRef}
  {
    var init, last := sels[..|sels| - 1], sels[|sels| - 1];
    assert sels == init + [last];
    assert forall e :: e in sels <==> e in init || e == last;
  }

  lemma {:induction false} AtMostLength(sels: seq<SelectElement>)
    ensures |Refs(sels)| <= |sels|
  {
    if sels != [] {
      RefsSnoc(sels);
      AtMostLength(sels[..|sels| - 1]);
    }
  }

  lemma {:induction false} ExactlyLength(sels: seq<SelectElement>)
    requires Once(sels)
    ensures |Refs(sels)| == |sels|
  {
    if sels != [] {
      var init, last := sels[..|sels| - 1], sels[|sels| - 1];
      RefsSnoc(sels);
      ExactlyLength(init);
      forall e | e in init
        ensures e.idRef != last.idRef
      {
        var i :| 0 <= i < |init| && init[i] == e;
        assert sels[i].idRef != sels[|sels| - 1].idRef;
      }
      assert last.idRef !in Refs(init);
    }
  }

  // So no shorter list of overrides has the policy's meaning.
  lemma EmittedShortest(profile: seq<SelectElement>, policy: Policy, overrides: seq<SelectElement>)
    requires WellFormed(profile) && MeansPolicyByProfile(profile, policy, overrides)
    ensures |Emitted(profile, policy)| <= |overrides|
  {
    var m := Emitted(profile, policy);
    EmittedOnce(profile, policy);
    ExactlyLength(m);
    AtMostLength(overrides);
    forall idRef | idRef in Refs(m)
      ensures idRef in Refs(overrides)
    {
      EmittedNeeded(profile, policy, overrides, idRef);
    }
    CardinalityMonotone(Refs(m), Refs(overrides));
  }

  lemma CardinalityMonotone(a: set<string>, b: set<string>)
    requires a <= b
    ensures |a| <= |b|
  {
    assert b == a + (b - a);
  }

  // ===== Replaying set-values =====

  ghost function LastValue(values: seq<SetValueElement>, idRef: string): Option<string> {
    if values == [] then None
    else if values[|values| - 1].idRef == idRef then Some(values[|values| - 1].value)
    else LastValue(values[..|values| - 1], idRef)
  }

  ghost function TailoredValue(profile: seq<SetValueElement>, overrides: seq<SetValueElement>, idRef: string)
    : Option<string>
  {
    if LastValue(overrides, idRef).Some? then LastValue(overrides, idRef) else LastValue(profile, idRef)
  }

  // The first value the policy gives the variable that differs from the profile's.
  ghost function FirstDiffering(values: seq<SetValueElement>, prms: seq<Parameter>, varId: string): Option<string> {
    if prms == [] then None else
      var init, last := prms[..|prms| - 1], prms[|prms| - 1];
      if FirstDiffering(values, init, varId).Some? then FirstDiffering(values, init, varId)
      else if last.id == varId && Differs(values, last) then Some(last.value)
      else None
  }

  lemma {:induction false} FirstDifferingExists(values: seq<SetValueElement>, prms: seq<Parameter>, varId: string)
    ensures FirstDiffering(values, prms, varId).Some? <==> AnyDiffers(values, prms, varId)
    ensures FirstDiffering(values, prms, varId).Some? ==>
              exists i :: 0 <= i < |prms| && prms[i] == Parameter(varId, FirstDiffering(values, prms, varId).value) &&
                Differs(values, prms[i]) &&
                forall k :: 0 <= k < i && prms[k].id == varId ==> !Differs(values, prms[k])
  {
    if prms != [] {
      var init, last := prms[..|prms| - 1], prms[|prms| - 1];
      FirstDifferingExists(values, init, varId);
      assert forall q :: q in prms <==> q in init || q == last;
      if FirstDiffering(values, init, varId).Some? {
        var i :| 0 <= i < |init| && init[i] == Parameter(varId, FirstDiffering(values, init, varId).value) &&
          Differs(values, init[i]) && forall k :: 0 <= k < i && init[k].id == varId ==> !Differs(values, init[k]);
        assert prms[i] == init[i];
        assert forall k :: 0 <= k < i ==> prms[k] == init[k];
      } else if last.id == varId && Differs(values, last) {
        forall k | 0 <= k < |prms| - 1 && prms[k].id == varId
          ensures !Differs(values, prms[k])
        {
          assert prms[k] == init[k] && init[k] in init;
        }
        assert prms[|prms| - 1] == last;
      }
    }
  }

  lemma {:induction false} LastAddedValue(values: seq<SetValueElement>, prms: seq<Parameter>, varId: string)
    ensures LastValue(AddedValues(values, prms), VarRef(varId)) == FirstDiffering(values, prms, varId)
  {
    if prms != [] {
      var init, last := prms[..|prms| - 1], prms[|prms| - 1];
      LastAddedValue(values, init, varId);
      FirstDifferingExists(values, init, last.id);
      RefsInjective(VAR_ID_PREFIX, last.id, varId);
      var before, after := AddedValues(values, init), AddedValues(values, prms);
      if after != before {
        assert after[..|after| - 1] == before;
      }
    }
  }

  lemma {:induction false} AddedValuesRefs(values: seq<SetValueElement>, prms: seq<Parameter>, idRef: string)
    requires forall q :: q in prms ==> VarRef(q.id) != idRef
    ensures LastValue(AddedValues(values, prms), idRef) == None
  {
    if prms != [] {
      var init, last := prms[..|prms| - 1], prms[|prms| - 1];
      assert last in prms && forall q :: q in init ==> q in prms;
      AddedValuesRefs(values, init, idRef);
      var before, after := AddedValues(values, init), AddedValues(values, prms);
      if after != before {
        assert after[..|after| - 1] == before;
      }
    }
  }

  // For all profiles and policies: the first differing value wins; a variable no parameter gives
  // a differing value, or no parameter names, keeps its profile value.
  lemma ValuesAfterTailoring(values: seq<SetValueElement>, prms: seq<Parameter>)
    ensures forall varId ::
              TailoredValue(values, AddedValues(values, prms), VarRef(varId)) ==
              if FirstDiffering(values, prms, varId).Some? then FirstDiffering(values, prms, varId)
              else LastValue(values, VarRef(varId))
    ensures forall idRef :: (forall q :: q in prms ==> VarRef(q.id) != idRef) ==>
              TailoredValue(values, AddedValues(values, prms), idRef) == LastValue(values, idRef)
  {
    forall varId
      ensures LastValue(AddedValues(values, prms), VarRef(varId)) == FirstDiffering(values, prms, varId)
    {
      LastAddedValue(values, prms, varId);
    }
    forall idRef | forall q :: q in prms ==> VarRef(q.id) != idRef
      ensures TailoredValue(values, AddedValues(values, prms), idRef) == LastValue(values, idRef)
    {
      AddedValuesRefs(values, prms, idRef);
    }
  }

  ghost predicate WellFormedValues(values: seq<SetValueElement>) {
    && (forall v :: v in values ==> HasPrefix(v.idRef, VAR_ID_PREFIX))
    && (forall i, j :: 0 <= i < j < |values| ==> values[i].idRef != values[j].idRef)
  }

  lemma {:induction false} FirstValueIsLast(values: seq<SetValueElement>, varId: string)
    requires WellFormedValues(values)
    ensures FirstValue(values, varId) == LastValue(values, VarRef(varId))
  {
    if values != [] {
      var first, rest := values[0], values[1..];
      assert values == [first] + rest;
      assert forall e :: e in rest ==> e in values;
      FirstValueIsLast(rest, varId);
      LastValueCons(first, rest, VarRef(varId));
      assert first in values;
      PrefixedRef(VAR_ID_PREFIX, first.idRef, varId);
      forall e | e in rest
        ensures e.idRef != first.idRef
      {
        var j :| 0 <= j < |rest| && rest[j] == e;
        assert values[0].idRef != values[j + 1].idRef;
      }
      LastValueIn(rest, VarRef(varId));
    }
  }

  lemma {:induction false} LastValueIn(values: seq<SetValueElement>, idRef: string)
    ensures LastValue(values, idRef).Some? ==> SetValueElement(idRef, LastValue(values, idRef).value) in values
  {
    if values != [] {
      LastValueIn(values[..|values| - 1], idRef);
    }
  }

  lemma {:induction false} LastValueCons(first: SetValueElement, rest: seq<SetValueElement>, idRef: string)
    ensures LastValue([first] + rest, idRef) ==
            if LastValue(rest, idRef).Some? then LastValue(rest, idRef)
            else if first.idRef == idRef then Some(first.value) else None
  {
    if rest != [] {
      assert ([first] + rest)[..|rest|] == [first] + rest[..|rest| - 1];
      LastValueCons(first, rest[..|rest| - 1], idRef);
    } else {
      assert [first] + rest == [first];
    }
  }

  ghost predicate SingleValued(prms: seq<Parameter>) {
    forall p, q :: p in prms && q in prms && p.id == q.id ==> p.value == q.value
  }

  // The program compares with the first value of the profile, the replay starts from the last.
  ghost predicate ComparesRight(values: seq<SetValueElement>, prms: seq<Parameter>) {
    forall p :: p in prms && !AnyDiffers(values, prms, p.id) ==>
      LastValue(values, VarRef(p.id)) == FirstValue(values, p.id)
  }

  // Every parameter of the policy gets its policy value exactly when the policy does not give
  // two values to one parameter, and no look-up in the profile goes wrong.
  lemma ValuesMeanPolicyExactlyWhen(values: seq<SetValueElement>, prms: seq<Parameter>)
    ensures (forall p :: p in prms ==> TailoredValue(values, AddedValues(values, prms), VarRef(p.id)) == Some(p.value))
            <==> SingleValued(prms) && ComparesRight(values, prms)
  {
    ValuesAfterTailoring(values, prms);
    forall p | p in prms
      ensures FirstDiffering(values, prms, p.id).Some? <==> AnyDiffers(values, prms, p.id)
      ensures !AnyDiffers(values, prms, p.id) ==> FirstValue(values, p.id) == Some(p.value)
      ensures SingleValued(prms) && AnyDiffers(values, prms, p.id) ==>
                FirstDiffering(values, prms, p.id) == Some(p.value)
    {
      FirstDifferingExists(values, prms, p.id);
    }
  }

  // The profile sets an entry without the prefix to the policy's value: nothing is emitted, and the
  // policy's variable is never set.
  lemma ValueNamesakeGoesWrong(id: string, value: string)
    requires !HasPrefix(id, VAR_ID_PREFIX)
    ensures var values, prms := [SetValueElement(id, value)], [Parameter(id, value)];
            !ComparesRight(values, prms) && TailoredValue(values, AddedValues(values, prms), VarRef(id)) == None
  {
    var values, prms := [SetValueElement(id, value)], [Parameter(id, value)];
    assert VarOf(values[0].idRef) == id && FirstValue(values, id) == Some(value);
    assert |VarRef(id)| > |id|;
    assert values[..0] == [] && LastValue(values, VarRef(id)) == None;
    FirstDifferingExists(values, prms, id);
    ValuesAfterTailoring(values, prms);
    assert prms[0] in prms && !AnyDiffers(values, prms, id);
  }

  // The policy gives a parameter two values: not both can be the variable's.
  lemma ConflictingValuesGoWrong(values: seq<SetValueElement>, id: string, v: string, w: string)
    requires v != w
    ensures var prms := [Parameter(id, v), Parameter(id, w)];
            && !SingleValued(prms)
            && !(forall p :: p in prms ==>
                   TailoredValue(values, AddedValues(values, prms), VarRef(p.id)) == Some(p.value))
  {
    var prms := [Parameter(id, v), Parameter(id, w)];
    assert prms[0] in prms && prms[1] in prms;
  }

  lemma WellFormedComparesRight(values: seq<SetValueElement>, prms: seq<Parameter>)
    requires WellFormedValues(values)
    ensures ComparesRight(values, prms)
  {
    forall p | p in prms
      ensures LastValue(values, VarRef(p.id)) == FirstValue(values, p.id)
    {
      FirstValueIsLast(values, p.id);
    }
  }

  // ===== Both parts of a tailoring =====

  lemma {:induction false} ResolvedKeepsRefs(variables: seq<Variable>, values: seq<SetValueElement>)
    ensures forall i :: 0 <= i < |values| ==> Resolved(variables, values)[i].idRef == values[i].idRef
    ensures AllResolvable(variables, values) ==>
              forall i :: 0 <= i < |values| ==>
                Some(Resolved(variables, values)[i].value) == ResolvedOption(variables, values[i].idRef,
                    values[i].value)
  {
    if values != [] && Resolvable(variables, values[0]) {
      ResolvedKeepsRefs(variables, values[1..]);
      assert forall v :: v in values[1..] ==> v in values;
    } else if values != [] {
      assert values[0] in values;
    }
  }

  // The tailoring of a well-formed profile for a policy without conflicting values means the
  // policy: its rules and no others are selected among those named, its parameters have its
  // values, and every other variable has the value its option resolves to.
  lemma TailoringMeansPolicy(policy: Policy, selections: seq<SelectElement>, values: seq<SetValueElement>,
                             variables: seq<Variable>)
    requires WellFormed(selections) && WellFormedValues(values) && SingleValued(Params(policy))
    requires AllResolvable(variables, values)
    ensures MeansPolicy(selections, policy, Emitted(selections, policy))
    ensures var base := Resolved(variables, values);
            var overrides := AddedValues(base, Params(policy));
            && (forall p :: p in Params(policy) ==> TailoredValue(base, overrides, VarRef(p.id)) == Some(p.value))
            && (forall v :: v in values && (forall p :: p in Params(policy) ==> VarRef(p.id) != v.idRef) ==>
                  TailoredValue(base, overrides, v.idRef) == ResolvedOption(variables, v.idRef, v.value))
  {
    SelectsMeanPolicy(selections, policy);
    var base := Resolved(variables, values);
    var prms := Params(policy);
    ResolvedKeepsRefs(variables, values);
    assert WellFormedValues(base) by {
      forall i | 0 <= i < |base|
        ensures HasPrefix(base[i].idRef, VAR_ID_PREFIX)
      {
        assert values[i] in values;
      }
    }
    WellFormedComparesRight(base, prms);
    ValuesMeanPolicyExactlyWhen(base, prms);
    ValuesAfterTailoring(base, prms);
    forall v | v in values
      ensures LastValue(base, v.idRef) == ResolvedOption(variables, v.idRef, v.value)
    {
      var i :| 0 <= i < |values| && values[i] == v;
      OneValue(base, i);
    }
  }

  lemma {:induction false} OneValue(values: seq<SetValueElement>, i: nat)
    requires WellFormedValues(values) && i < |values|
    ensures LastValue(values, values[i].idRef) == Some(values[i].value)
  {
    var init := values[..|values| - 1];
    if i < |init| {
      assert values[i].idRef != values[|values| - 1].idRef;
      assert init[i] == values[i] && forall v :: v in init ==> v in values;
      OneValue(init, i);
    }
  }
}
