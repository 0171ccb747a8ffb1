/** When the emitted selects are the fewest that mean the policy, for all profiles. */
module TailoringMinimality {
  import opened Wrappers
  import opened Tailoring
  import opened TailoringTheorems

  // The profile alone already leaves the rule as the policy wants it.
  ghost predicate Idle(profile: seq<SelectElement>, policy: Policy, idRef: string) {
    LastSelect(profile, idRef).GetOr(false) == Wanted(policy, idRef)
  }

  // ----- The shortest overrides -----

  ghost function NamedRefs(profile: seq<SelectElement>, policy: Policy): (refs: seq<string>)
    ensures forall idRef :: idRef in refs <==> Named(profile, policy, idRef)
  {
    var p := seq(|profile|, i requires 0 <= i < |profile| => profile[i].idRef);
    var q := seq(|policy|, i requires 0 <= i < |policy| => RuleRef(policy[i].ruleId));
    assert forall idRef :: idRef in p <==> Mentions(profile, idRef) by {
      forall e | e in profile
        ensures e.idRef in p
      {
        var i :| 0 <= i < |profile| && profile[i] == e;
        assert p[i] == e.idRef;
      }
    }
    assert forall idRef :: idRef in q <==> Wanted(policy, idRef) by {
      forall r | r in policy
        ensures RuleRef(r.ruleId) in q
      {
        var i :| 0 <= i < |policy| && policy[i] == r;
        assert q[i] == RuleRef(r.ruleId);
      }
    }
    p + q
  }

  // One entry for each of the references that is not idle.
  ghost function Corrections(profile: seq<SelectElement>, policy: Policy, refs: seq<string>): seq<SelectElement> {
    if refs == [] then [] else
      var init, last := refs[..|refs| - 1], refs[|refs| - 1];
      Corrections(profile, policy, init) +
      (if last in init || Idle(profile, policy, last) then [] else [SelectElement(last, Wanted(policy, last))])
  }

  lemma {:induction false} CorrectionsAre(profile: seq<SelectElement>, policy: Policy, refs: seq<string>)
    ensures forall e :: e in Corrections(profile, policy, refs) <==>
              e.idRef in refs && !Idle(profile, policy, e.idRef) && e.selected == Wanted(policy, e.idRef)
    ensures Once(Corrections(profile, policy, refs))
  {
    if refs != [] {
      var init, last := refs[..|refs| - 1], refs[|refs| - 1];
      CorrectionsAre(profile, policy, init);
      assert refs == init + [last];
      assert forall r :: r in refs <==> r in init || r == last;
      if last !in init && !Idle(profile, policy, last) {
        OnceConcat(Corrections(profile, policy, init), [SelectElement(last, Wanted(policy, last))]);
      }
    }
  }

  ghost function Shortest(profile: seq<SelectElement>, policy: Policy): seq<SelectElement> {
    Corrections(profile, policy, NamedRefs(profile, policy))
  }

  lemma ShortestMentions(profile: seq<SelectElement>, policy: Policy, idRef: string)
    ensures Mentions(Shortest(profile, policy), idRef) <==>
            Named(profile, policy, idRef) && !Idle(profile, policy, idRef)
    ensures LastSelect(Shortest(profile, policy), idRef) ==
            if Named(profile, policy, idRef) && !Idle(profile, policy, idRef) then Some(Wanted(policy, idRef)) else None
  {
    CorrectionsAre(profile, policy, NamedRefs(profile, policy));
    LastSelectIn(Shortest(profile, policy), idRef);
    if Named(profile, policy, idRef) && !Idle(profile, policy, idRef) {
      assert SelectElement(idRef, Wanted(policy, idRef)) in Shortest(profile, policy);
    }
  }

  lemma ShortestMeansPolicy(profile: seq<SelectElement>, policy: Policy)
    ensures MeansPolicyByProfile(profile, policy, Shortest(profile, policy))
  {
    forall idRef | Named(profile, policy, idRef)
      ensures Tailored(profile, Shortest(profile, policy), idRef, false) == Wanted(policy, idRef)
    {
      ShortestMentions(profile, policy, idRef);
    }
  }

  // ----- What every list of overrides must mention -----

  lemma MustMention(profile: seq<SelectElement>, policy: Policy, overrides: seq<SelectElement>, idRef: string)
    requires MeansPolicyByProfile(profile, policy, overrides)
    requires Named(profile, policy, idRef) && !Idle(profile, policy, idRef)
    ensures Mentions(overrides, idRef)
  {
    LastSelectIn(overrides, idRef);
    assert Tailored(profile, overrides, idRef, false) == Wanted(policy, idRef);
  }

  lemma EmittedIsNamed(profile: seq<SelectElement>, policy: Policy, idRef: string)
    requires Mentions(Emitted(profile, policy), idRef)
    ensures Named(profile, policy, idRef)
  {
    EmittedSays(profile, policy, idRef);
    LastSelectIn(Emitted(profile, policy), idRef);
  }

  // An emitted reference is needed, by any overrides with the policy's meaning, if and only if it
  // is not idle.
  lemma EmittedNeededExactlyWhen(profile: seq<SelectElement>, policy: Policy, idRef: string)
    requires Mentions(Emitted(profile, policy), idRef)
    ensures (forall overrides :: MeansPolicyByProfile(profile, policy, overrides) ==> Mentions(overrides, idRef)) <==>
            !Idle(profile, policy, idRef)
  {
    EmittedIsNamed(profile, policy, idRef);
    if Idle(profile, policy, idRef) {
      ShortestMeansPolicy(profile, policy);
      ShortestMentions(profile, policy, idRef);
    } else {
      forall overrides | MeansPolicyByProfile(profile, policy, overrides)
        ensures Mentions(overrides, idRef)
      {
        MustMention(profile, policy, overrides, idRef);
      }
    }
  }

  // ----- The condition on profile and policy -----

  // No policy rule ends selected by the profile while the first entry for it does not select it, and
  // no selected entry of another rule is unselected later.
  ghost predicate NothingIdle(profile: seq<SelectElement>, policy: Policy) {
    && (forall r :: r in policy && LastSelect(profile, RuleRef(r.ruleId)) == Some(true) ==>
          FirstSelect(profile, r.ruleId) == Some(true))
    && (forall e :: e in profile && Dropped(e, policy) ==> LastSelect(profile, e.idRef) == Some(true))
  }

  lemma IdleEmitted(profile: seq<SelectElement>, policy: Policy)
    ensures NothingIdle(profile, policy) <==>
            forall idRef :: Mentions(Emitted(profile, policy), idRef) ==> !Idle(profile, policy, idRef)
  {
    forall idRef | NothingIdle(profile, policy) && Mentions(Emitted(profile, policy), idRef)
      ensures !Idle(profile, policy, idRef)
    {
      NotIdle(profile, policy, idRef);
    }
    if forall idRef :: Mentions(Emitted(profile, policy), idRef) ==> !Idle(profile, policy, idRef) {
      forall r | r in policy && LastSelect(profile, RuleRef(r.ruleId)) == Some(true)
        ensures FirstSelect(profile, r.ruleId) == Some(true)
      {
        EmittedSays(profile, policy, RuleRef(r.ruleId));
        RefsInjective(RULE_ID_PREFIX, r.ruleId, r.ruleId);
        assert Wanted(policy, RuleRef(r.ruleId));
        LastSelectIn(Emitted(profile, policy), RuleRef(r.ruleId));
      }
      forall e | e in profile && Dropped(e, policy)
        ensures LastSelect(profile, e.idRef) == Some(true)
      {
        EmittedSays(profile, policy, e.idRef);
        WantedIsNamed(policy, e.idRef);
        LastSelectIn(profile, e.idRef);
        assert e == SelectElement(e.idRef, true);
        LastSelectIn(Emitted(profile, policy), e.idRef);
        assert Mentions(profile, e.idRef);
      }
    }
  }

  lemma NotIdle(profile: seq<SelectElement>, policy: Policy, idRef: string)
    requires NothingIdle(profile, policy) && Mentions(Emitted(profile, policy), idRef)
    ensures !Idle(profile, policy, idRef)
  {
    EmittedSays(profile, policy, idRef);
    LastSelectIn(Emitted(profile, policy), idRef);
    WantedIsNamed(policy, idRef);
    if Wanted(policy, idRef) {
      var r :| r in policy && RuleRef(r.ruleId) == idRef;
      RefsInjective(RULE_ID_PREFIX, r.ruleId, r.ruleId);
    } else {
      assert Dropped(SelectElement(idRef, true), policy);
    }
  }

  // ----- Cardinality -----

  lemma {:induction false} FullLengthOnce(sels: seq<SelectElement>)
    requires |Refs(sels)| == |sels|
    ensures Once(sels)
  {
    if sels != [] {
      var init, last := sels[..|sels| - 1], sels[|sels| - 1];
      RefsSnoc(sels);
      AtMostLength(init);
      assert last.idRef !in Refs(init) && |Refs(init)| == |init|;
      FullLengthOnce(init);
      assert sels == init + [last];
      forall e | e in init
        ensures e.idRef != last.idRef
      {
        assert e.idRef in Refs(init);
      }
      OnceConcat(init, [last]);
    }
  }

  lemma SubsetOfSameSize(a: set<string>, b: set<string>)
    requires a <= b && |b| <= |a|
    ensures a == b
  {
    assert b == a + (b - a);
  }

  // ----- The law -----

  // For all profiles and policies on which the look-ups are right: no shorter overrides have the
  // policy's meaning, if and only if no reference is emitted twice and none of them is idle.
  lemma EmittedShortestExactlyWhen(profile: seq<SelectElement>, policy: Policy)
    requires LooksUpRight(profile, policy)
    ensures (forall overrides :: MeansPolicyByProfile(profile, policy, overrides) ==>
               |Emitted(profile, policy)| <= |overrides|) <==>
            !SelectsAbsentTwice(profile, policy) && NothingIdle(profile, policy)
  {
    var m := Emitted(profile, policy);
    EmittedOnceExactlyWhen(profile, policy);
    IdleEmitted(profile, policy);
    if Once(m) && NothingIdle(profile, policy) {
      forall overrides | MeansPolicyByProfile(profile, policy, overrides)
        ensures |m| <= |overrides|
      {
        NoShorter(profile, policy, overrides);
      }
    }
    if forall overrides :: MeansPolicyByProfile(profile, policy, overrides) ==> |m| <= |overrides| {
      ShortestMeansPolicy(profile, policy);
      AsShortAsShortest(profile, policy);
    }
  }

  lemma NoShorter(profile: seq<SelectElement>, policy: Policy, overrides: seq<SelectElement>)
    requires Once(Emitted(profile, policy)) && MeansPolicyByProfile(profile, policy, overrides)
    requires forall idRef :: Mentions(Emitted(profile, policy), idRef) ==> !Idle(profile, policy, idRef)
    ensures |Emitted(profile, policy)| <= |overrides|
  {
    var m := Emitted(profile, policy);
    forall idRef | idRef in Refs(m)
      ensures idRef in Refs(overrides)
    {
      assert Mentions(m, idRef);
      EmittedIsNamed(profile, policy, idRef);
      MustMention(profile, policy, overrides, idRef);
    }
    ExactlyLength(m);
    AtMostLength(overrides);
    CardinalityMonotone(Refs(m), Refs(overrides));
  }

  lemma AsShortAsShortest(profile: seq<SelectElement>, policy: Policy)
    requires LooksUpRight(profile, policy)
    requires |Emitted(profile, policy)| <= |Shortest(profile, policy)|
    ensures Once(Emitted(profile, policy))
    ensures forall idRef :: Mentions(Emitted(profile, policy), idRef) ==> !Idle(profile, policy, idRef)
  {
    var m, least := Emitted(profile, policy), Shortest(profile, policy);
    SelectsMeanPolicyExactlyWhen(profile, policy);
    assert MeansPolicyByProfile(profile, policy, m);
    forall idRef | idRef in Refs(least)
      ensures idRef in Refs(m)
    {
      assert Mentions(least, idRef);
      ShortestMentions(profile, policy, idRef);
      MustMention(profile, policy, m, idRef);
    }
    CorrectionsAre(profile, policy, NamedRefs(profile, policy));
    ExactlyLength(least);
    AtMostLength(m);
    SubsetOfSameSize(Refs(least), Refs(m));
    FullLengthOnce(m);
    forall idRef | Mentions(m, idRef)
      ensures !Idle(profile, policy, idRef)
    {
      assert idRef in Refs(least) && Mentions(least, idRef);
      ShortestMentions(profile, policy, idRef);
    }
  }

  // A profile that selects and unselects a rule: nothing needs to be emitted for the empty policy,
  // but an unselect is.
  lemma IdleUnselect(id: string)
    ensures var profile := [SelectElement(RuleRef(id), true), SelectElement(RuleRef(id), false)];
            && LooksUpRight(profile, []) && MeansPolicyByProfile(profile, [], [])
            && Mentions(Emitted(profile, []), RuleRef(id)) && |Emitted(profile, [])| > 0
  {
    var profile := [SelectElement(RuleRef(id), true), SelectElement(RuleRef(id), false)];
    assert LastSelect(profile, RuleRef(id)) == Some(false);
    assert profile[0] in profile;
    EmittedSays(profile, [], RuleRef(id));
    LastSelectIn(Emitted(profile, []), RuleRef(id));
    forall idRef | Named(profile, [], idRef)
      ensures Tailored(profile, [], idRef, false) == Wanted([], idRef)
    {
      assert idRef == RuleRef(id);
    }
  }
}
