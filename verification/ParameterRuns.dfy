/** The properties of activities after a whole run: which control decides the value of a test
    parameter, and when a property is left as it is. */
module ParameterRuns {
  import opened Wrappers
  import opened Ordering
  import opened Oscal
  import opened ComponentDefinitions
  import opened ScopeRules
  import opened ScopeTheorems
  import opened ScopeLaws
  import opened ParameterTheorems

  // ===== When a property is left as it is =====

  ghost predicate FirstMentions(scope: AssessmentScope, ids: seq<string>, k: int, name: string) {
    && 0 <= k < |ids| && Mentions(scope, ids[k], name)
    && forall m :: 0 <= m < k ==> !Mentions(scope, ids[m], name)
  }

  // The first control that mentions a test parameter, if there is one, gives it no value or the
  // one it has.
  ghost predicate Undisturbed(scope: AssessmentScope, ids: seq<string>, prop: Property) {
    prop.class_ == TEST_PARAMETER_CLASS ==>
      forall k :: FirstMentions(scope, ids, k, prop.name) ==>
        var v := SelectedValue(scope, ids[k], prop.name).value;
        v == "" || v == prop.value
  }

  lemma {:induction false} FirstDecides(scope: AssessmentScope, ids: seq<string>, k: int, name: string)
    requires FirstMentions(scope, ids, k, name)
    ensures ValueFor(scope, ids, name) == SelectedValue(scope, ids[k], name).value
  {
    if k > 0 {
      assert !Mentions(scope, ids[0], name);
      assert forall m :: 0 <= m < k - 1 ==> ids[1..][m] == ids[m + 1];
      FirstDecides(scope, ids[1..], k - 1, name);
    }
  }

  lemma {:induction false} SomeFirst(scope: AssessmentScope, ids: seq<string>, name: string)
    ensures ValueFor(scope, ids, name) == "" || exists k :: FirstMentions(scope, ids, k, name)
  {
    if ids == [] {
    } else if Mentions(scope, ids[0], name) {
      assert FirstMentions(scope, ids, 0, name);
    } else {
      SomeFirst(scope, ids[1..], name);
      if k :| FirstMentions(scope, ids[1..], k, name) {
        forall m | 0 <= m < k + 1
          ensures !Mentions(scope, ids[m], name)
        {
          assert m == 0 || ids[m] == ids[1..][m - 1];
        }
        assert FirstMentions(scope, ids, k + 1, name);
      }
    }
  }

  lemma UpdateKeeps(scope: AssessmentScope, ids: seq<string>, prop: Property)
    ensures UpdateProp(scope, ids, prop) == prop <==> Undisturbed(scope, ids, prop)
  {
    SomeFirst(scope, ids, prop.name);
    forall k | FirstMentions(scope, ids, k, prop.name)
      ensures ValueFor(scope, ids, prop.name) == SelectedValue(scope, ids[k], prop.name).value
    {
      FirstDecides(scope, ids, k, prop.name);
    }
  }

  // ----- Which controls decide -----

  // The controls a selection is left with; the rule pass skips activities without a title.
  ghost function LeftOf(scope: AssessmentScope, rule: string, s: Selection): set<string> {
    set c | c in ScopeControls(scope) && Lists(s, c) && (rule == "" || Stays(scope, rule, c))
  }

  // The controls of every selection, each selection sorted.
  ghost function LeftOfAll(scope: AssessmentScope, rule: string, sels: seq<Selection>): seq<string> {
    if sels == [] then [] else
      LeftOfAll(scope, rule, sels[..|sels| - 1]) + Ascending(LeftOf(scope, rule, sels[|sels| - 1]))
  }

  ghost predicate SomeNotLeft(scope: AssessmentScope, rule: string, sels: seq<Selection>) {
    exists n :: 0 <= n < |sels| && LeftOf(scope, rule, sels[n]) == {}
  }

  // The controls an activity is left with, from the plan and the scope alone.
  ghost function LeftControls(scope: AssessmentScope, a: ActivityValue): seq<string> {
    if a.relatedControls.None? || SomeNotLeft(scope, a.title, a.relatedControls.value) then []
    else if a.title != "" && LosesStep(scope, a) then []
    else LeftOfAll(scope, a.title, a.relatedControls.value)
  }

  lemma LeftOfUntitled(scope: AssessmentScope, s: Selection)
    ensures var left := LeftOf(scope, "", s);
            Restrict(s, ScopeControls(scope)) ==
            s.(includeAll := false, includeControls := if left == {} then None else Some(Ascending(left)))
  {
    assert LeftOf(scope, "", s) == (set c | c in ScopeControls(scope) && Lists(s, c));
  }

  lemma LeftOfTitled(scope: AssessmentScope, rule: string, s: Selection)
    requires rule != ""
    ensures LeftOf(scope, rule, s) == Survivors(scope, rule, s)
  {
  }

  // The selections an activity is left with, when each is left with a control.
  lemma {:induction false} RelatedIdsLeft(scope: AssessmentScope, rule: string, sels: seq<Selection>,
                                          after: seq<Selection>)
    requires |after| == |sels| && !SomeNotLeft(scope, rule, sels)
    requires forall n :: 0 <= n < |sels| ==>
               after[n].includeControls == Some(Ascending(LeftOf(scope, rule, sels[n])))
    ensures RelatedIds(after) == LeftOfAll(scope, rule, sels)
  {
    if sels != [] {
      var init := sels[..|sels| - 1];
      assert forall n :: 0 <= n < |init| ==> init[n] == sels[n];
      RelatedIdsLeft(scope, rule, init, after[..|sels| - 1]);
    }
  }

  lemma UntitledLeft(scope: AssessmentScope, a: ActivityValue, b: ActivityValue)
    requires TwoPasses(scope, a) == Some(b) && a.title == ""
    ensures RelatedIds(b.relatedControls.GetOr([])) == LeftControls(scope, a)
  {
    if a.relatedControls.Some? {
      var sels := a.relatedControls.value;
      var after := RestrictAll(sels, ScopeControls(scope));
      forall n | 0 <= n < |sels|
        ensures Empty(after[n]) <==> LeftOf(scope, "", sels[n]) == {}
        ensures !Empty(after[n]) ==> after[n].includeControls == Some(Ascending(LeftOf(scope, "", sels[n])))
      {
        LeftOfUntitled(scope, sels[n]);
      }
      assert AnyEmpty(after) <==> SomeNotLeft(scope, "", sels);
      if !AnyEmpty(after) {
        RelatedIdsLeft(scope, "", sels, after);
      }
    }
  }

  lemma TitledLeft(scope: AssessmentScope, a: ActivityValue, b: ActivityValue)
    requires TwoPasses(scope, a) == Some(b) && a.title != ""
    ensures RelatedIds(b.relatedControls.GetOr([])) == LeftControls(scope, a)
  {
    ActivityAfterPasses(scope, a);
    AnyStepEmptiedIsLosesStep(scope, a);
    if a.relatedControls.Some? {
      var sels := a.relatedControls.value;
      assert EveryLeft(scope, a.title, sels) <==> !SomeNotLeft(scope, a.title, sels) by {
        forall n | 0 <= n < |sels|
          ensures LeftOf(scope, a.title, sels[n]) == Survivors(scope, a.title, sels[n])
        {
          LeftOfTitled(scope, a.title, sels[n]);
        }
      }
      if EveryLeft(scope, a.title, sels) {
        AfterAreLeft(scope, a.title, sels);
        RelatedIdsLeft(scope, a.title, sels, AfterAll(scope, a.title, sels));
      }
    }
  }

  lemma AfterAreLeft(scope: AssessmentScope, rule: string, sels: seq<Selection>)
    requires rule != "" && EveryLeft(scope, rule, sels)
    ensures forall n :: 0 <= n < |sels| ==>
              AfterAll(scope, rule, sels)[n].includeControls == Some(Ascending(LeftOf(scope, rule, sels[n])))
  {
    forall n | 0 <= n < |sels|
      ensures After(scope, rule, sels[n]).includeControls == Some(Ascending(LeftOf(scope, rule, sels[n])))
    {
      SelectionAfterPasses(scope, rule, sels[n]);
      LeftOfTitled(scope, rule, sels[n]);
    }
  }

  // ----- A property after a run -----

  lemma PassesKeepProps(scope: AssessmentScope, a: ActivityValue, b: ActivityValue)
    requires TwoPasses(scope, a) == Some(b) && a.props.Some?
    ensures b.props.Some? && |a.props.value| <= |b.props.value|
    ensures forall j :: 0 <= j < |a.props.value| ==> b.props.value[j] == a.props.value[j]
  {
    if a.title != "" {
      PropsAfterPasses(scope, a, b);
    }
  }

  lemma RanKeepsProps(scope: AssessmentScope, groups: RemarksGroups, p: PlanValue, i: nat)
    requires Returns(scope, groups, p, i) && p.activities.value[i].props.Some?
    ensures Ran(scope, groups, p, i).props.Some?
    ensures |p.activities.value[i].props.value| <= |Ran(scope, groups, p, i).props.value|
  {
    RunByActivity(scope, groups, p);
    var a := p.activities.value[i];
    PassesKeepProps(scope, a, TwoPasses(scope, a).value);
  }

  lemma PropertyUpdated(scope: AssessmentScope, groups: RemarksGroups, p: PlanValue, i: nat, j: nat)
    requires ApplyScope(scope, groups, p).Applied? && Returns(scope, groups, p, i)
    requires p.activities.value[i].props.Some? && j < |p.activities.value[i].props.value|
    ensures Ran(scope, groups, p, i).props.Some? && j < |Ran(scope, groups, p, i).props.value|
    ensures var a := p.activities.value[i];
            Ran(scope, groups, p, i).props.value[j] == UpdateProp(scope, LeftControls(scope, a), a.props.value[j])
  {
    RunByActivity(scope, groups, p);
    var a := p.activities.value[i];
    var b := TwoPasses(scope, a).value;
    PassesKeepProps(scope, a, b);
    if a.title == "" {
      UntitledLeft(scope, a, b);
    } else {
      TitledLeft(scope, a, b);
    }
  }

  // A property of any activity after a run without an error: a test parameter takes the value that
  // the first remaining control mentioning it gives, unless that is empty; all else is kept.
  lemma PropertyAfterRun(scope: AssessmentScope, groups: RemarksGroups, p: PlanValue, i: nat, j: nat)
    requires ApplyScope(scope, groups, p).Applied? && Returns(scope, groups, p, i)
    requires p.activities.value[i].props.Some? && j < |p.activities.value[i].props.value|
    ensures Ran(scope, groups, p, i).props.Some? && j < |Ran(scope, groups, p, i).props.value|
    ensures var prop := p.activities.value[i].props.value[j];
            var after := Ran(scope, groups, p, i).props.value[j];
            var ids := LeftControls(scope, p.activities.value[i]);
            && (prop.class_ != TEST_PARAMETER_CLASS ==> after == prop)
            && ((forall c :: c in ids ==> !Mentions(scope, c, prop.name)) ==> after == prop)
            && (prop.class_ == TEST_PARAMETER_CLASS ==> forall k :: FirstMentions(scope, ids, k, prop.name) ==>
                  var v := SelectedValue(scope, ids[k], prop.name).value;
                  after == if v == "" then prop else prop.(value := v))
  {
    PropertyUpdated(scope, groups, p, i, j);
    var prop := p.activities.value[i].props.value[j];
    var ids := LeftControls(scope, p.activities.value[i]);
    if forall c :: c in ids ==> !Mentions(scope, c, prop.name) {
      NoControlDecides(scope, ids, prop.name);
    }
    forall k | FirstMentions(scope, ids, k, prop.name)
      ensures ValueFor(scope, ids, prop.name) == SelectedValue(scope, ids[k], prop.name).value
    {
      FirstDecides(scope, ids, k, prop.name);
    }
  }

  // So it is what it was if and only if it is no test parameter, or its deciding control leaves it alone.
  lemma PropertyKeptExactlyWhen(scope: AssessmentScope, groups: RemarksGroups, p: PlanValue, i: nat, j: nat)
    requires ApplyScope(scope, groups, p).Applied? && Returns(scope, groups, p, i)
    requires p.activities.value[i].props.Some? && j < |p.activities.value[i].props.value|
    ensures Ran(scope, groups, p, i).props.Some? && j < |Ran(scope, groups, p, i).props.value|
    ensures var a := p.activities.value[i];
            Ran(scope, groups, p, i).props.value[j] == a.props.value[j] <==>
            Undisturbed(scope, LeftControls(scope, a), a.props.value[j])
  {
    PropertyUpdated(scope, groups, p, i, j);
    var a := p.activities.value[i];
    UpdateKeeps(scope, LeftControls(scope, a), a.props.value[j]);
  }

  // A single selection, the common case: the smallest remaining control that mentions it decides.
  lemma TestParameterValue(scope: AssessmentScope, groups: RemarksGroups, p: PlanValue, i: nat, j: nat, s: Selection,
                           c: string)
    requires ApplyScope(scope, groups, p).Applied? && Returns(scope, groups, p, i)
    requires p.activities.value[i].relatedControls == Some([s])
    requires p.activities.value[i].title != "" ==> !LosesStep(scope, p.activities.value[i])
    requires p.activities.value[i].props.Some? && j < |p.activities.value[i].props.value|
    requires p.activities.value[i].props.value[j].class_ == TEST_PARAMETER_CLASS
    requires var left := LeftOf(scope, p.activities.value[i].title, s);
             var name := p.activities.value[i].props.value[j].name;
             c in left && Mentions(scope, c, name) &&
             forall d :: d in left && Mentions(scope, d, name) ==> d == c || Less(c, d)
    ensures Ran(scope, groups, p, i).props.Some? && j < |Ran(scope, groups, p, i).props.value|
    ensures var prop := p.activities.value[i].props.value[j];
            var v := SelectedValue(scope, c, prop.name).value;
            Ran(scope, groups, p, i).props.value[j] == if v == "" then prop else prop.(value := v)
  {
    var a := p.activities.value[i];
    PropertyUpdated(scope, groups, p, i, j);
    var ids := Ascending(LeftOf(scope, a.title, s));
    assert forall d :: d in ids <==> d in Elements(ids);
    OneSelectionLeft(scope, a, s);
    SmallestControlDecides(scope, ids, a.props.value[j].name, c);
  }

  lemma OneSelectionLeft(scope: AssessmentScope, a: ActivityValue, s: Selection)
    requires a.relatedControls == Some([s]) && LeftOf(scope, a.title, s) != {}
    requires a.title != "" ==> !LosesStep(scope, a)
    ensures LeftControls(scope, a) == Ascending(LeftOf(scope, a.title, s))
  {
    assert [s][..0] == [] && LeftOfAll(scope, a.title, [s][..0]) == [];
  }

  // ----- All properties of an activity -----

  ghost predicate ParametersUnaltered(before: ActivityValue, after: ActivityValue) {
    before.props.Some? ==>
      && after.props.Some? && |before.props.value| <= |after.props.value|
      && forall j :: 0 <= j < |before.props.value| ==> after.props.value[j] == before.props.value[j]
  }

  ghost predicate AllUndisturbed(scope: AssessmentScope, a: ActivityValue) {
    forall j :: 0 <= j < |a.props.GetOr([])| ==> Undisturbed(scope, LeftControls(scope, a), a.props.GetOr([])[j])
  }

  lemma ActivityUnalteredExactlyWhen(scope: AssessmentScope, groups: RemarksGroups, p: PlanValue, i: nat)
    requires ApplyScope(scope, groups, p).Applied? && Returns(scope, groups, p, i)
    ensures ParametersUnaltered(p.activities.value[i], Ran(scope, groups, p, i)) <==>
            AllUndisturbed(scope, p.activities.value[i])
  {
    var a := p.activities.value[i];
    if a.props.Some? {
      assert a.props.GetOr([]) == a.props.value;
      RanKeepsProps(scope, groups, p, i);
      forall j | 0 <= j < |a.props.value|
        ensures Ran(scope, groups, p, i).props.value[j] == a.props.value[j] <==>
                Undisturbed(scope, LeftControls(scope, a), a.props.value[j])
      {
        PropertyKeptExactlyWhen(scope, groups, p, i, j);
      }
    }
  }
}
