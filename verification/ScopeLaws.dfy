/** Running the scoping engine: a run decomposes activity by activity, and a second run with the
    same scope changes nothing that matters. */
module ScopeLaws {
  import opened Wrappers
  import opened Ordering
  import opened Oscal
  import opened ComponentDefinitions
  import opened ScopeRules
  import opened RuleEngine
  import opened ScopeTheorems

  // ===== Running twice =====

  // A selection both passes leave alone.
  ghost predicate SettledSelection(scope: AssessmentScope, rule: string, s: Selection) {
    !Empty(s) && Restrict(s, ScopeControls(scope)) == s && (rule != "" ==> ApplyRule(scope, rule, s) == s)
  }

  // A selection the rule pass leaves alone.
  ghost predicate SettledStepSelection(scope: AssessmentScope, rule: string, s: Selection) {
    !Empty(s) && ApplyRule(scope, rule, s) == s
  }

  ghost predicate SettledStep(scope: AssessmentScope, rule: string, s: StepValue) {
    forall j :: 0 <= j < |s.reviewedControls.GetOr([])| ==>
      SettledStepSelection(scope, rule, s.reviewedControls.GetOr([])[j])
  }

  ghost predicate Settled(scope: AssessmentScope, a: ActivityValue) {
    && (forall i :: 0 <= i < |a.relatedControls.GetOr([])| ==>
          SettledSelection(scope, a.title, a.relatedControls.GetOr([])[i]))
    && (a.title != "" ==> forall k :: 0 <= k < |a.steps| ==> SettledStep(scope, a.title, a.steps[k]))
  }

  lemma {:induction false} KeptAll(scope: AssessmentScope, rule: string, ids: seq<string>)
    requires forall c :: c in ids ==> Stays(scope, rule, c)
    ensures Kept(scope, rule, ids) == ids
  {
    if ids != [] {
      assert ids == ids[..|ids| - 1] + [ids[|ids| - 1]];
      KeptAll(scope, rule, ids[..|ids| - 1]);
    }
  }

  lemma ApplyRuleTwice(scope: AssessmentScope, rule: string, s: Selection)
    ensures ApplyRule(scope, rule, ApplyRule(scope, rule, s)) == ApplyRule(scope, rule, s)
  {
    if !Empty(s) {
      var kept := Kept(scope, rule, s.includeControls.value);
      KeptMembers(scope, rule, s.includeControls.value);
      KeptAll(scope, rule, kept);
    }
  }

  lemma RestrictSorted(s: Selection, inScope: set<string>)
    requires s.includeControls.Some? && s.includeControls.value != [] && !s.includeAll
    requires StrictlyAscending(s.includeControls.value) && Elements(s.includeControls.value) <= inScope
    ensures Restrict(s, inScope) == s
  {
    var ids := s.includeControls.value;
    assert (set c | c in inScope && Lists(s, c)) == Elements(ids);
    assert ids[0] in Elements(ids);
    AscendingUnique(ids, Ascending(Elements(ids)));
  }

  lemma RestrictTwice(s: Selection, inScope: set<string>)
    requires !Empty(Restrict(s, inScope))
    ensures Restrict(Restrict(s, inScope), inScope) == Restrict(s, inScope)
  {
    var left := set c | c in inScope && Lists(s, c);
    var ids := Ascending(left);
    assert ids != [] by {
      var c :| c in left;
      assert c in Elements(ids);
    }
    RestrictSorted(Restrict(s, inScope), inScope);
  }

  lemma SelectionSettles(scope: AssessmentScope, rule: string, s: Selection)
    requires !Empty(After(scope, rule, s))
    ensures SettledSelection(scope, rule, After(scope, rule, s))
  {
    SelectionAfterPasses(scope, rule, s);
    ApplyRuleTwice(scope, rule, Restrict(s, ScopeControls(scope)));
    var left := Survivors(scope, rule, s);
    var ids := Ascending(left);
    assert ids != [] by {
      var c :| c in left;
      assert c in Elements(ids);
    }
    RestrictSorted(After(scope, rule, s), ScopeControls(scope));
  }

  lemma StepSettles(scope: AssessmentScope, rule: string, s: StepValue)
    ensures SettledStep(scope, rule, RulePassStep(scope, rule, s))
  {
    if s.reviewedControls.Some? {
      var sels := s.reviewedControls.value;
      var after := ApplyRuleAll(scope, rule, sels);
      if !AnyEmpty(after) {
        forall j | 0 <= j < |after|
          ensures SettledStepSelection(scope, rule, after[j])
        {
          assert !Empty(after[j]);
          ApplyRuleTwice(scope, rule, sels[j]);
        }
      }
    }
  }

  // Whatever the first run leaves is settled.
  lemma PassesSettle(scope: AssessmentScope, a: ActivityValue, b: ActivityValue)
    requires TwoPasses(scope, a) == Some(b)
    ensures Settled(scope, b)
  {
    if a.title == "" {
      if a.relatedControls.Some? {
        UntitledSettles(scope, a.relatedControls.value);
      }
    } else {
      ActivityAfterPasses(scope, a);
      if a.relatedControls.Some? && EveryLeft(scope, a.title, a.relatedControls.value) {
        RelatedSettles(scope, a.title, a.relatedControls.value);
      }
      forall k | 0 <= k < |b.steps|
        ensures SettledStep(scope, b.title, b.steps[k])
      {
        StepSettles(scope, a.title, a.steps[k]);
      }
    }
  }

  lemma UntitledSettles(scope: AssessmentScope, sels: seq<Selection>)
    ensures var after := RestrictAll(sels, ScopeControls(scope));
            AnyEmpty(after) || forall i :: 0 <= i < |after| ==> SettledSelection(scope, "", after[i])
  {
    var after := RestrictAll(sels, ScopeControls(scope));
    if !AnyEmpty(after) {
      forall i | 0 <= i < |after|
        ensures SettledSelection(scope, "", after[i])
      {
        assert !Empty(after[i]);
        RestrictTwice(sels[i], ScopeControls(scope));
      }
    }
  }

  lemma RelatedSettles(scope: AssessmentScope, rule: string, sels: seq<Selection>)
    requires EveryLeft(scope, rule, sels)
    ensures forall i :: 0 <= i < |sels| ==> SettledSelection(scope, rule, AfterAll(scope, rule, sels)[i])
  {
    AnyEmptyAfter(scope, rule, sels);
    forall i | 0 <= i < |sels|
      ensures SettledSelection(scope, rule, AfterAll(scope, rule, sels)[i])
    {
      assert !Empty(AfterAll(scope, rule, sels)[i]);
      SelectionSettles(scope, rule, sels[i]);
    }
  }

  // ----- The second run -----

  ghost predicate OnlyWaived(markers: seq<Property>) {
    forall m :: m in markers ==> m == WAIVED
  }

  // after has the properties of before, and possibly more waived markers at the end.
  ghost predicate OnlyWaivedAdded(before: Option<seq<Property>>, after: Option<seq<Property>>) {
    exists markers :: OnlyWaived(markers) && after == Mark(before, markers)
  }

  ghost predicate SameStep(a: StepValue, b: StepValue) {
    a.reviewedControls == b.reviewedControls && OnlyWaivedAdded(a.props, b.props)
  }

  ghost predicate SameActivity(a: ActivityValue, b: ActivityValue) {
    && a.title == b.title
    && a.relatedControls == b.relatedControls
    && |a.steps| == |b.steps|
    && (forall k :: 0 <= k < |a.steps| ==> SameStep(a.steps[k], b.steps[k]))
    && OnlyWaivedAdded(a.props, b.props)
  }

  ghost predicate SamePlan(p: PlanValue, q: PlanValue) {
    && p.reviewedControls == q.reviewedControls
    && (p.activities.None? <==> q.activities.None?)
    && (p.activities.Some? ==>
          |p.activities.value| == |q.activities.value| &&
          forall i :: 0 <= i < |p.activities.value| ==> SameActivity(p.activities.value[i], q.activities.value[i]))
  }

  lemma {:induction false} SettledMarkers(scope: AssessmentScope, rule: string, sels: seq<Selection>)
    requires !AnyEmpty(sels)
    ensures OnlyWaived(RuleMarkers(scope, rule, sels))
  {
    if sels != [] {
      assert !Empty(sels[|sels| - 1]);
      assert forall i :: 0 <= i < |sels| - 1 ==> sels[..|sels| - 1][i] == sels[i];
      SettledMarkers(scope, rule, sels[..|sels| - 1]);
    }
  }

  lemma StepAgain(scope: AssessmentScope, rule: string, s: StepValue)
    requires SettledStep(scope, rule, s)
    ensures SameStep(s, RulePassStep(scope, rule, s)) && !StepEmptied(scope, rule, s)
  {
    if s.reviewedControls.Some? {
      var sels := s.reviewedControls.value;
      assert s.reviewedControls.GetOr([]) == sels;
      assert ApplyRuleAll(scope, rule, sels) == sels;
      SettledMarkers(scope, rule, sels);
    } else {
      assert OnlyWaived([]) && s.props == Mark(s.props, []);
    }
  }

  lemma NothingAdded(props: Option<seq<Property>>)
    ensures OnlyWaivedAdded(props, props)
  {
    assert OnlyWaived([]) && props == Mark(props, []);
  }

  lemma ActivityAgain(scope: AssessmentScope, a: ActivityValue)
    requires Settled(scope, a)
    ensures TwoPasses(scope, a).Some? && SameActivity(a, TwoPasses(scope, a).value)
  {
    var rule := a.title;
    NothingAdded(a.props);
    if a.relatedControls.Some? {
      RelatedAgain(scope, a, a.relatedControls.value);
    }
    assert ControlPassActivity(a, ScopeControls(scope)) == a;
    if rule == "" {
      forall k | 0 <= k < |a.steps|
        ensures SameStep(a.steps[k], a.steps[k])
      {
        NothingAdded(a.steps[k].props);
      }
    } else {
      forall k | 0 <= k < |a.steps|
        ensures SameStep(a.steps[k], RulePassStep(scope, rule, a.steps[k])) && !StepEmptied(scope, rule, a.steps[k])
      {
        StepAgain(scope, rule, a.steps[k]);
      }
    }
  }

  lemma RelatedAgain(scope: AssessmentScope, a: ActivityValue, sels: seq<Selection>)
    requires Settled(scope, a) && a.relatedControls == Some(sels)
    ensures ControlPassActivity(a, ScopeControls(scope)) == a
    ensures a.title != "" ==>
              && RulePassRelated(scope, a).relatedControls == Some(sels)
              && OnlyWaivedAdded(a.props, RulePassRelated(scope, a).props)
  {
    assert a.relatedControls.GetOr([]) == sels;
    assert RestrictAll(sels, ScopeControls(scope)) == sels;
    assert !AnyEmpty(sels);
    NoControlMarkers(sels);
    if a.title != "" {
      assert ApplyRuleAll(scope, a.title, sels) == sels;
      SettledMarkers(scope, a.title, sels);
    }
  }

  // ----- The parameter pass, run again -----

  lemma UpdateMarked(scope: AssessmentScope, ids: seq<string>, props: seq<Property>, markers: seq<Property>)
    requires UpdateProps(scope, ids, props) == props && OnlyWaived(markers)
    ensures UpdateProps(scope, ids, props + markers) == props + markers
  {
    forall j | 0 <= j < |props + markers|
      ensures UpdateProp(scope, ids, (props + markers)[j]) == (props + markers)[j]
    {
      if j < |props| {
        assert UpdateProps(scope, ids, props)[j] == props[j];
      } else {
        assert markers[j - |props|] in markers;
      }
    }
  }

  lemma UpdateTwice(scope: AssessmentScope, ids: seq<string>, props: seq<Property>)
    ensures UpdateProps(scope, ids, UpdateProps(scope, ids, props)) == UpdateProps(scope, ids, props)
  {
  }

  // Writing the parameters of a result again changes nothing, with or without new markers.
  lemma ParametersAgain(scope: AssessmentScope, b: ActivityValue, c: ActivityValue)
    requires SameActivity(ParameterPassActivity(scope, b), c)
    ensures ParameterPassActivity(scope, c) == c
  {
    var once := ParameterPassActivity(scope, b);
    var markers :| OnlyWaived(markers) && c.props == Mark(once.props, markers);
    var ids := RelatedIds(c.relatedControls.GetOr([]));
    if once.props.Some? {
      UpdateTwice(scope, ids, b.props.value);
      UpdateMarked(scope, ids, once.props.value, markers);
    } else if markers != [] {
      assert UpdateProps(scope, ids, []) == [];
      UpdateMarked(scope, ids, [], markers);
      assert [] + markers == markers;
    }
  }

  // ----- One activity of a whole run -----

  // What the parameter pass makes of an activity: nothing, when the selected values are invalid.
  ghost function Finish(scope: AssessmentScope, groups: RemarksGroups, b: ActivityValue): ActivityValue {
    if ParametersValid(scope, groups) then ParameterPassActivity(scope, b) else b
  }

  lemma ActivityTwice(scope: AssessmentScope, groups: RemarksGroups, a: ActivityValue)
    requires TwoPasses(scope, a).Some?
    ensures var once := Finish(scope, groups, TwoPasses(scope, a).value);
            && TwoPasses(scope, once).Some?
            && SameActivity(once, Finish(scope, groups, TwoPasses(scope, once).value))
  {
    var b := TwoPasses(scope, a).value;
    var once := Finish(scope, groups, b);
    PassesSettle(scope, a, b);
    assert Settled(scope, once);
    ActivityAgain(scope, once);
    if ParametersValid(scope, groups) {
      ParametersAgain(scope, b, TwoPasses(scope, once).value);
    }
  }

  // A run, activity by activity.
  lemma RunByActivity(scope: AssessmentScope, groups: RemarksGroups, p: PlanValue)
    ensures ApplyScope(scope, groups, p).NilDereference? <==>
            p.activities.Some? &&
            exists i :: 0 <= i < |p.activities.value| && TwoPasses(scope, p.activities.value[i]).None?
    ensures !ApplyScope(scope, groups, p).NilDereference? ==>
              var q := ApplyScope(scope, groups, p).plan;
              && (ApplyScope(scope, groups, p).Applied? <==> p.activities.None? || ParametersValid(scope, groups))
              && q.reviewedControls == RestrictAll(p.reviewedControls, ScopeControls(scope))
              && (q.activities.None? <==> p.activities.None?)
              && (p.activities.Some? ==>
                    |q.activities.value| == |p.activities.value| &&
                    forall i :: 0 <= i < |p.activities.value| ==>
                      TwoPasses(scope, p.activities.value[i]).Some? &&
                      q.activities.value[i] == Finish(scope, groups, TwoPasses(scope, p.activities.value[i]).value))
  {
    if p.activities.Some? {
      var acts := p.activities.value;
      var passed := ControlPassAll(acts, ScopeControls(scope));
      assert forall i :: 0 <= i < |acts| ==> RulePassActivity(scope, passed[i]) == TwoPasses(scope, acts[i]);
    }
  }

  // The activity at index i is there, and the run does not panic.
  ghost predicate Returns(scope: AssessmentScope, groups: RemarksGroups, p: PlanValue, i: nat) {
    p.activities.Some? && i < |p.activities.value| && !ApplyScope(scope, groups, p).NilDereference?
  }

  // The activity at index i after the run.
  ghost function Ran(scope: AssessmentScope, groups: RemarksGroups, p: PlanValue, i: nat): ActivityValue
    requires Returns(scope, groups, p, i)
  {
    RunByActivity(scope, groups, p);
    ApplyScope(scope, groups, p).plan.activities.value[i]
  }

  lemma RanByPasses(scope: AssessmentScope, groups: RemarksGroups, p: PlanValue, i: nat)
    requires Returns(scope, groups, p, i)
    ensures var b := TwoPasses(scope, p.activities.value[i]);
            b.Some? && Ran(scope, groups, p, i) == b.value.(props := Ran(scope, groups, p, i).props)
    ensures Ran(scope, groups, p, i).title == p.activities.value[i].title
  {
    RunByActivity(scope, groups, p);
  }

  lemma RanSteps(scope: AssessmentScope, groups: RemarksGroups, p: PlanValue, i: nat)
    requires Returns(scope, groups, p, i)
    ensures |Ran(scope, groups, p, i).steps| == |p.activities.value[i].steps|
  {
    RanByPasses(scope, groups, p, i);
    if p.activities.value[i].title != "" {
      ActivityAfterPasses(scope, p.activities.value[i]);
    }
  }

  // A step after the run: through the rule pass, unless its activity has no title.
  lemma RanStep(scope: AssessmentScope, groups: RemarksGroups, p: PlanValue, i: nat, k: nat)
    requires Returns(scope, groups, p, i) && k < |p.activities.value[i].steps|
    ensures |Ran(scope, groups, p, i).steps| == |p.activities.value[i].steps|
    ensures var a := p.activities.value[i];
            Ran(scope, groups, p, i).steps[k] ==
            if a.title == "" then a.steps[k] else RulePassStep(scope, a.title, a.steps[k])
  {
    RanByPasses(scope, groups, p, i);
    var a := p.activities.value[i];
    if a.title != "" {
      ActivityAfterPasses(scope, a);
    } else if a.relatedControls.Some? {
      assert TwoPasses(scope, a).value.steps == a.steps;
    }
  }

  // ----- The law -----

  // A second run with the same scope never panics and has the same verdict. It changes no control
  // list, no related controls and no parameter value, and adds nothing but waived markers.
  lemma Idempotent(scope: AssessmentScope, groups: RemarksGroups, p: PlanValue)
    requires !ApplyScope(scope, groups, p).NilDereference?
    ensures var first := ApplyScope(scope, groups, p);
            var second := ApplyScope(scope, groups, first.plan);
            && !second.NilDereference?
            && (first.Applied? <==> second.Applied?)
            && SamePlan(first.plan, second.plan)
  {
    var q := ApplyScope(scope, groups, p).plan;
    RunByActivity(scope, groups, p);
    RunByActivity(scope, groups, q);
    ReviewedAgain(scope, p.reviewedControls);
    if p.activities.Some? {
      forall i | 0 <= i < |p.activities.value|
        ensures var once := q.activities.value[i];
                TwoPasses(scope, once).Some? &&
                SameActivity(once, Finish(scope, groups, TwoPasses(scope, once).value))
      {
        ActivityTwice(scope, groups, p.activities.value[i]);
      }
    }
  }

  lemma ReviewedAgain(scope: AssessmentScope, sels: seq<Selection>)
    ensures var inScope := ScopeControls(scope);
            RestrictAll(RestrictAll(sels, inScope), inScope) == RestrictAll(sels, inScope)
  {
    var inScope := ScopeControls(scope);
    forall i | 0 <= i < |sels|
      ensures Restrict(Restrict(sels[i], inScope), inScope) == Restrict(sels[i], inScope)
    {
      if Empty(Restrict(sels[i], inScope)) {
        var again := set c | c in inScope && Lists(Restrict(sels[i], inScope), c);
        assert again == {};
      } else {
        RestrictTwice(sels[i], inScope);
      }
    }
  }
}
