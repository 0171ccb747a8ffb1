/** The scoping engine: the passes of ApplyScope, updating an assessment plan in place.

    Go's `range` over a map visits the keys in no fixed order; here such a loop takes an
    arbitrary remaining key each time, so what is proved holds for every order. */
module ScopeEngine {
  import opened Wrappers
  import opened Ordering
  import opened Oscal
  import opened ScopeRules

  // ===== The control pass =====

  method FilterControlSelection(sel: AssessedControls, includedControls: set<string>)
    modifies sel
    ensures sel.Value() == Restrict(old(sel.Value()), includedControls)
  {
    var includedAll := sel.includeAll;
    sel.includeAll := false;
    var originals: set<string> := {};
    if sel.includeControls.Some? {
      var controls := sel.includeControls.value;
      for k := 0 to |controls|
        invariant originals == Elements(controls[..k])
      {
        originals := originals + {controls[k]};
        assert controls[..k + 1] == controls[..k] + [controls[k]];
      }
      assert controls[..|controls|] == controls;
    }
    var newIncluded := IntersectControls(includedControls, includedAll, originals);
    assert Elements(newIncluded) == set c | c in includedControls && Lists(old(sel.Value()), c);
    if newIncluded != [] {
      assert newIncluded[0] in Elements(newIncluded);
      newIncluded := SortIds(newIncluded);
      sel.includeControls := Some(newIncluded);
    } else {
      sel.includeControls := None;
    }
  }

  // The range over the included controls, in arbitrary order.
  method IntersectControls(includedControls: set<string>, includedAll: bool, originals: set<string>)
    returns (r: seq<string>)
    ensures Distinct(r)
    ensures Elements(r) == set c | c in includedControls && (includedAll || c in originals)
  {
    r := [];
    var todo := includedControls;
    while todo != {}
      invariant todo <= includedControls
      invariant Distinct(r)
      invariant forall c :: c in r <==> c in includedControls && c !in todo && (includedAll || c in originals)
    {
      var c :| c in todo;
      todo := todo - {c};
      if includedAll || c in originals {
        r := r + [c];
      }
    }
  }

  method AddActivityProperty(activity: Activity, marker: Property)
    modifies activity`props
    ensures activity.props == Mark(old(activity.props), [marker])
  {
    if activity.props == None {
      activity.props := Some([]);
    }
    activity.props := Some(activity.props.value + [marker]);
  }

  // One turn of the loop over an activity's selections.
  method ControlScopeSelection(activity: Activity, sel: AssessedControls, includedControls: set<string>)
    modifies activity, sel
    ensures sel.Value() == Restrict(old(sel.Value()), includedControls)
    ensures activity.relatedControls == if Empty(sel.Value()) then None else old(activity.relatedControls)
    ensures activity.props == Mark(old(activity.props), if Empty(sel.Value()) then [SKIPPED] else [])
  {
    FilterControlSelection(sel, includedControls);
    if sel.includeControls == None {
      activity.relatedControls := None;
      AddActivityProperty(activity, SKIPPED);
    }
  }

  lemma MarkTwice(props: Option<seq<Property>>, a: seq<Property>, b: seq<Property>)
    ensures Mark(Mark(props, a), b) == Mark(props, a + b)
  {
    assert (props.GetOr([]) + a) + b == props.GetOr([]) + (a + b);
    assert a == [] ==> a + b == b;
    assert b == [] ==> a + b == a;
  }

  lemma ControlMarkersSnoc(props: Option<seq<Property>>, after: seq<Selection>, k: nat)
    requires k < |after|
    ensures Mark(props, ControlMarkers(after[..k + 1])) ==
            Mark(Mark(props, ControlMarkers(after[..k])), if Empty(after[k]) then [SKIPPED] else [])
    ensures AnyEmpty(after[..k + 1]) <==> AnyEmpty(after[..k]) || Empty(after[k])
  {
    assert after[..k + 1][..k] == after[..k];
    MarkTwice(props, ControlMarkers(after[..k]), if Empty(after[k]) then [SKIPPED] else []);
    AnyEmptySnoc(after, k);
  }

  lemma AnyEmptySnoc(sels: seq<Selection>, k: nat)
    requires k < |sels|
    ensures AnyEmpty(sels[..k + 1]) <==> AnyEmpty(sels[..k]) || Empty(sels[k])
  {
    var l, r := sels[..k], sels[..k + 1];
    assert r == l + [sels[k]];
    if AnyEmpty(l) {
      var i :| 0 <= i < |l| && Empty(l[i]);
      assert Empty(r[i]);
    }
    assert Empty(sels[k]) ==> Empty(r[k]);
  }

  twostate lemma StepUnchanged(step: Step)
    requires unchanged(step)
    requires forall c :: c in step.Reviewed() ==> unchanged(c)
    ensures step.Value() == old(step.Value())
  {
    assert forall c :: c in step.Reviewed() ==> c.Value() == old(c.Value());
    assert Selections(step.Reviewed()) == old(Selections(step.Reviewed()));
  }

  method ControlScopeActivity(activity: Activity, includedControls: set<string>)
    requires activity.Valid()
    modifies activity, activity.Related()
    ensures activity.Valid()
    ensures activity.Sels() <= old(activity.Sels())
    ensures activity.Value() == ControlPassActivity(old(activity.Value()), includedControls)
  {
    if activity.relatedControls != None {
      ControlScopeRelated(activity, includedControls);
      forall i, c | 0 <= i < |activity.steps| && c in old(activity.steps[i].Reviewed())
        ensures unchanged(c)
      {
        assert c !in old(activity.Related());
      }
      StepsUntouched(activity);
    }
  }

  // An activity whose own selections were changed or dropped, and whose steps were not touched.
  twostate lemma StepsUntouched(activity: Activity)
    requires old(activity.Valid()) && unchanged(activity.steps)
    requires activity.relatedControls == None || activity.relatedControls == old(activity.relatedControls)
    requires forall i, c :: 0 <= i < |activity.steps| && c in old(activity.steps[i].Reviewed()) ==> unchanged(c)
    ensures activity.Valid() && activity.Sels() <= old(activity.Sels())
    ensures activity.StepValues() == old(activity.StepValues())
  {
    forall i | 0 <= i < |activity.steps|
      ensures activity.steps[i].Value() == old(activity.steps[i].Value())
    {
      StepUnchanged(activity.steps[i]);
    }
  }

  // What becomes of the selection at index i; after is given, so that the loop need not unfold it.
  ghost predicate Restricts(before: seq<Selection>, after: seq<Selection>, inScope: set<string>, i: nat) {
    i < |before| && i < |after| && after[i] == Restrict(before[i], inScope)
  }

  // The loop over an activity's selections.
  method ControlScopeLoop(activity: Activity, sels: seq<AssessedControls>, includedControls: set<string>,
                          ghost before: seq<Selection>, ghost after: seq<Selection>)
    requires activity.relatedControls == Some(sels) && Distinct(sels)
    requires |before| == |sels| && forall i :: 0 <= i < |sels| ==> sels[i].Value() == before[i]
    requires |after| == |sels| && forall i :: 0 <= i < |sels| ==> Restricts(before, after, includedControls, i)
    modifies activity, sels
    ensures forall i :: 0 <= i < |sels| ==> sels[i].Value() == after[i]
    ensures activity.relatedControls == if AnyEmpty(after) then None else Some(sels)
    ensures activity.props == Mark(old(activity.props), ControlMarkers(after))
  {
    ghost var oldProps := activity.props;
    for k := 0 to |sels|
      invariant forall i :: 0 <= i < k ==> sels[i].Value() == after[i]
      invariant forall i :: k <= i < |sels| ==> sels[i].Value() == before[i]
      invariant activity.relatedControls == if AnyEmpty(after[..k]) then None else Some(sels)
      invariant activity.props == Mark(oldProps, ControlMarkers(after[..k]))
    {
      assert Restricts(before, after, includedControls, k);
      ControlMarkersSnoc(oldProps, after, k);
      ControlScopeSelection(activity, sels[k], includedControls);
    }
    assert after[..|sels|] == after;
  }

  method ControlScopeRelated(activity: Activity, includedControls: set<string>)
    requires activity.relatedControls.Some? && Distinct(activity.Related())
    modifies activity, activity.Related()
    ensures activity.relatedControls == None || activity.relatedControls == old(activity.relatedControls)
    ensures var after := RestrictAll(old(Selections(activity.Related())), includedControls);
            && activity.RelatedValues() == Remaining(after)
            && activity.props == Mark(old(activity.props), ControlMarkers(after))
  {
    var sels := activity.relatedControls.value;
    assert sels == activity.Related();
    ghost var before := Selections(sels);
    ghost var after := RestrictAll(before, includedControls);
    ControlScopeLoop(activity, sels, includedControls, before, after);
    RelatedAre(activity, sels, after);
  }

  // The related controls at the end of a loop that drops them on an emptied selection.
  lemma RelatedAre(activity: Activity, sels: seq<AssessedControls>, after: seq<Selection>)
    requires activity.relatedControls == if AnyEmpty(after) then None else Some(sels)
    requires |after| == |sels| && forall i :: 0 <= i < |sels| ==> sels[i].Value() == after[i]
    ensures activity.RelatedValues() == Remaining(after)
  {
    assert Selections(sels) == after;
  }

  twostate lemma SelectionsUnchanged(sels: seq<AssessedControls>)
    requires forall i :: 0 <= i < |sels| ==> sels[i].Value() == old(sels[i].Value())
    ensures Selections(sels) == old(Selections(sels))
  {
  }

  twostate lemma ActivityUnchanged(activity: Activity)
    requires unchanged(activity) && unchanged(activity.steps) && unchanged(old(activity.Sels()))
    ensures activity.Sels() == old(activity.Sels())
    ensures activity.Valid() == old(activity.Valid())
    ensures activity.Value() == old(activity.Value())
  {
  }

  // Activities stay separate while their selections only become fewer.
  twostate lemma StillSeparate(acts: seq<Activity>)
    requires old(Separate(acts))
    requires forall i :: 0 <= i < |acts| ==> acts[i].Valid() && acts[i].Sels() <= old(acts[i].Sels())
    ensures Separate(acts)
    ensures AllSels(acts) <= old(AllSels(acts))
  {
  }

  twostate lemma ActivitiesUnchanged(acts: seq<Activity>)
    requires unchanged(acts) && unchanged(AllSteps(acts)) && unchanged(old(AllSels(acts)))
    ensures AllSels(acts) == old(AllSels(acts))
    ensures Separate(acts) == old(Separate(acts))
    ensures ActivityValues(acts) == old(ActivityValues(acts))
  {
  }

  twostate lemma PlanUnchanged(plan: AssessmentPlan)
    requires unchanged(plan.reviewedControls)
    requires unchanged(plan.Activities()) && unchanged(AllSteps(plan.Activities()))
    requires unchanged(old(AllSels(plan.Activities())))
    ensures AllSels(plan.Activities()) == old(AllSels(plan.Activities()))
    ensures plan.Valid() == old(plan.Valid())
    ensures plan.Value() == old(plan.Value())
  {
    ActivitiesUnchanged(plan.Activities());
    SelectionsUnchanged(plan.reviewedControls);
  }

  method IncludedControls(scope: AssessmentScope) returns (included: set<string>)
    ensures included == ScopeControls(scope)
  {
    included := {};
    for k := 0 to |scope.includeControls|
      invariant forall c :: c in included <==> exists e :: e in scope.includeControls[..k] && e.controlId == c
    {
      included := included + {scope.includeControls[k].controlId};
    }
  }

  method ApplyControlScope(scope: AssessmentScope, plan: AssessmentPlan)
    requires plan.Valid()
    modifies plan.reviewedControls, plan.Activities(), AllSels(plan.Activities())
    ensures plan.Valid()
    ensures AllSels(plan.Activities()) <= old(AllSels(plan.Activities()))
    ensures plan.Value() == ControlPass(scope, old(plan.Value()))
  {
    var included := IncludedControls(scope);
    PlanParts(plan);
    ActivitiesUnchanged(plan.Activities());
    ControlScopeLocal(plan, included);
    ControlScopePlan(plan, included);
    PlanParts(plan);
  }

  lemma PlanParts(plan: AssessmentPlan)
    ensures plan.Value().reviewedControls == Selections(plan.reviewedControls)
    ensures plan.Value().activities ==
            if plan.activities.None? then None else Some(ActivityValues(plan.Activities()))
  {
  }

  method ControlScopeLocal(plan: AssessmentPlan, included: set<string>)
    requires plan.Valid()
    modifies plan.Activities(), AllSels(plan.Activities())
    ensures plan.Valid()
    ensures AllSels(plan.Activities()) <= old(AllSels(plan.Activities()))
    ensures Selections(plan.reviewedControls) == old(Selections(plan.reviewedControls))
    ensures ActivityValues(plan.Activities()) == ControlPassAll(old(ActivityValues(plan.Activities())), included)
  {
    var acts := plan.Activities();
    if plan.activities.Some? {
      ControlScopeActivities(acts, included);
    }
    forall i | 0 <= i < |plan.reviewedControls|
      ensures plan.reviewedControls[i].Value() == old(plan.reviewedControls[i].Value())
    {
      assert plan.reviewedControls[i] !in old(AllSels(acts));
    }
    SelectionsUnchanged(plan.reviewedControls);
  }

  method ControlScopePlan(plan: AssessmentPlan, included: set<string>)
    requires plan.Valid()
    modifies plan.reviewedControls
    ensures plan.Valid()
    ensures AllSels(plan.Activities()) == old(AllSels(plan.Activities()))
    ensures ActivityValues(plan.Activities()) == old(ActivityValues(plan.Activities()))
    ensures Selections(plan.reviewedControls) == RestrictAll(old(Selections(plan.reviewedControls)), included)
  {
    ControlScopeSelections(plan.reviewedControls, included);
    assert forall c :: c in old(AllSels(plan.Activities())) ==> c !in plan.reviewedControls;
    ActivitiesUnchanged(plan.Activities());
  }

  method ControlScopeSelections(sels: seq<AssessedControls>, included: set<string>)
    requires Distinct(sels)
    modifies sels
    ensures Selections(sels) == RestrictAll(old(Selections(sels)), included)
  {
    for k := 0 to |sels|
      invariant forall i :: 0 <= i < k ==> sels[i].Value() == Restrict(old(sels[i].Value()), included)
      invariant forall i :: k <= i < |sels| ==> sels[i].Value() == old(sels[i].Value())
    {
      FilterControlSelection(sels[k], included);
    }
  }

  // ----- Who owns which storage -----

  // No two activities share steps, nor storage for selections.
  ghost predicate OwnApart(acts: seq<Activity>, owned: seq<set<AssessedControls>>) {
    && |owned| == |acts| && Distinct(acts)
    && (forall i, j, s :: 0 <= i < |acts| && 0 <= j < |acts| && i != j && s in acts[i].steps ==> s !in acts[j].steps)
    && (forall i, j, c :: 0 <= i < |acts| && 0 <= j < |acts| && i != j && c in owned[i] ==> c !in owned[j])
  }

  // Each activity keeps to its own.
  ghost predicate Own(acts: seq<Activity>, owned: seq<set<AssessedControls>>)
    reads acts, AllSteps(acts)
  {
    |owned| == |acts| && forall i :: 0 <= i < |acts| ==> acts[i].Valid() && acts[i].Sels() <= owned[i]
  }

  ghost function OwnedSels(acts: seq<Activity>): (r: seq<set<AssessedControls>>)
    reads acts, AllSteps(acts)
    ensures |r| == |acts|
    ensures forall i :: 0 <= i < |acts| ==> r[i] == acts[i].Sels() && r[i] <= AllSels(acts)
  {
    seq(|acts|, i requires 0 <= i < |acts| reads acts, AllSteps(acts) => acts[i].Sels())
  }

  lemma SeparateOwn(acts: seq<Activity>)
    requires Separate(acts)
    ensures OwnApart(acts, OwnedSels(acts)) && Own(acts, OwnedSels(acts))
  {
    forall i, j, c | 0 <= i < |acts| && 0 <= j < |acts| && i != j && c in acts[i].Sels()
      ensures c !in acts[j].Sels()
    {
      assert if i < j then acts[i].Sels() !! acts[j].Sels() else acts[j].Sels() !! acts[i].Sels();
    }
  }

  method ControlScopeActivities(acts: seq<Activity>, includedControls: set<string>)
    requires Separate(acts)
    modifies acts, AllSels(acts)
    ensures Separate(acts)
    ensures AllSels(acts) <= old(AllSels(acts))
    ensures ActivityValues(acts) == ControlPassAll(old(ActivityValues(acts)), includedControls)
  {
    ghost var before := ActivityValues(acts);
    ghost var owned := OwnedSels(acts);
    SeparateOwn(acts);
    for k := 0 to |acts|
      invariant Own(acts, owned)
      invariant forall i :: 0 <= i < k ==> acts[i].Value() == ControlPassActivity(before[i], includedControls)
      invariant forall i :: k <= i < |acts| ==> acts[i].Value() == before[i]
    {
      ControlScopeNth(acts, k, includedControls, owned);
    }
    StillSeparate(acts);
  }

  method ControlScopeNth(acts: seq<Activity>, k: nat, includedControls: set<string>,
                         ghost owned: seq<set<AssessedControls>>)
    requires k < |acts| && OwnApart(acts, owned) && Own(acts, owned)
    modifies acts[k], owned[k]
    ensures Own(acts, owned)
    ensures acts[k].Value() == ControlPassActivity(old(acts[k].Value()), includedControls)
    ensures forall i :: 0 <= i < |acts| && i != k ==> acts[i].Value() == old(acts[i].Value())
  {
    ControlScopeActivity(acts[k], includedControls);
    forall i | 0 <= i < |acts| && i != k
      ensures acts[i].Value() == old(acts[i].Value()) && acts[i].Valid() && acts[i].Sels() == old(acts[i].Sels())
    {
      assert acts[i] != acts[k];
      assert forall c :: c in old(acts[i].Sels()) ==> c in owned[i];
      ActivityUnchanged(acts[i]);
    }
  }
}
