/** Waived rules: which activities a run marks as waived, and when it leaves their parameters
    unaltered. */
module WaivedParameters {
  import opened Oscal
  import opened ComponentDefinitions
  import opened ScopeRules
  import opened ScopeTheorems
  import opened ScopeLaws
  import opened ScopeMonotone
  import opened ParameterRuns

  // ===== Waived activities =====

  // Every selection has a control in scope, and some control survives for which the rule is waived,
  // globally or by the control's entry.
  ghost predicate WaivedActivity(scope: AssessmentScope, a: ActivityValue) {
    && a.title != "" && a.relatedControls.Some?
    && (forall n :: 0 <= n < |a.relatedControls.value| ==> !NoneInScope(scope, a.relatedControls.value[n]))
    && AnyWaived(scope, a.title, a.relatedControls.value)
  }

  ghost predicate AnyWaived(scope: AssessmentScope, rule: string, sels: seq<Selection>) {
    exists n, c :: 0 <= n < |sels| && c in Survivors(scope, rule, sels[n]) && Waived(scope, rule, c)
  }

  lemma {:induction false} WaivedMarkers(scope: AssessmentScope, rule: string, sels: seq<Selection>)
    ensures WaivedIn(SelectionMarkers(scope, rule, sels)) > 0 <==> AnyWaived(scope, rule, sels)
  {
    if sels != [] {
      var init, last := sels[..|sels| - 1], sels[|sels| - 1];
      WaivedMarkers(scope, rule, init);
      assert sels == init + [last];
      AnyWaivedSnoc(scope, rule, init, last);
      WaivedInBoth(SelectionMarkers(scope, rule, init), SelectionMarker(scope, rule, last));
      OneWaived(scope, rule, last);
    }
  }

  lemma WaivedInBoth(p: seq<Property>, q: seq<Property>)
    ensures WaivedIn(p + q) == WaivedIn(p) + WaivedIn(q)
  {
    assert multiset(p + q) == multiset(p) + multiset(q);
  }

  lemma OneWaived(scope: AssessmentScope, rule: string, s: Selection)
    ensures WaivedIn(SelectionMarker(scope, rule, s)) > 0 <==>
            exists c :: c in Survivors(scope, rule, s) && Waived(scope, rule, c)
  {
  }

  lemma AnyWaivedSnoc(scope: AssessmentScope, rule: string, init: seq<Selection>, last: Selection)
    ensures AnyWaived(scope, rule, init + [last]) <==>
            AnyWaived(scope, rule, init) || exists c :: c in Survivors(scope, rule, last) && Waived(scope, rule, c)
  {
    var sels := init + [last];
    assert sels[|init|] == last;
    assert forall n :: 0 <= n < |init| ==> sels[n] == init[n];
  }

  // An activity comes out of a run with more waived markers exactly when it is waived.
  lemma WaivedMarkerAppears(scope: AssessmentScope, groups: RemarksGroups, p: PlanValue, i: nat)
    requires Returns(scope, groups, p, i)
    ensures WaivedCount(Ran(scope, groups, p, i).props) > WaivedCount(p.activities.value[i].props) <==>
            WaivedActivity(scope, p.activities.value[i])
  {
    RanWaived(scope, groups, p, i);
    var a := p.activities.value[i];
    var b := TwoPasses(scope, a).value;
    if a.relatedControls.Some? {
      var sels := a.relatedControls.value;
      OutOfScopeNotWaived(scope, sels);
      MarkCount(a.props, OutOfScopeMarkers(scope, sels));
      if a.title == "" {
        MarkersAfterPasses(scope, "", sels);
      } else {
        PropsAfterPasses(scope, a, b);
        MarkCount(a.props, SelectionMarkers(scope, a.title, sels));
        WaivedMarkers(scope, a.title, sels);
      }
    }
  }

  // A run never takes a waived marker away.
  lemma WaivedAtMost(scope: AssessmentScope, groups: RemarksGroups, p: PlanValue, i: nat)
    requires Returns(scope, groups, p, i)
    ensures WaivedCount(Ran(scope, groups, p, i).props) >= WaivedCount(p.activities.value[i].props)
  {
    RanWaived(scope, groups, p, i);
    var a := p.activities.value[i];
    if a.relatedControls.Some? {
      var sels := a.relatedControls.value;
      MarkCount(a.props, OutOfScopeMarkers(scope, sels));
      if a.title == "" {
        MarkersAfterPasses(scope, "", sels);
      } else {
        PropsAfterPasses(scope, a, TwoPasses(scope, a).value);
        MarkCount(a.props, SelectionMarkers(scope, a.title, sels));
      }
    }
  }

  // A global waiver marks the activities that keep a control through exclusions and include lists.
  lemma GloballyWaivedExactlyWhen(scope: AssessmentScope, groups: RemarksGroups, p: PlanValue, i: nat)
    requires Returns(scope, groups, p, i) && Names(scope.globalWaiveRules, p.activities.value[i].title)
    ensures var a := p.activities.value[i];
            WaivedCount(Ran(scope, groups, p, i).props) > WaivedCount(a.props) <==>
            && a.title != "" && a.relatedControls.Some?
            && (forall n :: 0 <= n < |a.relatedControls.value| ==> !NoneInScope(scope, a.relatedControls.value[n]))
            && exists n :: 0 <= n < |a.relatedControls.value| &&
                           Survivors(scope, a.title, a.relatedControls.value[n]) != {}
  {
    WaivedMarkerAppears(scope, groups, p, i);
    var a := p.activities.value[i];
    if a.relatedControls.Some? {
      forall c | c in ScopeControls(scope)
        ensures Waived(scope, a.title, c)
      {
        EntryInScope(scope.includeControls, c);
      }
      forall n | 0 <= n < |a.relatedControls.value|
        ensures Survivors(scope, a.title, a.relatedControls.value[n]) != {} <==>
                exists c :: c in Survivors(scope, a.title, a.relatedControls.value[n])
      {
      }
    }
  }

  // The promise that the parameters of waived rules are not altered, for a run without an error:
  // it is kept if and only if, for every waived activity and each of its test parameters, the first
  // surviving control that mentions the parameter gives no value or the current one.
  lemma WaivedUnalteredExactlyWhen(scope: AssessmentScope, groups: RemarksGroups, p: PlanValue)
    requires ApplyScope(scope, groups, p).Applied? && p.activities.Some?
    ensures (forall i :: 0 <= i < |p.activities.value| && WaivedActivity(scope, p.activities.value[i]) ==>
               ParametersUnaltered(p.activities.value[i], Ran(scope, groups, p, i))) <==>
            (forall i :: 0 <= i < |p.activities.value| && WaivedActivity(scope, p.activities.value[i]) ==>
               AllUndisturbed(scope, p.activities.value[i]))
  {
    forall i | 0 <= i < |p.activities.value| && WaivedActivity(scope, p.activities.value[i])
      ensures ParametersUnaltered(p.activities.value[i], Ran(scope, groups, p, i)) <==>
              AllUndisturbed(scope, p.activities.value[i])
    {
      ActivityUnalteredExactlyWhen(scope, groups, p, i);
    }
  }
}
