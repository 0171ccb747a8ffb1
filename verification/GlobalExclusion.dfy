/** A rule that is excluded globally, over whole runs: it leaves every activity, but in steps the
    controls outside the scope keep it. */
module GlobalExclusion {
  import opened Wrappers
  import opened Oscal
  import opened ComponentDefinitions
  import opened ScopeRules
  import opened ScopeTheorems
  import opened ScopeLaws

  // The global list only reaches controls that have an entry.
  lemma StaysOutOfScope(scope: AssessmentScope, rule: string, c: string)
    requires Names(scope.globalExcludeRules, rule)
    ensures Stays(scope, rule, c) <==> !InScope(scope, c)
  {
    EntryInScope(scope.includeControls, c);
  }

  ghost predicate LeavesScope(scope: AssessmentScope, s: Selection) {
    exists d :: d in s.includeControls.GetOr([]) && !InScope(scope, d)
  }

  // No include list of the step lies within the scope; nil and empty ones do.
  ghost predicate EveryListLeaves(scope: AssessmentScope, step: StepValue) {
    forall j :: 0 <= j < |step.reviewedControls.GetOr([])| ==>
      LeavesScope(scope, step.reviewedControls.GetOr([])[j])
  }

  lemma LosesUnlessOutOfScope(scope: AssessmentScope, rule: string, step: StepValue)
    requires Names(scope.globalExcludeRules, rule)
    ensures LosesSelection(scope, rule, step) <==> !EveryListLeaves(scope, step)
  {
    if step.reviewedControls.Some? {
      var sels := step.reviewedControls.value;
      assert step.reviewedControls.GetOr([]) == sels;
      forall j | 0 <= j < |sels|
        ensures NoneStays(scope, rule, sels[j]) <==> !LeavesScope(scope, sels[j])
      {
        forall d
          ensures Stays(scope, rule, d) <==> !InScope(scope, d)
        {
          StaysOutOfScope(scope, rule, d);
        }
      }
    }
  }

  lemma ExcludedStepLists(scope: AssessmentScope, rule: string, step: StepValue, c: string)
    requires Names(scope.globalExcludeRules, rule)
    ensures StepLists(RulePassStep(scope, rule, step), c) <==>
            EveryListLeaves(scope, step) && (IncludesAll(step) || (Includes(step, c) && !InScope(scope, c)))
  {
    StepListsAfter(scope, rule, step, c);
    LosesUnlessOutOfScope(scope, rule, step);
    StaysOutOfScope(scope, rule, c);
  }

  lemma ExcludedActivityListsNothing(scope: AssessmentScope, a: ActivityValue, b: ActivityValue, c: string)
    requires a.title != "" && Names(scope.globalExcludeRules, a.title)
    requires TwoPasses(scope, a) == Some(b)
    ensures !ActivityLists(b, c)
  {
    ActivityAfterPasses(scope, a);
    if a.relatedControls.Some? && a.relatedControls.value != [] {
      var sels := a.relatedControls.value;
      forall d | d in ScopeControls(scope)
        ensures !Stays(scope, a.title, d)
      {
        StaysOutOfScope(scope, a.title, d);
      }
      assert Survivors(scope, a.title, sels[0]) == {};
    }
  }

  // After a run the activity of a globally excluded rule lists no control; a step still lists one
  // exactly when every list of the step leaves the scope: then it lists those of its controls that
  // are out of scope, or all when a selection includes all.
  lemma ExcludedRuleInRun(scope: AssessmentScope, groups: RemarksGroups, p: PlanValue, i: nat, c: string)
    requires Returns(scope, groups, p, i)
    requires p.activities.value[i].title != "" && Names(scope.globalExcludeRules, p.activities.value[i].title)
    ensures !ActivityLists(Ran(scope, groups, p, i), c)
    ensures |Ran(scope, groups, p, i).steps| == |p.activities.value[i].steps|
    ensures forall k :: 0 <= k < |p.activities.value[i].steps| ==>
              var step := p.activities.value[i].steps[k];
              (StepLists(Ran(scope, groups, p, i).steps[k], c) <==>
               EveryListLeaves(scope, step) && (IncludesAll(step) || (Includes(step, c) && !InScope(scope, c))))
  {
    var a := p.activities.value[i];
    RanByPasses(scope, groups, p, i);
    ExcludedActivityListsNothing(scope, a, TwoPasses(scope, a).value, c);
    RanSteps(scope, groups, p, i);
    forall k | 0 <= k < |a.steps|
      ensures StepLists(Ran(scope, groups, p, i).steps[k], c) <==>
              EveryListLeaves(scope, a.steps[k]) &&
              (IncludesAll(a.steps[k]) || (Includes(a.steps[k], c) && !InScope(scope, c)))
    {
      RanStep(scope, groups, p, i, k);
      ExcludedStepLists(scope, a.title, a.steps[k], c);
    }
  }

  // No selection of the activity or of its steps lists a control.
  ghost predicate ExcludedForAll(a: ActivityValue) {
    (forall c :: !ActivityLists(a, c)) && forall k, c :: 0 <= k < |a.steps| ==> !StepLists(a.steps[k], c)
  }

  ghost predicate NoSelections(step: StepValue) {
    step.reviewedControls.GetOr([]) == []
  }

  ghost predicate StepFreed(scope: AssessmentScope, step: StepValue) {
    NoSelections(step) || !EveryListLeaves(scope, step)
  }

  lemma StepListsSomething(scope: AssessmentScope, groups: RemarksGroups, p: PlanValue, i: nat, k: nat)
    requires Returns(scope, groups, p, i) && k < |p.activities.value[i].steps|
    requires p.activities.value[i].title != "" && Names(scope.globalExcludeRules, p.activities.value[i].title)
    ensures k < |Ran(scope, groups, p, i).steps|
    ensures (exists c :: StepLists(Ran(scope, groups, p, i).steps[k], c)) <==>
            !StepFreed(scope, p.activities.value[i].steps[k])
  {
    var step := p.activities.value[i].steps[k];
    RanSteps(scope, groups, p, i);
    forall c
      ensures StepLists(Ran(scope, groups, p, i).steps[k], c) ==> !StepFreed(scope, step)
    {
      ExcludedRuleInRun(scope, groups, p, i, c);
    }
    if !StepFreed(scope, step) {
      var first := step.reviewedControls.GetOr([])[0];
      assert LeavesScope(scope, first);
      var d :| d in first.includeControls.GetOr([]) && !InScope(scope, d);
      assert Includes(step, d);
      ExcludedRuleInRun(scope, groups, p, i, d);
    }
  }

  // The promise that a globally excluded rule is excluded for all controls is kept if and only if
  // each step of its activity has no selection at all, or one whose list lies within the scope.
  lemma ExcludedForAllExactlyWhen(scope: AssessmentScope, groups: RemarksGroups, p: PlanValue, i: nat)
    requires Returns(scope, groups, p, i)
    requires p.activities.value[i].title != "" && Names(scope.globalExcludeRules, p.activities.value[i].title)
    ensures ExcludedForAll(Ran(scope, groups, p, i)) <==>
            forall k :: 0 <= k < |p.activities.value[i].steps| ==> StepFreed(scope, p.activities.value[i].steps[k])
  {
    RanSteps(scope, groups, p, i);
    forall k | 0 <= k < |p.activities.value[i].steps|
      ensures (exists c :: StepLists(Ran(scope, groups, p, i).steps[k], c)) <==>
              !StepFreed(scope, p.activities.value[i].steps[k])
    {
      StepListsSomething(scope, groups, p, i, k);
    }
    forall c
      ensures !ActivityLists(Ran(scope, groups, p, i), c)
    {
      ExcludedRuleInRun(scope, groups, p, i, c);
    }
  }
}
