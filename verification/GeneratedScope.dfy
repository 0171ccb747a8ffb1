/** The generated scope composed with the control and rule passes: when they leave a plan as it is. */
module GeneratedScope {
  import opened Wrappers
  import opened Ordering
  import opened Oscal
  import opened ComponentDefinitions
  import opened ScopeRules
  import opened ScopeTheorems
  import opened ScopeLaws
  import opened DefaultSettings
  import opened ScopeGenerator

  // The controls that are implemented for the framework.
  ghost function FrameworkControls(cds: seq<ComponentDefinition>, framework: string): (r: set<string>)
    ensures forall c :: c in r <==> Implemented(AllImplementations(cds), framework, c)
  {
    set ci, ir | ci in AllImplementations(cds) && ir in ci.implementedRequirements &&
                 Requires(ci, framework, ir.controlId) :: ir.controlId
  }

  lemma GeneratedScopeControls(scope: AssessmentScope, framework: string, cds: seq<ComponentDefinition>)
    requires Generated(scope, framework, cds)
    ensures ScopeControls(scope) == FrameworkControls(cds, framework)
  {
    forall c
      ensures c in ScopeControls(scope) <==> c in Ids(scope.includeControls)
    {
    }
  }

  lemma {:induction false} LastEntryIn(entries: seq<ControlEntry>, c: string)
    ensures EntryOf(entries, c).Some? ==> EntryOf(entries, c).value in entries
  {
    if entries != [] {
      assert entries == entries[..|entries| - 1] + [entries[|entries| - 1]];
      LastEntryIn(entries[..|entries| - 1], c);
    }
  }

  // The generated scope excludes and waives nothing.
  lemma GeneratedKeepsRules(scope: AssessmentScope, framework: string, cds: seq<ComponentDefinition>,
                            rule: string, c: string)
    requires Generated(scope, framework, cds)
    ensures Stays(scope, rule, c) && !Waived(scope, rule, c)
  {
    LastEntryIn(scope.includeControls, c);
  }

  // ----- What a selection means, and that it keeps its meaning -----

  // "All" means all the controls of the framework.
  ghost function Meant(s: Selection, implemented: set<string>): set<string> {
    if s.includeAll then implemented else Elements(s.includeControls.GetOr([]))
  }

  // The selection lists at least one control, and only implemented ones.
  ghost predicate Sound(s: Selection, implemented: set<string>) {
    Meant(s, implemented) != {} && Meant(s, implemented) <= implemented
  }

  ghost predicate AllSound(sels: seq<Selection>, implemented: set<string>) {
    forall i :: 0 <= i < |sels| ==> Sound(sels[i], implemented)
  }

  ghost predicate SameSelection(before: Selection, after: Selection, implemented: set<string>) {
    !after.includeAll && after.includeControls.Some? &&
    Elements(after.includeControls.value) == Meant(before, implemented)
  }

  ghost predicate SameControls(before: seq<Selection>, after: seq<Selection>, implemented: set<string>) {
    |after| == |before| && forall i :: 0 <= i < |before| ==> SameSelection(before[i], after[i], implemented)
  }

  // Restricting a selection keeps what it means if and only if it is sound.
  lemma RestrictSound(s: Selection, implemented: set<string>)
    ensures SameSelection(s, Restrict(s, implemented), implemented) <==> Sound(s, implemented)
    ensures Sound(s, implemented) ==> !Empty(Restrict(s, implemented))
  {
    var left := set c | c in implemented && Lists(s, c);
    if Meant(s, implemented) <= implemented {
      assert left == Meant(s, implemented);
    } else if left != {} {
      assert Elements(Restrict(s, implemented).includeControls.value) == left;
      assert left <= implemented;
    }
  }

  lemma RestrictAllSound(sels: seq<Selection>, implemented: set<string>)
    ensures SameControls(sels, RestrictAll(sels, implemented), implemented) <==> AllSound(sels, implemented)
    ensures AllSound(sels, implemented) ==> !AnyEmpty(RestrictAll(sels, implemented))
  {
    forall i | 0 <= i < |sels|
      ensures SameSelection(sels[i], RestrictAll(sels, implemented)[i], implemented) <==> Sound(sels[i], implemented)
      ensures Sound(sels[i], implemented) ==> !Empty(RestrictAll(sels, implemented)[i])
    {
      RestrictSound(sels[i], implemented);
    }
  }

  // ----- What the passes do to one activity -----

  // Every selection of the step has a non-empty include list.
  ghost predicate StepSound(s: StepValue) {
    forall j :: 0 <= j < |s.reviewedControls.GetOr([])| ==>
      s.reviewedControls.GetOr([])[j].includeControls.GetOr([]) != []
  }

  // Activities without a title keep their steps whatever these are.
  ghost predicate ActivitySound(a: ActivityValue, implemented: set<string>) {
    && AllSound(a.relatedControls.GetOr([]), implemented)
    && (a.title != "" ==> forall k :: 0 <= k < |a.steps| ==> StepSound(a.steps[k]))
  }

  // The rule pass leaves selections that list a control alone, and marks nothing.
  lemma RulesKeepSelections(scope: AssessmentScope, framework: string, cds: seq<ComponentDefinition>,
                            rule: string, sels: seq<Selection>)
    requires Generated(scope, framework, cds)
    requires forall i :: 0 <= i < |sels| ==> sels[i].includeControls.Some? && sels[i].includeControls.value != []
    ensures ApplyRuleAll(scope, rule, sels) == sels
    ensures RuleMarkers(scope, rule, sels) == [] && !AnyEmpty(sels)
  {
    forall i | 0 <= i < |sels|
      ensures ApplyRule(scope, rule, sels[i]) == sels[i]
    {
      var ids := sels[i].includeControls.value;
      forall c | c in ids
        ensures Stays(scope, rule, c)
      {
        GeneratedKeepsRules(scope, framework, cds, rule, c);
      }
      KeptAll(scope, rule, ids);
    }
    NoRuleMarkers(scope, framework, cds, rule, sels);
  }

  lemma {:induction false} NoRuleMarkers(scope: AssessmentScope, framework: string, cds: seq<ComponentDefinition>,
                                         rule: string, sels: seq<Selection>)
    requires Generated(scope, framework, cds)
    requires forall i :: 0 <= i < |sels| ==> sels[i].includeControls.Some?
    ensures RuleMarkers(scope, rule, sels) == []
  {
    if sels != [] {
      var last := sels[|sels| - 1];
      forall c | c in last.includeControls.value
        ensures !Waived(scope, rule, c)
      {
        GeneratedKeepsRules(scope, framework, cds, rule, c);
      }
      NoRuleMarkers(scope, framework, cds, rule, sels[..|sels| - 1]);
    }
  }

  // A step keeps its selections if and only if each of them has a non-empty include list; being
  // marked include-all does not help.
  lemma StepKeptExactlyWhen(scope: AssessmentScope, framework: string, cds: seq<ComponentDefinition>,
                            rule: string, s: StepValue)
    requires Generated(scope, framework, cds)
    ensures RulePassStep(scope, rule, s).reviewedControls == s.reviewedControls <==> StepSound(s)
    ensures StepSound(s) ==> RulePassStep(scope, rule, s) == s
    ensures StepEmptied(scope, rule, s) <==> !StepSound(s)
  {
    if s.reviewedControls.Some? {
      var sels := s.reviewedControls.value;
      assert s.reviewedControls.GetOr([]) == sels;
      if StepSound(s) {
        RulesKeepSelections(scope, framework, cds, rule, sels);
      } else {
        var j :| 0 <= j < |sels| && sels[j].includeControls.GetOr([]) == [];
        assert NoneStays(scope, rule, sels[j]);
        StepEmptiedMeaning(scope, rule, s);
      }
    }
  }

  lemma StepsKeptExactlyWhen(scope: AssessmentScope, framework: string, cds: seq<ComponentDefinition>,
                             rule: string, steps: seq<StepValue>)
    requires Generated(scope, framework, cds)
    ensures RulePassSteps(scope, rule, steps) == steps <==> forall k :: 0 <= k < |steps| ==> StepSound(steps[k])
    ensures (forall k :: 0 <= k < |steps| ==> StepSound(steps[k])) <==> !AnyStepEmptied(scope, rule, steps)
  {
    forall k | 0 <= k < |steps|
      ensures RulePassStep(scope, rule, steps[k]) == steps[k] <==> StepSound(steps[k])
      ensures StepEmptied(scope, rule, steps[k]) <==> !StepSound(steps[k])
    {
      StepKeptExactlyWhen(scope, framework, cds, rule, steps[k]);
    }
  }

  // The same controls in every selection, the same steps, no marker.
  ghost predicate ActivityUntouched(a: ActivityValue, b: ActivityValue, implemented: set<string>) {
    && b == a.(relatedControls := b.relatedControls)
    && (b.relatedControls.None? <==> a.relatedControls.None?)
    && SameControls(a.relatedControls.GetOr([]), b.relatedControls.GetOr([]), implemented)
  }

  lemma SoundUntouched(scope: AssessmentScope, framework: string, cds: seq<ComponentDefinition>, a: ActivityValue)
    requires Generated(scope, framework, cds) && ActivitySound(a, ScopeControls(scope))
    ensures TwoPasses(scope, a).Some? && ActivityUntouched(a, TwoPasses(scope, a).value, ScopeControls(scope))
  {
    var inScope := ScopeControls(scope);
    StepsKeptExactlyWhen(scope, framework, cds, a.title, a.steps);
    if a.relatedControls.Some? {
      var sels := a.relatedControls.value;
      assert a.relatedControls.GetOr([]) == sels;
      RestrictAllSound(sels, inScope);
      var after := RestrictAll(sels, inScope);
      NoControlMarkers(after);
      forall i | 0 <= i < |after|
        ensures after[i].includeControls.Some? && after[i].includeControls.value != []
      {
        assert SameSelection(sels[i], after[i], inScope) && Sound(sels[i], inScope);
        assert Elements([]) == {};
      }
      RulesKeepSelections(scope, framework, cds, a.title, after);
    }
  }

  // Under the generated scope the rule pass removes no control from an activity's selections.
  lemma RulesKeepRelated(scope: AssessmentScope, framework: string, cds: seq<ComponentDefinition>, rule: string,
                         sels: seq<Selection>)
    requires Generated(scope, framework, cds) && !AnyEmpty(RestrictAll(sels, ScopeControls(scope)))
    ensures AfterAll(scope, rule, sels) == RestrictAll(sels, ScopeControls(scope))
  {
    var after := RestrictAll(sels, ScopeControls(scope));
    forall i | 0 <= i < |after|
      ensures after[i].includeControls.Some? && after[i].includeControls.value != []
    {
      var left := set c | c in ScopeControls(scope) && Lists(sels[i], c);
      assert !Empty(after[i]);
      assert Elements(after[i].includeControls.value) == left;
      assert Elements([]) == {};
    }
    RulesKeepSelections(scope, framework, cds, rule, after);
  }

  lemma UntouchedRelatedSound(scope: AssessmentScope, framework: string, cds: seq<ComponentDefinition>,
                              a: ActivityValue, b: ActivityValue)
    requires Generated(scope, framework, cds) && TwoPasses(scope, a) == Some(b)
    requires ActivityUntouched(a, b, ScopeControls(scope)) && a.relatedControls.Some?
    requires a.title != "" ==> !AnyStepEmptied(scope, a.title, a.steps)
    ensures AllSound(a.relatedControls.value, ScopeControls(scope))
  {
    var sels, inScope := a.relatedControls.value, ScopeControls(scope);
    RestrictAllSound(sels, inScope);
    if a.title == "" {
      assert b.relatedControls == Remaining(RestrictAll(sels, inScope));
    } else {
      ActivityAfterPasses(scope, a);
      AnyEmptyAfter(scope, a.title, sels);
      RulesKeepRelated(scope, framework, cds, a.title, sels);
    }
    assert b.relatedControls == Some(RestrictAll(sels, inScope));
  }

  lemma UntouchedSound(scope: AssessmentScope, framework: string, cds: seq<ComponentDefinition>,
                       a: ActivityValue, b: ActivityValue)
    requires Generated(scope, framework, cds) && TwoPasses(scope, a) == Some(b)
    requires ActivityUntouched(a, b, ScopeControls(scope))
    ensures ActivitySound(a, ScopeControls(scope))
  {
    if a.title != "" {
      ActivityAfterPasses(scope, a);
      StepsKeptExactlyWhen(scope, framework, cds, a.title, a.steps);
    }
    if a.relatedControls.Some? {
      UntouchedRelatedSound(scope, framework, cds, a, b);
      assert a.relatedControls.GetOr([]) == a.relatedControls.value;
    }
  }

  // One activity: neither does the run panic on it nor does it touch the activity, if and only if
  // the activity is sound.
  lemma ActivityUnscoped(scope: AssessmentScope, framework: string, cds: seq<ComponentDefinition>, a: ActivityValue)
    requires Generated(scope, framework, cds)
    ensures (TwoPasses(scope, a).Some? &&
             ActivityUntouched(a, TwoPasses(scope, a).value, FrameworkControls(cds, framework))) <==>
            ActivitySound(a, FrameworkControls(cds, framework))
  {
    GeneratedScopeControls(scope, framework, cds);
    if ActivitySound(a, ScopeControls(scope)) {
      SoundUntouched(scope, framework, cds, a);
    } else if TwoPasses(scope, a).Some? && ActivityUntouched(a, TwoPasses(scope, a).value, ScopeControls(scope)) {
      UntouchedSound(scope, framework, cds, a, TwoPasses(scope, a).value);
    }
  }

  // ----- The whole plan -----

  // The related and reviewed selections of the plan list some control, all of them implemented, or
  // include all when there is one; selections of titled activities' steps list some control.
  ghost predicate PlanSound(p: PlanValue, implemented: set<string>) {
    && AllSound(p.reviewedControls, implemented)
    && (p.activities.Some? ==>
          forall i :: 0 <= i < |p.activities.value| ==> ActivitySound(p.activities.value[i], implemented))
  }

  ghost predicate PlanUntouched(p: PlanValue, q: PlanValue, implemented: set<string>) {
    && SameControls(p.reviewedControls, q.reviewedControls, implemented)
    && (q.activities.None? <==> p.activities.None?)
    && (p.activities.Some? ==>
          |q.activities.value| == |p.activities.value| &&
          forall i :: 0 <= i < |p.activities.value| ==>
            ActivityUntouched(p.activities.value[i], q.activities.value[i], implemented))
  }

  // Before parameters are written: the generated scope changes no set of controls, drops no related
  // controls, adds no marker and causes no panic, if and only if the plan is sound.
  lemma GeneratedScopeIsNoOp(scope: AssessmentScope, framework: string, cds: seq<ComponentDefinition>, p: PlanValue)
    requires Generated(scope, framework, cds)
    ensures (!RulePassFails(scope, ControlPass(scope, p)) &&
             PlanUntouched(p, RulePass(scope, ControlPass(scope, p)), FrameworkControls(cds, framework))) <==>
            PlanSound(p, FrameworkControls(cds, framework))
  {
    GeneratedScopeControls(scope, framework, cds);
    RestrictAllSound(p.reviewedControls, ScopeControls(scope));
    if p.activities.Some? {
      var acts := p.activities.value;
      var passed := ControlPassAll(acts, ScopeControls(scope));
      forall i | 0 <= i < |acts|
        ensures RulePassActivity(scope, passed[i]) == TwoPasses(scope, acts[i])
        ensures (TwoPasses(scope, acts[i]).Some? &&
                 ActivityUntouched(acts[i], TwoPasses(scope, acts[i]).value, ScopeControls(scope))) <==>
                ActivitySound(acts[i], ScopeControls(scope))
      {
        ActivityUnscoped(scope, framework, cds, acts[i]);
      }
    }
  }
}
