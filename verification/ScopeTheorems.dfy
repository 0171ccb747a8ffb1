/** What the control and rule passes leave of a plan, in closed form: which controls stay,
    which markers appear, and when a run panics. */
module ScopeTheorems {
  import opened Wrappers
  import opened Ordering
  import opened Oscal
  import opened ComponentDefinitions
  import opened ScopeRules
  import opened RuleEngine

  // ----- Which controls stay in a selection -----

  lemma {:induction false} EntryInScope(entries: seq<ControlEntry>, control: string)
    ensures EntryOf(entries, control).Some? <==> exists e :: e in entries && e.controlId == control
    ensures EntryOf(entries, control).Some? ==> EntryOf(entries, control).value.controlId == control
  {
    if entries != [] {
      assert entries == entries[..|entries| - 1] + [entries[|entries| - 1]];
      EntryInScope(entries[..|entries| - 1], control);
    }
  }

  // The controls that stay in a selection of an activity titled rule.
  ghost function Survivors(scope: AssessmentScope, rule: string, s: Selection): set<string> {
    set c | c in ScopeControls(scope) && Lists(s, c) && Stays(scope, rule, c)
  }

  // The rule, spelled out: the control was listed, has an entry, and its last entry together
  // with the global list neither excludes the rule nor leaves it out of a non-empty include list.
  lemma SurvivorsMeaning(scope: AssessmentScope, rule: string, s: Selection, c: string)
    ensures c in Survivors(scope, rule, s) <==>
            && Lists(s, c)
            && EntryOf(scope.includeControls, c).Some?
            && var e := EntryOf(scope.includeControls, c).value;
               && rule !in scope.globalExcludeRules && WILDCARD !in scope.globalExcludeRules
               && rule !in e.excludeRules && WILDCARD !in e.excludeRules
               && (e.includeRules == [] || WILDCARD in e.includeRules || rule in e.includeRules)
  {
    EntryInScope(scope.includeControls, c);
  }

  lemma {:induction false} KeptAscending(scope: AssessmentScope, rule: string, ids: seq<string>)
    requires StrictlyAscending(ids)
    ensures StrictlyAscending(Kept(scope, rule, ids))
  {
    if ids != [] {
      var init, last := ids[..|ids| - 1], ids[|ids| - 1];
      KeptAscending(scope, rule, init);
      KeptMembers(scope, rule, init);
      var kept := Kept(scope, rule, init);
      forall i | 0 <= i < |kept|
        ensures Less(kept[i], last)
      {
        assert kept[i] in init;
      }
    }
  }

  // Both passes over one selection: the sorted list of the survivors, nil when there is none.
  lemma SelectionAfterPasses(scope: AssessmentScope, rule: string, s: Selection)
    ensures ApplyRule(scope, rule, Restrict(s, ScopeControls(scope))) ==
            var left := Survivors(scope, rule, s);
            s.(includeAll := false, includeControls := if left == {} then None else Some(Ascending(left)))
  {
    var r := Restrict(s, ScopeControls(scope));
    var left := Survivors(scope, rule, s);
    if Empty(r) {
      assert left == {};
    } else {
      var kept := Kept(scope, rule, r.includeControls.value);
      KeptMembers(scope, rule, r.includeControls.value);
      KeptAscending(scope, rule, r.includeControls.value);
      assert Elements(kept) == left;
      AscendingUnique(kept, Ascending(left));
      assert kept == [] <==> left == {} by {
        assert kept == [] || kept[0] in Elements(kept);
      }
    }
  }

  // ----- Both passes over an activity -----

  ghost function TwoPasses(scope: AssessmentScope, a: ActivityValue): Option<ActivityValue> {
    RulePassActivity(scope, ControlPassActivity(a, ScopeControls(scope)))
  }

  ghost function After(scope: AssessmentScope, rule: string, s: Selection): Selection {
    ApplyRule(scope, rule, Restrict(s, ScopeControls(scope)))
  }

  ghost function AfterAll(scope: AssessmentScope, rule: string, sels: seq<Selection>): (r: seq<Selection>)
    ensures |r| == |sels|
    ensures forall i :: 0 <= i < |sels| ==> r[i] == After(scope, rule, sels[i])
  {
    ApplyRuleAll(scope, rule, RestrictAll(sels, ScopeControls(scope)))
  }

  ghost predicate NoneInScope(scope: AssessmentScope, s: Selection) {
    forall c :: c in ScopeControls(scope) ==> !Lists(s, c)
  }

  ghost predicate EveryLeft(scope: AssessmentScope, rule: string, sels: seq<Selection>) {
    forall i :: 0 <= i < |sels| ==> Survivors(scope, rule, sels[i]) != {}
  }

  lemma EmptyRestriction(scope: AssessmentScope, s: Selection)
    ensures Empty(Restrict(s, ScopeControls(scope))) <==> NoneInScope(scope, s)
  {
    var left := set c | c in ScopeControls(scope) && Lists(s, c);
    if left == {} {
      forall c | c in ScopeControls(scope)
        ensures !Lists(s, c)
      {
        assert c !in left;
      }
    }
  }

  lemma AnyEmptyAfter(scope: AssessmentScope, rule: string, sels: seq<Selection>)
    ensures AnyEmpty(AfterAll(scope, rule, sels)) <==> !EveryLeft(scope, rule, sels)
    ensures AnyEmpty(RestrictAll(sels, ScopeControls(scope))) <==>
            exists i :: 0 <= i < |sels| && NoneInScope(scope, sels[i])
    ensures AnyEmpty(RestrictAll(sels, ScopeControls(scope))) ==> AnyEmpty(AfterAll(scope, rule, sels))
  {
    forall i | 0 <= i < |sels|
      ensures Empty(AfterAll(scope, rule, sels)[i]) <==> Survivors(scope, rule, sels[i]) == {}
    {
      SelectionAfterPasses(scope, rule, sels[i]);
    }
    var restricted := RestrictAll(sels, ScopeControls(scope));
    forall i | 0 <= i < |sels|
      ensures Empty(restricted[i]) <==> NoneInScope(scope, sels[i])
      ensures Empty(restricted[i]) ==> Empty(AfterAll(scope, rule, sels)[i])
    {
      EmptyRestriction(scope, sels[i]);
    }
    if AnyEmpty(restricted) {
      var i :| 0 <= i < |sels| && Empty(restricted[i]);
      assert Empty(AfterAll(scope, rule, sels)[i]);
    }
  }

  // The related controls: all selections with their survivors, or none if one lost everything.
  lemma RelatedAfterPasses(scope: AssessmentScope, a: ActivityValue, sels: seq<Selection>)
    requires a.title != "" && a.relatedControls == Some(sels)
    ensures var own := RulePassRelated(scope, ControlPassActivity(a, ScopeControls(scope)));
            && own.relatedControls ==
               (if EveryLeft(scope, a.title, sels) then Some(AfterAll(scope, a.title, sels)) else None)
            && own.steps == a.steps
  {
    AnyEmptyAfter(scope, a.title, sels);
  }

  ghost predicate NoneStays(scope: AssessmentScope, rule: string, s: Selection) {
    forall c :: c in s.includeControls.GetOr([]) ==> !Stays(scope, rule, c)
  }

  ghost predicate LosesSelection(scope: AssessmentScope, rule: string, s: StepValue) {
    s.reviewedControls.Some? &&
    exists j :: 0 <= j < |s.reviewedControls.value| && NoneStays(scope, rule, s.reviewedControls.value[j])
  }

  // A step is emptied when the include list of one of its selections, nil counted as empty, holds
  // no control for which the rule stays; marking the selection include-all does not prevent it.
  lemma StepEmptiedMeaning(scope: AssessmentScope, rule: string, s: StepValue)
    ensures StepEmptied(scope, rule, s) <==> LosesSelection(scope, rule, s)
  {
    if s.reviewedControls.Some? {
      var sels := s.reviewedControls.value;
      forall j | 0 <= j < |sels|
        ensures Empty(ApplyRuleAll(scope, rule, sels)[j]) <==> NoneStays(scope, rule, sels[j])
      {
        if sels[j].includeControls.Some? {
          var ids := sels[j].includeControls.value;
          KeptMembers(scope, rule, ids);
          assert Kept(scope, rule, ids) == [] || Kept(scope, rule, ids)[0] in ids;
        }
      }
    }
  }

  // ----- A step after the rule pass -----

  ghost function StepMarker(scope: AssessmentScope, rule: string, s: Selection): seq<Property> {
    if NoneStays(scope, rule, s) then [SKIPPED]
    else if exists c :: c in s.includeControls.GetOr([]) && Stays(scope, rule, c) && Waived(scope, rule,
        c) then [WAIVED]
    else []
  }

  ghost function StepMarkers(scope: AssessmentScope, rule: string, sels: seq<Selection>): seq<Property> {
    if sels == [] then [] else
      StepMarkers(scope, rule, sels[..|sels| - 1]) + StepMarker(scope, rule, sels[|sels| - 1])
  }

  lemma StepSelectionAfterRules(scope: AssessmentScope, rule: string, s: Selection)
    ensures var after := ApplyRule(scope, rule, s);
            && (Empty(after) <==> NoneStays(scope, rule, s))
            && (forall c :: c in after.includeControls.GetOr([]) <==>
                  c in s.includeControls.GetOr([]) && Stays(scope, rule, c))
            && after == s.(includeControls := after.includeControls)
            && RuleMarker(scope, rule, after) == StepMarker(scope, rule, s)
  {
    if s.includeControls.Some? {
      var ids := s.includeControls.value;
      KeptMembers(scope, rule, ids);
      assert Kept(scope, rule, ids) == [] || Kept(scope, rule, ids)[0] in ids;
    }
  }

  lemma {:induction false} StepMarkersAfterRules(scope: AssessmentScope, rule: string, sels: seq<Selection>)
    ensures RuleMarkers(scope, rule, ApplyRuleAll(scope, rule, sels)) == StepMarkers(scope, rule, sels)
  {
    if sels != [] {
      var init, last := sels[..|sels| - 1], sels[|sels| - 1];
      StepMarkersAfterRules(scope, rule, init);
      StepSelectionAfterRules(scope, rule, last);
      assert ApplyRuleAll(scope, rule, sels)[..|sels| - 1] == ApplyRuleAll(scope, rule, init);
    }
  }

  // A step loses all its selections when one of them keeps no control; otherwise each keeps
  // exactly the listed controls for which the rule stays. One marker per selection, at most.
  lemma StepAfterRules(scope: AssessmentScope, rule: string, s: StepValue)
    requires s.reviewedControls.Some?
    ensures var sels := s.reviewedControls.value;
            var after := RulePassStep(scope, rule, s);
            && (after.reviewedControls.None? <==> LosesSelection(scope, rule, s))
            && (after.reviewedControls.Some? ==>
                  |after.reviewedControls.value| == |sels| &&
                  forall j, c :: 0 <= j < |sels| ==>
                    (c in after.reviewedControls.value[j].includeControls.GetOr([]) <==>
                     c in sels[j].includeControls.GetOr([]) && Stays(scope, rule, c)))
            && after.props == Mark(s.props, StepMarkers(scope, rule, sels))
  {
    var sels := s.reviewedControls.value;
    StepEmptiedMeaning(scope, rule, s);
    StepMarkersAfterRules(scope, rule, sels);
    forall j | 0 <= j < |sels|
      ensures forall c :: c in ApplyRuleAll(scope, rule, sels)[j].includeControls.GetOr([]) <==>
                c in sels[j].includeControls.GetOr([]) && Stays(scope, rule, c)
    {
      StepSelectionAfterRules(scope, rule, sels[j]);
    }
  }

  ghost predicate StepLists(s: StepValue, c: string) {
    s.reviewedControls.Some? && exists j :: 0 <= j < |s.reviewedControls.value| && Lists(s.reviewedControls.value[j], c)
  }

  ghost predicate IncludesAll(s: StepValue) {
    exists j :: 0 <= j < |s.reviewedControls.GetOr([])| && s.reviewedControls.GetOr([])[j].includeAll
  }

  // Some include list of the step has the control.
  ghost predicate Includes(s: StepValue, c: string) {
    exists j :: 0 <= j < |s.reviewedControls.GetOr([])| &&
                c in s.reviewedControls.GetOr([])[j].includeControls.GetOr([])
  }

  // What a step lists after the rule pass, which leaves include-all as it is.
  lemma StepListsAfter(scope: AssessmentScope, rule: string, step: StepValue, c: string)
    ensures StepLists(RulePassStep(scope, rule, step), c) <==>
            !LosesSelection(scope, rule, step) && (IncludesAll(step) || (Includes(step, c) && Stays(scope, rule, c)))
  {
    StepEmptiedMeaning(scope, rule, step);
    if step.reviewedControls.Some? {
      var sels := step.reviewedControls.value;
      assert step.reviewedControls.GetOr([]) == sels;
      forall j | 0 <= j < |sels|
        ensures Lists(ApplyRuleAll(scope, rule, sels)[j], c) <==>
                sels[j].includeAll || (c in sels[j].includeControls.GetOr([]) && Stays(scope, rule, c))
      {
        StepSelectionAfterRules(scope, rule, sels[j]);
      }
    }
  }

  // The declarative form of the two passes. The activity's related controls are what survives
  // of every selection; they are nil when a selection lost everything, an empty list when a
  // step lost everything, and the run panics when both happen.
  lemma ActivityAfterPasses(scope: AssessmentScope, a: ActivityValue)
    requires a.title != ""
    ensures var left := a.relatedControls.Some? && EveryLeft(scope, a.title, a.relatedControls.value);
            var emptied := AnyStepEmptied(scope, a.title, a.steps);
            && (TwoPasses(scope, a).None? <==> emptied && !left)
            && (TwoPasses(scope, a).Some? ==>
                  && TwoPasses(scope, a).value.relatedControls ==
                     (if !left then None
                      else if emptied then Some([])
                      else Some(AfterAll(scope, a.title, a.relatedControls.value)))
                  && TwoPasses(scope, a).value.steps == RulePassSteps(scope, a.title, a.steps))
  {
    if a.relatedControls.Some? {
      RelatedAfterPasses(scope, a, a.relatedControls.value);
    }
  }

  ghost predicate ActivityLists(a: ActivityValue, c: string) {
    a.relatedControls.Some? && exists i :: 0 <= i < |a.relatedControls.value| && Lists(a.relatedControls.value[i], c)
  }

  // Single-selection activities, the common case: a control stays exactly when it survives.
  lemma SingleSelection(scope: AssessmentScope, a: ActivityValue, s: Selection, b: ActivityValue, c: string)
    requires a.title != "" && a.relatedControls == Some([s])
    requires TwoPasses(scope, a) == Some(b) && !AnyStepEmptied(scope, a.title, a.steps)
    ensures ActivityLists(b, c) <==> c in Survivors(scope, a.title, s)
    ensures b.relatedControls.Some? ==>
              b.relatedControls.value[0].includeControls == Some(Ascending(Survivors(scope, a.title, s)))
  {
    ActivityAfterPasses(scope, a);
    SelectionAfterPasses(scope, a.title, s);
    assert EveryLeft(scope, a.title, [s]) <==> Survivors(scope, a.title, s) != {};
    if b.relatedControls.Some? {
      assert b.relatedControls.value[0] == After(scope, a.title, s);
    }
  }

  // ----- Which markers appear -----

  ghost function SelectionMarker(scope: AssessmentScope, rule: string, s: Selection): seq<Property> {
    if Survivors(scope, rule, s) == {} then [SKIPPED]
    else if exists c :: c in Survivors(scope, rule, s) && Waived(scope, rule, c) then [WAIVED]
    else []
  }

  ghost function SelectionMarkers(scope: AssessmentScope, rule: string, sels: seq<Selection>): seq<Property> {
    if sels == [] then [] else
      SelectionMarkers(scope, rule, sels[..|sels| - 1]) + SelectionMarker(scope, rule, sels[|sels| - 1])
  }

  ghost function OutOfScopeMarkers(scope: AssessmentScope, sels: seq<Selection>): seq<Property> {
    if sels == [] then [] else
      OutOfScopeMarkers(scope, sels[..|sels| - 1]) + (if NoneInScope(scope, sels[|sels| - 1]) then [SKIPPED] else [])
  }

  // A selection is skipped, waived or unmarked, never two of these; it is waived exactly when a
  // surviving control's rule is waived globally or by its entry, with the lists as configured.
  lemma MarkerAfterPasses(scope: AssessmentScope, rule: string, s: Selection)
    ensures RuleMarker(scope, rule, After(scope, rule, s)) == SelectionMarker(scope, rule, s)
  {
    SelectionAfterPasses(scope, rule, s);
    var left := Survivors(scope, rule, s);
    if left != {} {
      var ids := Ascending(left);
      assert forall c :: c in ids <==> c in left;
    }
  }

  lemma {:induction false} MarkersAfterPasses(scope: AssessmentScope, rule: string, sels: seq<Selection>)
    ensures RuleMarkers(scope, rule, AfterAll(scope, rule, sels)) == SelectionMarkers(scope, rule, sels)
    ensures ControlMarkers(RestrictAll(sels, ScopeControls(scope))) == OutOfScopeMarkers(scope, sels)
  {
    if sels != [] {
      var init, last := sels[..|sels| - 1], sels[|sels| - 1];
      MarkersAfterPasses(scope, rule, init);
      MarkerAfterPasses(scope, rule, last);
      EmptyRestriction(scope, last);
      var after, restricted := AfterAll(scope, rule, sels), RestrictAll(sels, ScopeControls(scope));
      assert after[..|sels| - 1] == AfterAll(scope, rule, init);
      assert restricted[..|sels| - 1] == RestrictAll(init, ScopeControls(scope));
    }
  }

  // The markers of an activity: only skipped ones when some selection is out of scope as a
  // whole; otherwise one decision per selection.
  lemma PropsAfterPasses(scope: AssessmentScope, a: ActivityValue, b: ActivityValue)
    requires a.title != "" && TwoPasses(scope, a) == Some(b)
    ensures b.props ==
            match a.relatedControls
            case None => a.props
            case Some(sels) =>
              Mark(a.props,
                   if exists i :: 0 <= i < |sels| && NoneInScope(scope, sels[i]) then OutOfScopeMarkers(scope, sels)
                   else SelectionMarkers(scope, a.title, sels))
  {
    if a.relatedControls.Some? {
      var sels := a.relatedControls.value;
      AnyEmptyAfter(scope, a.title, sels);
      MarkersAfterPasses(scope, a.title, sels);
      var restricted := RestrictAll(sels, ScopeControls(scope));
      if !AnyEmpty(restricted) {
        NoControlMarkers(restricted);
      }
    }
  }

  lemma {:induction false} NoControlMarkers(sels: seq<Selection>)
    requires !AnyEmpty(sels)
    ensures ControlMarkers(sels) == []
  {
    if sels != [] {
      assert !Empty(sels[|sels| - 1]);
      assert forall i :: 0 <= i < |sels| - 1 ==> sels[..|sels| - 1][i] == sels[i];
      NoControlMarkers(sels[..|sels| - 1]);
    }
  }

  // ----- When a run panics -----

  ghost predicate LosesStep(scope: AssessmentScope, a: ActivityValue) {
    exists k :: 0 <= k < |a.steps| && LosesSelection(scope, a.title, a.steps[k])
  }

  ghost predicate LosesRelated(scope: AssessmentScope, a: ActivityValue) {
    a.relatedControls.None? || !EveryLeft(scope, a.title, a.relatedControls.value)
  }

  lemma AnyStepEmptiedIsLosesStep(scope: AssessmentScope, a: ActivityValue)
    ensures AnyStepEmptied(scope, a.title, a.steps) <==> LosesStep(scope, a)
  {
    forall k | 0 <= k < |a.steps|
      ensures StepEmptied(scope, a.title, a.steps[k]) <==> LosesSelection(scope, a.title, a.steps[k])
    {
      StepEmptiedMeaning(scope, a.title, a.steps[k]);
    }
  }

  ghost predicate Panics(scope: AssessmentScope, a: ActivityValue) {
    a.title != "" && LosesStep(scope, a) && LosesRelated(scope, a)
  }

  // ApplyScope does not always return: it panics exactly on a titled activity that loses all
  // controls of some selection of a step while it has no related controls, or loses them too.
  lemma PanicsExactlyWhen(scope: AssessmentScope, groups: RemarksGroups, p: PlanValue)
    ensures ApplyScope(scope, groups, p) == NilDereference <==>
            p.activities.Some? && exists i :: 0 <= i < |p.activities.value| && Panics(scope, p.activities.value[i])
  {
    if p.activities.Some? {
      var acts := p.activities.value;
      forall i | 0 <= i < |acts|
        ensures TwoPasses(scope, acts[i]).None? <==> Panics(scope, acts[i])
      {
        if acts[i].title != "" {
          ActivityAfterPasses(scope, acts[i]);
          AnyStepEmptiedIsLosesStep(scope, acts[i]);
        }
      }
      var passed := ControlPassAll(acts, ScopeControls(scope));
      assert forall i :: 0 <= i < |acts| ==> RulePassActivity(scope, passed[i]) == TwoPasses(scope, acts[i]);
    }
  }

  // A whole family of such plans: the rule is excluded globally, and the activity and one of
  // its steps each have a selection; the step's lists only controls in scope.
  lemma ExcludedRuleWithStepPanics(scope: AssessmentScope, groups: RemarksGroups, a: ActivityValue,
                                   related: seq<Selection>, step: StepValue, s: Selection, listed: seq<string>)
    requires a.title != "" && a.title in scope.globalExcludeRules
    requires a.relatedControls == Some(related) && related != []
    requires a.steps == [step] && step.reviewedControls == Some([s]) && s.includeControls == Some(listed)
    requires forall c :: c in listed ==> InScope(scope, c)
    ensures ApplyScope(scope, groups, PlanValue([], Some([a]))) == NilDereference
  {
    forall c | c in ScopeControls(scope)
      ensures !Stays(scope, a.title, c)
    {
      EntryInScope(scope.includeControls, c);
    }
    assert NoneStays(scope, a.title, step.reviewedControls.value[0]);
    assert LosesSelection(scope, a.title, a.steps[0]);
    assert Survivors(scope, a.title, related[0]) == {};
    assert Panics(scope, a);
    var p := PlanValue([], Some([a]));
    assert p.activities.value[0] == a;
    PanicsExactlyWhen(scope, groups, p);
  }
}
