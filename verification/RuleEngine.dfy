/** The rule pass: normalised look-up tables, the four-way decision for each control, the
    waive check, and the markers, for the activities of a plan and their steps. */
module RuleEngine {
  import opened Wrappers
  import opened Ordering
  import opened Oscal
  import opened ScopeRules
  import opened ScopeEngine

  // ----- Normalised entries -----

  datatype Tables = Tables(
    config: map<string, ControlEntry>,
    globalExclude: set<string>,
    globalWaive: set<string>)

  function Normalize(excludeAll: bool, e: ControlEntry): ControlEntry {
    if excludeAll then
      e.(includeRules := [], excludeRules := [], waiveRules := [])
    else if WILDCARD in e.excludeRules then
      e.(includeRules := [], waiveRules := [])
    else if e.includeRules == [] then
      e.(includeRules := [WILDCARD])
    else
      e
  }

  ghost predicate ConfigOf(entries: seq<ControlEntry>, excludeAll: bool, config: map<string, ControlEntry>) {
    forall c ::
      && (c in config <==> EntryOf(entries, c).Some?)
      && (c in config ==> config[c] == Normalize(excludeAll, EntryOf(entries, c).value))
  }

  ghost predicate Prepared(scope: AssessmentScope, t: Tables) {
    && t.globalExclude == Elements(scope.globalExcludeRules)
    && t.globalWaive ==
       (if WILDCARD in scope.globalExcludeRules then {} else Elements(scope.globalWaiveRules))
    && ConfigOf(scope.includeControls, WILDCARD in scope.globalExcludeRules, t.config)
  }

  method RuleSet(rules: seq<string>) returns (s: set<string>)
    ensures s == Elements(rules)
  {
    s := {};
    for k := 0 to |rules|
      invariant s == Elements(rules[..k])
    {
      s := s + {rules[k]};
      assert rules[..k + 1] == rules[..k] + [rules[k]];
    }
    assert rules[..|rules|] == rules;
  }

  method Prepare(scope: AssessmentScope) returns (t: Tables)
    ensures Prepared(scope, t)
  {
    var globalExclude := RuleSet(scope.globalExcludeRules);
    var excludeAll := WILDCARD in globalExclude;
    var globalWaiveRules := if excludeAll then [] else scope.globalWaiveRules;
    var globalWaive := RuleSet(globalWaiveRules);
    var config: map<string, ControlEntry> := map[];
    var entries := scope.includeControls;
    for k := 0 to |entries|
      invariant ConfigOf(entries[..k], excludeAll, config)
    {
      var entry := entries[k];
      config := config[entry.controlId := Normalize(excludeAll, entry)];
      assert entries[..k + 1][..k] == entries[..k];
    }
    assert entries[..|entries|] == entries;
    t := Tables(config, globalExclude, globalWaive);
  }

  // ----- One control -----

  // The decision as the program takes it, on normalised entries.
  predicate Keeps(t: Tables, rule: string, control: string) {
    if control !in t.config then true
    else if rule in t.globalExclude then false
    else if WILDCARD in t.globalExclude then false
    else if rule in t.config[control].excludeRules then false
    else if WILDCARD !in t.config[control].includeRules && rule !in t.config[control].includeRules then false
    else true
  }

  // Normalisation and the four-way branch amount to the declarative rule.
  lemma KeepsIsStays(scope: AssessmentScope, t: Tables, rule: string, control: string)
    requires Prepared(scope, t)
    ensures Keeps(t, rule, control) <==> Stays(scope, rule, control)
  {
  }

  predicate Waives(t: Tables, rule: string, control: string) {
    control in t.config &&
    (rule in t.globalWaive || WILDCARD in t.globalWaive ||
     rule in t.config[control].waiveRules || WILDCARD in t.config[control].waiveRules)
  }

  // Clearing the waive lists changes nothing for a control that stays.
  lemma WaivesIsWaived(scope: AssessmentScope, t: Tables, rule: string, control: string)
    requires Prepared(scope, t) && Stays(scope, rule, control)
    ensures Waives(t, rule, control) <==> Waived(scope, rule, control)
  {
  }

  // ----- One selection -----

  lemma {:induction false} KeptMembers(scope: AssessmentScope, rule: string, controls: seq<string>)
    ensures forall c :: c in Kept(scope, rule, controls) <==> c in controls && Stays(scope, rule, c)
  {
    if controls != [] {
      KeptMembers(scope, rule, controls[..|controls| - 1]);
      assert controls == controls[..|controls| - 1] + [controls[|controls| - 1]];
    }
  }

  method FilterControlSelectionByRule(sel: AssessedControls, rule: string, t: Tables, ghost scope: AssessmentScope)
    requires Prepared(scope, t)
    modifies sel
    ensures sel.Value() == ApplyRule(scope, rule, old(sel.Value()))
  {
    if sel.includeControls == None {
      return;
    }
    var filtered: seq<string> := [];
    var controls := sel.includeControls.value;
    for k := 0 to |controls|
      invariant unchanged(sel)
      invariant filtered == Kept(scope, rule, controls[..k])
    {
      var control := controls[k];
      KeepsIsStays(scope, t, rule, control);
      assert controls[..k + 1][..k] == controls[..k];
      if control !in t.config {
        filtered := filtered + [control];
        continue;
      }
      var entry := t.config[control];
      var shouldKeep := true;
      if rule in t.globalExclude {
        shouldKeep := false;
      } else if WILDCARD in t.globalExclude {
        shouldKeep := false;
      } else if rule in entry.excludeRules {
        shouldKeep := false;
      } else if WILDCARD !in entry.includeRules && rule !in entry.includeRules {
        shouldKeep := false;
      }
      if shouldKeep {
        filtered := filtered + [control];
      }
    }
    assert controls[..|controls|] == controls;
    if |filtered| == 0 {
      sel.includeControls := None;
    } else {
      sel.includeControls := Some(filtered);
    }
  }

  // The loop leaves early on three of its four findings.
  method CheckWaive(sel: AssessedControls, rule: string, t: Tables) returns (shouldWaive: bool)
    requires sel.includeControls.Some?
    ensures shouldWaive <==> exists c :: c in sel.includeControls.value && Waives(t, rule, c)
  {
    shouldWaive := false;
    var controls := sel.includeControls.value;
    for k := 0 to |controls|
      invariant shouldWaive <==> exists c :: c in controls[..k] && Waives(t, rule, c)
    {
      var control := controls[k];
      assert controls[..k + 1] == controls[..k] + [control];
      assert forall c :: c in controls[..k + 1] <==> c in controls[..k] || c == control;
      assert control in controls;
      if control !in t.config {
        continue;
      }
      var entry := t.config[control];
      assert Waives(t, rule, control) || !Waives(t, rule, control);
      if rule in t.globalWaive {
        shouldWaive := true;
        break;
      } else if WILDCARD in t.globalWaive {
        shouldWaive := true;
        break;
      } else if rule in entry.waiveRules {
        shouldWaive := true;
      } else if WILDCARD in entry.waiveRules {
        shouldWaive := true;
        break;
      }
    }
    assert controls[..|controls|] == controls;
  }

  // The marker a selection leaves behind, if any.
  ghost function RuleMarker(scope: AssessmentScope, rule: string, after: Selection): seq<Property> {
    if Empty(after) then [SKIPPED] else if SelectionWaived(scope, rule, after) then [WAIVED] else []
  }

  lemma WaivedInSelection(scope: AssessmentScope, t: Tables, rule: string, before: Selection)
    requires Prepared(scope, t) && ApplyRule(scope, rule, before).includeControls.Some?
    ensures var after := ApplyRule(scope, rule, before);
            SelectionWaived(scope, rule, after) <==>
            exists c :: c in after.includeControls.value && Waives(t, rule, c)
  {
    KeptMembers(scope, rule, before.includeControls.value);
    forall c | c in ApplyRule(scope, rule, before).includeControls.value
      ensures Waives(t, rule, c) <==> Waived(scope, rule, c)
    {
      WaivesIsWaived(scope, t, rule, c);
    }
  }

  // One turn of the loop over an activity's selections.
  method RuleScopeSelection(activity: Activity, sel: AssessedControls, t: Tables, ghost scope: AssessmentScope)
    requires Prepared(scope, t)
    modifies activity, sel
    ensures sel.Value() == ApplyRule(scope, activity.title, old(sel.Value()))
    ensures activity.relatedControls == if Empty(sel.Value()) then None else old(activity.relatedControls)
    ensures activity.props == Mark(old(activity.props), RuleMarker(scope, activity.title, sel.Value()))
  {
    FilterControlSelectionByRule(sel, activity.title, t, scope);
    if sel.includeControls == None {
      activity.relatedControls := None;
      AddActivityProperty(activity, SKIPPED);
    } else {
      var shouldWaive := CheckWaive(sel, activity.title, t);
      WaivedInSelection(scope, t, activity.title, old(sel.Value()));
      if shouldWaive {
        AddActivityProperty(activity, WAIVED);
      }
    }
  }

  lemma RuleMarkersSnoc(scope: AssessmentScope, rule: string, props: Option<seq<Property>>,
                        after: seq<Selection>, k: nat)
    requires k < |after|
    ensures Mark(props, RuleMarkers(scope, rule, after[..k + 1])) ==
            Mark(Mark(props, RuleMarkers(scope, rule, after[..k])), RuleMarker(scope, rule, after[k]))
    ensures AnyEmpty(after[..k + 1]) <==> AnyEmpty(after[..k]) || Empty(after[k])
  {
    assert after[..k + 1][..k] == after[..k];
    MarkTwice(props, RuleMarkers(scope, rule, after[..k]), RuleMarker(scope, rule, after[k]));
    AnyEmptySnoc(after, k);
  }

  // What becomes of the selection at index i; after is given, so that the loops need not unfold it.
  ghost predicate Filters(scope: AssessmentScope, rule: string, before: seq<Selection>, after: seq<Selection>, i: nat) {
    i < |before| && i < |after| && after[i] == ApplyRule(scope, rule, before[i])
  }

  // The loop over an activity's selections.
  method RuleScopeLoop(activity: Activity, sels: seq<AssessedControls>, t: Tables, ghost scope: AssessmentScope,
                       ghost before: seq<Selection>, ghost after: seq<Selection>)
    requires Prepared(scope, t)
    requires activity.relatedControls == Some(sels) && Distinct(sels)
    requires |before| == |sels| && forall i :: 0 <= i < |sels| ==> sels[i].Value() == before[i]
    requires |after| == |sels| && forall i :: 0 <= i < |sels| ==> Filters(scope, activity.title, before, after, i)
    modifies activity, sels
    ensures forall i :: 0 <= i < |sels| ==> sels[i].Value() == after[i]
    ensures activity.relatedControls == if AnyEmpty(after) then None else Some(sels)
    ensures activity.props == Mark(old(activity.props), RuleMarkers(scope, activity.title, after))
  {
    ghost var rule, oldProps := activity.title, activity.props;
    for k := 0 to |sels|
      invariant forall i :: 0 <= i < k ==> sels[i].Value() == after[i]
      invariant forall i :: k <= i < |sels| ==> sels[i].Value() == before[i]
      invariant activity.relatedControls == if AnyEmpty(after[..k]) then None else Some(sels)
      invariant activity.props == Mark(oldProps, RuleMarkers(scope, rule, after[..k]))
    {
      assert Filters(scope, rule, before, after, k);
      RuleMarkersSnoc(scope, rule, oldProps, after, k);
      RuleScopeSelection(activity, sels[k], t, scope);
    }
    assert after[..|sels|] == after;
  }

  method RuleScopeRelated(activity: Activity, t: Tables, ghost scope: AssessmentScope)
    requires Prepared(scope, t)
    requires activity.relatedControls.Some? && Distinct(activity.Related())
    modifies activity, activity.Related()
    ensures activity.relatedControls == None || activity.relatedControls == old(activity.relatedControls)
    ensures var after := ApplyRuleAll(scope, activity.title, old(Selections(activity.Related())));
            && activity.RelatedValues() == Remaining(after)
            && activity.props == Mark(old(activity.props), RuleMarkers(scope, activity.title, after))
  {
    var sels := activity.relatedControls.value;
    assert sels == activity.Related();
    ghost var before := Selections(sels);
    ghost var after := ApplyRuleAll(scope, activity.title, before);
    RuleScopeLoop(activity, sels, t, scope, before, after);
    RelatedAre(activity, sels, after);
  }

  // ----- Steps -----

  method AddStepProperty(step: Step, marker: Property)
    modifies step`props
    ensures step.props == Mark(old(step.props), [marker])
  {
    if step.props == None {
      step.props := Some([]);
    }
    step.props := Some(step.props.value + [marker]);
  }

  // One turn of the loop over a step's selections. An emptied selection clears the selections
  // behind the activity's related controls; when those are gone, the program panics: !ok.
  method RuleScopeStepSelection(activity: Activity, step: Step, sel: AssessedControls, t: Tables,
                                ghost scope: AssessmentScope)
    returns (ok: bool)
    requires Prepared(scope, t)
    modifies activity`relatedControls, step, sel
    ensures var after := ApplyRule(scope, activity.title, old(sel.Value()));
            && (ok <==> !(Empty(after) && old(activity.relatedControls).None?))
            && (ok ==>
                  && sel.Value() == after
                  && step.reviewedControls == (if Empty(after) then None else old(step.reviewedControls))
                  && step.props == Mark(old(step.props), RuleMarker(scope, activity.title, after))
                  && activity.relatedControls == if Empty(after) then Some([]) else old(activity.relatedControls))
  {
    FilterControlSelectionByRule(sel, activity.title, t, scope);
    if sel.includeControls == None {
      if activity.relatedControls == None {
        return false;
      }
      activity.relatedControls := Some([]);
      step.reviewedControls := None;
      AddStepProperty(step, SKIPPED);
    } else {
      var shouldWaive := CheckWaive(sel, activity.title, t);
      WaivedInSelection(scope, t, activity.title, old(sel.Value()));
      if shouldWaive {
        AddStepProperty(step, WAIVED);
      }
    }
    return true;
  }

  // The loop over a step's selections.
  method RuleScopeStepLoop(activity: Activity, step: Step, sels: seq<AssessedControls>, t: Tables,
                           ghost scope: AssessmentScope, ghost before: seq<Selection>, ghost after: seq<Selection>)
    returns (ok: bool)
    requires Prepared(scope, t) && Distinct(sels) && step.reviewedControls == Some(sels)
    requires |before| == |sels| && forall i :: 0 <= i < |sels| ==> sels[i].Value() == before[i]
    requires |after| == |sels| && forall i :: 0 <= i < |sels| ==> Filters(scope, activity.title, before, after, i)
    modifies activity`relatedControls, step, sels
    ensures ok <==> !(AnyEmpty(after) && old(activity.relatedControls).None?)
    ensures ok ==> forall i :: 0 <= i < |sels| ==> sels[i].Value() == after[i]
    ensures ok ==> step.reviewedControls == if AnyEmpty(after) then None else Some(sels)
    ensures ok ==> step.props == Mark(old(step.props), RuleMarkers(scope, activity.title, after))
    ensures ok ==> activity.relatedControls == if AnyEmpty(after) then Some([]) else old(activity.relatedControls)
  {
    ghost var rule, oldProps, oldRelated := activity.title, step.props, activity.relatedControls;
    for k := 0 to |sels|
      invariant forall i :: 0 <= i < k ==> sels[i].Value() == after[i]
      invariant forall i :: k <= i < |sels| ==> sels[i].Value() == before[i]
      invariant step.reviewedControls == if AnyEmpty(after[..k]) then None else Some(sels)
      invariant step.props == Mark(oldProps, RuleMarkers(scope, rule, after[..k]))
      invariant activity.relatedControls == if AnyEmpty(after[..k]) then Some([]) else oldRelated
      invariant AnyEmpty(after[..k]) ==> oldRelated.Some?
    {
      assert Filters(scope, rule, before, after, k);
      RuleMarkersSnoc(scope, rule, oldProps, after, k);
      ok := RuleScopeStepSelection(activity, step, sels[k], t, scope);
      if !ok {
        assert Empty(after[k]);
        return;
      }
    }
    assert after[..|sels|] == after;
    return true;
  }

  method RuleScopeStep(activity: Activity, step: Step, t: Tables, ghost scope: AssessmentScope)
    returns (ok: bool)
    requires Prepared(scope, t) && Distinct(step.Reviewed())
    modifies activity`relatedControls, step, step.Reviewed()
    ensures ok ==> step.Reviewed() == [] || step.Reviewed() == old(step.Reviewed())
    ensures var emptied := StepEmptied(scope, activity.title, old(step.Value()));
            && (ok <==> !(emptied && old(activity.relatedControls).None?))
            && (ok ==>
                  && step.Value() == RulePassStep(scope, activity.title, old(step.Value()))
                  && activity.relatedControls == if emptied then Some([]) else old(activity.relatedControls))
  {
    if step.reviewedControls == None {
      return true;
    }
    var sels := step.reviewedControls.value;
    ghost var before := Selections(sels);
    ghost var after := ApplyRuleAll(scope, activity.title, before);
    ok := RuleScopeStepLoop(activity, step, sels, t, scope, before, after);
    if ok {
      assert Selections(sels) == after;
    }
  }

  // The selections of the steps, as they are before the loop; none belongs to two owners.
  ghost predicate Apart(lists: seq<seq<AssessedControls>>, related: seq<AssessedControls>) {
    && (forall i :: 0 <= i < |lists| ==> Distinct(lists[i]))
    && (forall i, j, c :: 0 <= i < |lists| && 0 <= j < |lists| && i != j && c in lists[i] ==> c !in lists[j])
    && (forall i, c :: 0 <= i < |lists| && c in lists[i] ==> c !in related)
  }

  ghost function ReviewedLists(steps: seq<Step>): (r: seq<seq<AssessedControls>>)
    reads steps
    ensures |r| == |steps|
    ensures forall i :: 0 <= i < |steps| ==> r[i] == steps[i].Reviewed()
  {
    seq(|steps|, i requires 0 <= i < |steps| reads steps => steps[i].Reviewed())
  }

  // Every step still has its selections, or none.
  ghost predicate Hold(steps: seq<Step>, lists: seq<seq<AssessedControls>>)
    reads steps
  {
    |steps| == |lists| && forall i :: 0 <= i < |steps| ==> steps[i].Reviewed() == lists[i] || steps[i].Reviewed() == []
  }

  method RuleScopeNthStep(activity: Activity, k: nat, t: Tables, ghost scope: AssessmentScope,
                          ghost lists: seq<seq<AssessedControls>>, ghost related: seq<AssessedControls>)
    returns (ok: bool)
    requires Prepared(scope, t)
    requires k < |activity.steps| && Distinct(activity.steps)
    requires Hold(activity.steps, lists) && Apart(lists, related)
    modifies activity`relatedControls, activity.steps[k], activity.steps[k].Reviewed()
    ensures var step := activity.steps[k];
            var emptied := StepEmptied(scope, activity.title, old(step.Value()));
            && (ok <==> !(emptied && old(activity.relatedControls).None?))
            && (ok ==>
                  && step.Value() == RulePassStep(scope, activity.title, old(step.Value()))
                  && activity.relatedControls == if emptied then Some([]) else old(activity.relatedControls))
    ensures ok ==> Hold(activity.steps, lists)
    ensures Selections(related) == old(Selections(related))
    ensures forall i :: 0 <= i < |activity.steps| && i != k ==>
              activity.steps[i].Value() == old(activity.steps[i].Value())
  {
    assert forall c :: c in lists[k] ==> c !in related;
    assert forall i :: 0 <= i < |related| ==> related[i] !in activity.steps[k].Reviewed();
    ok := RuleScopeStep(activity, activity.steps[k], t, scope);
    forall i | 0 <= i < |activity.steps| && i != k
      ensures activity.steps[i].Value() == old(activity.steps[i].Value())
      ensures activity.steps[i].Reviewed() == old(activity.steps[i].Reviewed())
    {
      assert activity.steps[i] != activity.steps[k];
      assert forall c :: c in old(activity.steps[i].Reviewed()) ==> c !in old(activity.steps[k].Reviewed());
      StepUnchanged(activity.steps[i]);
    }
    SelectionsUnchanged(related);
  }

  // The loop over an activity's steps; owned is what may be written besides the steps.
  method RuleScopeEachStep(activity: Activity, t: Tables, ghost scope: AssessmentScope,
                           ghost lists: seq<seq<AssessedControls>>, ghost related: seq<AssessedControls>,
                           ghost owned: set<AssessedControls>, ghost before: seq<StepValue>)
    returns (ok: bool)
    requires Prepared(scope, t) && Distinct(activity.steps)
    requires Hold(activity.steps, lists) && Apart(lists, related)
    requires forall i, c :: 0 <= i < |lists| && c in lists[i] ==> c in owned
    requires |before| == |activity.steps|
    requires forall i :: 0 <= i < |before| ==> activity.steps[i].Value() == before[i]
    modifies activity`relatedControls, activity.steps, owned
    ensures var emptied := AnyStepEmptied(scope, activity.title, before);
            && (ok <==> !(emptied && old(activity.relatedControls).None?))
            && (ok ==> activity.relatedControls == if emptied then Some([]) else old(activity.relatedControls))
    ensures ok ==> forall i :: 0 <= i < |before| ==>
              activity.steps[i].Value() == RulePassStep(scope, activity.title, before[i])
    ensures ok ==> Hold(activity.steps, lists)
    ensures Selections(related) == old(Selections(related))
  {
    var steps := activity.steps;
    ghost var rule, emptied := activity.title, false;
    for k := 0 to |steps|
      invariant Hold(steps, lists)
      invariant forall i :: 0 <= i < k ==> steps[i].Value() == RulePassStep(scope, rule, before[i])
      invariant forall i :: k <= i < |steps| ==> steps[i].Value() == before[i]
      invariant emptied <==> exists i :: 0 <= i < k && StepEmptied(scope, rule, before[i])
      invariant activity.relatedControls == if emptied then Some([]) else old(activity.relatedControls)
      invariant emptied ==> old(activity.relatedControls).Some?
      invariant Selections(related) == old(Selections(related))
    {
      assert steps[k].Value() == before[k];
      ok := RuleScopeNthStep(activity, k, t, scope, lists, related);
      if !ok {
        return;
      }
      emptied := emptied || StepEmptied(scope, rule, before[k]);
    }
    return true;
  }

  lemma ValidApart(activity: Activity)
    requires activity.Valid()
    ensures Apart(ReviewedLists(activity.steps), activity.Related())
    ensures Hold(activity.steps, ReviewedLists(activity.steps))
    ensures forall i, c :: 0 <= i < |activity.steps| && c in ReviewedLists(activity.steps)[i] ==> c in activity.Sels()
  {
  }

  // An activity whose lists of selections are what they were, or gone.
  twostate lemma StillValid(activity: Activity)
    requires old(activity.Valid()) && Hold(activity.steps, old(ReviewedLists(activity.steps)))
    requires activity.Related() == [] || activity.Related() == old(activity.Related())
    ensures activity.Valid() && activity.Sels() <= old(activity.Sels())
  {
  }

  method RuleScopeSteps(activity: Activity, t: Tables, ghost scope: AssessmentScope)
    returns (ok: bool)
    requires Prepared(scope, t) && activity.Valid()
    modifies activity`relatedControls, activity.steps, activity.Sels()
    ensures var emptied := AnyStepEmptied(scope, activity.title, old(activity.StepValues()));
            && (ok <==> !(emptied && old(activity.relatedControls).None?))
            && (ok ==> activity.relatedControls == if emptied then Some([]) else old(activity.relatedControls))
    ensures ok ==> activity.StepValues() == RulePassSteps(scope, activity.title, old(activity.StepValues()))
    ensures ok ==> activity.Valid() && activity.Sels() <= old(activity.Sels())
    ensures ok ==> Selections(old(activity.Related())) == old(Selections(activity.Related()))
  {
    ghost var before := activity.StepValues();
    ValidApart(activity);
    ok := RuleScopeEachStep(activity, t, scope, ReviewedLists(activity.steps), activity.Related(), activity.Sels(),
      before);
    if ok {
      assert activity.StepValues() == RulePassSteps(scope, activity.title, before);
      StillValid(activity);
    }
  }

  // ----- Activities -----

  method RuleScopeOwn(activity: Activity, t: Tables, ghost scope: AssessmentScope)
    requires Prepared(scope, t) && activity.Valid()
    modifies activity, activity.Related()
    ensures activity.Valid()
    ensures activity.Sels() <= old(activity.Sels())
    ensures activity.Value() == RulePassRelated(scope, old(activity.Value()))
  {
    if activity.relatedControls != None {
      RuleScopeRelated(activity, t, scope);
      forall i, c | 0 <= i < |activity.steps| && c in old(activity.steps[i].Reviewed())
        ensures unchanged(c)
      {
        assert c !in old(activity.Related());
      }
      StepsUntouched(activity);
    }
  }

  // The value of an activity after the loop over its steps.
  lemma RulePassActivityIs(scope: AssessmentScope, before: ActivityValue, after: ActivityValue)
    requires before.title != "" && after.title == before.title
    requires var own := RulePassRelated(scope, before);
             var emptied := AnyStepEmptied(scope, before.title, own.steps);
             && !(emptied && own.relatedControls.None?)
             && after.relatedControls == (if emptied then Some([]) else own.relatedControls)
             && after.props == own.props
             && after.steps == RulePassSteps(scope, before.title, own.steps)
    ensures RulePassActivity(scope, before) == Some(after)
  {
  }

  // One activity; owned is where its selections lie, and may be written.
  method RuleScopeActivity(activity: Activity, t: Tables, ghost scope: AssessmentScope,
                           ghost owned: set<AssessedControls>)
    returns (ok: bool)
    requires Prepared(scope, t) && activity.Valid() && activity.Sels() <= owned
    modifies activity, activity.steps, owned
    ensures ok <==> RulePassActivity(scope, old(activity.Value())).Some?
    ensures ok ==> Some(activity.Value()) == RulePassActivity(scope, old(activity.Value()))
    ensures ok ==> activity.Valid() && activity.Sels() <= owned
  {
    if activity.title == "" {
      return true;
    }
    RuleScopeOwn(activity, t, scope);
    ok := RuleScopeSteps(activity, t, scope);
    if ok {
      RulePassActivityIs(scope, old(activity.Value()), activity.Value());
    }
  }

  // ----- The plan -----

  method RuleScopeNth(acts: seq<Activity>, k: nat, t: Tables, ghost scope: AssessmentScope,
                      ghost owned: seq<set<AssessedControls>>)
    returns (ok: bool)
    requires Prepared(scope, t)
    requires k < |acts| && OwnApart(acts, owned) && Own(acts, owned)
    modifies acts[k], acts[k].steps, owned[k]
    ensures ok <==> RulePassActivity(scope, old(acts[k].Value())).Some?
    ensures ok ==> Some(acts[k].Value()) == RulePassActivity(scope, old(acts[k].Value()))
    ensures ok ==> Own(acts, owned)
    ensures forall i :: 0 <= i < |acts| && i != k ==> acts[i].Value() == old(acts[i].Value())
  {
    ok := RuleScopeActivity(acts[k], t, scope, owned[k]);
    forall i | 0 <= i < |acts| && i != k
      ensures acts[i].Value() == old(acts[i].Value()) && acts[i].Valid() && acts[i].Sels() == old(acts[i].Sels())
    {
      assert acts[i] != acts[k];
      assert forall x :: 0 <= x < |acts[i].steps| ==> acts[i].steps[x] in acts[i].steps;
      assert forall c :: c in old(acts[i].Sels()) ==> c in owned[i];
      ActivityUnchanged(acts[i]);
    }
  }

  method RuleScopeActivities(acts: seq<Activity>, t: Tables, ghost scope: AssessmentScope)
    returns (ok: bool)
    requires Prepared(scope, t) && Separate(acts)
    modifies acts, AllSteps(acts), AllSels(acts)
    ensures ok <==> !AnyFails(scope, old(ActivityValues(acts)))
    ensures ok ==> Separate(acts) && AllSels(acts) <= old(AllSels(acts))
    ensures ok ==> ActivityValues(acts) == RulePassAll(scope, old(ActivityValues(acts)))
  {
    ghost var before := ActivityValues(acts);
    ghost var owned := OwnedSels(acts);
    SeparateOwn(acts);
    for k := 0 to |acts|
      invariant Own(acts, owned)
      invariant forall i :: 0 <= i < k ==> Some(acts[i].Value()) == RulePassActivity(scope, before[i])
      invariant forall i :: k <= i < |acts| ==> acts[i].Value() == before[i]
    {
      ok := RuleScopeNth(acts, k, t, scope, owned);
      if !ok {
        return;
      }
    }
    StillSeparate(acts);
    return true;
  }

  method ApplyRuleScope(scope: AssessmentScope, plan: AssessmentPlan)
    returns (ok: bool)
    requires plan.Valid()
    modifies plan.Activities(), AllSteps(plan.Activities()), AllSels(plan.Activities())
    ensures ok <==> !RulePassFails(scope, old(plan.Value()))
    ensures ok ==> plan.Valid() && AllSels(plan.Activities()) <= old(AllSels(plan.Activities()))
    ensures ok ==> plan.Value() == RulePass(scope, old(plan.Value()))
  {
    var t := Prepare(scope);
    PlanUnchanged(plan);
    ok := RuleScopeLocal(plan, t, scope);
  }

  method RuleScopeLocal(plan: AssessmentPlan, t: Tables, ghost scope: AssessmentScope)
    returns (ok: bool)
    requires Prepared(scope, t) && plan.Valid()
    modifies plan.Activities(), AllSteps(plan.Activities()), AllSels(plan.Activities())
    ensures ok <==> !RulePassFails(scope, old(plan.Value()))
    ensures ok ==> plan.Valid() && AllSels(plan.Activities()) <= old(AllSels(plan.Activities()))
    ensures ok ==> plan.Value() == RulePass(scope, old(plan.Value()))
  {
    PlanParts(plan);
    if plan.activities == None {
      return true;
    }
    ok := RuleScopeActivities(plan.Activities(), t, scope);
    if ok {
      SelectionsUnchanged(plan.reviewedControls);
      PlanParts(plan);
    }
  }
}
