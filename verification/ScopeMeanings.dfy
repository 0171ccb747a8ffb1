/** The look-ups and lists of the scoping rules, spelled out by positions in the configuration and
    the plan: which entry counts, what is waived, which value is selected, and in which order
    controls and markers are left. */
module ScopeMeanings {
  import opened Wrappers
  import opened Ordering
  import opened Oscal
  import opened ComponentDefinitions
  import opened Positions
  import Params = ParameterSelection
  import opened ScopeRules
  import opened ScopeTheorems
  import opened ScopeLaws
  import opened ScopeMonotone
  import opened ParameterTheorems
  import opened ParameterRuns
  import opened WaivedParameters

  // ===== Which of several entries counts =====

  // Entry i is the last one of the control.
  ghost predicate LastEntry(entries: seq<ControlEntry>, i: int, control: string) {
    && 0 <= i < |entries| && entries[i].controlId == control
    && forall j :: i < j < |entries| ==> entries[j].controlId != control
  }

  lemma {:induction false} EntryOfMeaning(entries: seq<ControlEntry>, control: string)
    ensures EntryOf(entries, control).None? <==> forall i :: 0 <= i < |entries| ==> entries[i].controlId != control
    ensures EntryOf(entries, control).Some? ==>
              exists i :: LastEntry(entries, i, control) && entries[i] == EntryOf(entries, control).value
    ensures forall i :: LastEntry(entries, i, control) ==> EntryOf(entries, control) == Some(entries[i])
  {
    if entries != [] {
      var init, last := entries[..|entries| - 1], entries[|entries| - 1];
      EntryOfMeaning(init, control);
      assert forall i :: 0 <= i < |init| ==> init[i] == entries[i];
      if last.controlId == control {
        assert LastEntry(entries, |entries| - 1, control);
      } else {
        forall i
          ensures LastEntry(entries, i, control) <==> LastEntry(init, i, control)
        {
          assert 0 <= i < |init| ==> init[i] == entries[i];
        }
      }
    }
  }

  // A rule stays for a control without an entry, and else unless the last entry and the global list
  // exclude it or leave it out.
  lemma StaysMeaning(scope: AssessmentScope, rule: string, control: string)
    ensures Stays(scope, rule, control) <==>
            forall i :: LastEntry(scope.includeControls, i, control) ==>
              var e := scope.includeControls[i];
              && rule !in scope.globalExcludeRules && "*" !in scope.globalExcludeRules
              && rule !in e.excludeRules && "*" !in e.excludeRules
              && (e.includeRules == [] || rule in e.includeRules || "*" in e.includeRules)
  {
    EntryOfMeaning(scope.includeControls, control);
  }

  // A rule is waived for a control with an entry, globally or by the last one.
  lemma WaivedMeaning(scope: AssessmentScope, rule: string, control: string)
    ensures Waived(scope, rule, control) <==>
            exists i :: LastEntry(scope.includeControls, i, control) &&
              (rule in scope.globalWaiveRules || "*" in scope.globalWaiveRules ||
               rule in scope.includeControls[i].waiveRules || "*" in scope.includeControls[i].waiveRules)
  {
    EntryOfMeaning(scope.includeControls, control);
  }

  // ===== Which of several values is selected =====

  ghost predicate LastNamed(params: seq<ParameterEntry>, j: int, name: string) {
    && 0 <= j < |params| && params[j].name == name && name != ""
    && forall k :: j < k < |params| ==> params[k].name != name
  }

  lemma {:induction false} ValueInMeaning(params: seq<ParameterEntry>, name: string)
    ensures ValueIn(params, name).Some? <==> name != "" && exists j :: 0 <= j < |params| && params[j].name == name
    ensures ValueIn(params, name).Some? ==>
              exists j :: LastNamed(params, j, name) && ValueIn(params, name) == Some(params[j].value)
    ensures forall j :: LastNamed(params, j, name) ==> ValueIn(params, name) == Some(params[j].value)
  {
    if params != [] && name != "" {
      var init, last := params[..|params| - 1], params[|params| - 1];
      ValueInMeaning(init, name);
      assert forall j :: 0 <= j < |init| ==> init[j] == params[j];
      if last.name == name {
        assert LastNamed(params, |params| - 1, name);
      } else {
        forall j
          ensures LastNamed(params, j, name) <==> LastNamed(init, j, name)
        {
          assert 0 <= j < |init| ==> init[j] == params[j];
        }
      }
    }
  }

  // Entry i is the last one of the control with parameters; entries without any do not count.
  ghost predicate LastWithParameters(entries: seq<ControlEntry>, i: int, control: string) {
    && 0 <= i < |entries| && entries[i].controlId == control && entries[i].selectParameters != []
    && forall j :: i < j < |entries| ==> entries[j].controlId != control || entries[j].selectParameters == []
  }

  lemma {:induction false} ParametersOfMeaning(entries: seq<ControlEntry>, control: string)
    ensures ParametersOf(entries, control).Some? ==>
              exists i :: LastWithParameters(entries, i, control) &&
                ParametersOf(entries, control) == Some(entries[i].selectParameters)
    ensures forall i :: LastWithParameters(entries, i, control) ==>
              ParametersOf(entries, control) == Some(entries[i].selectParameters)
  {
    if entries != [] {
      var init, last := entries[..|entries| - 1], entries[|entries| - 1];
      ParametersOfMeaning(init, control);
      assert forall i :: 0 <= i < |init| ==> init[i] == entries[i];
      if last.controlId == control && last.selectParameters != [] {
        assert LastWithParameters(entries, |entries| - 1, control);
      } else {
        forall i
          ensures LastWithParameters(entries, i, control) <==> LastWithParameters(init, i, control)
        {
          assert 0 <= i < |init| ==> init[i] == entries[i];
        }
      }
    }
  }

  // The value of a parameter for a control: that of the last parameter with the name, in the last
  // entry of the control that has parameters.
  lemma SelectedValueMeaning(scope: AssessmentScope, control: string, name: string, value: string)
    ensures SelectedValue(scope, control, name) == Some(value) <==>
            exists i, j :: LastWithParameters(scope.includeControls, i, control) &&
              LastNamed(scope.includeControls[i].selectParameters, j, name) &&
              scope.includeControls[i].selectParameters[j].value == value
  {
    var entries := scope.includeControls;
    ParametersOfMeaning(entries, control);
    match ParametersOf(entries, control)
    case None =>
    case Some(params) =>
      ValueInMeaning(params, name);
  }

  // ===== The waived marker, spelled out =====

  // The entry at e is the last of its control, and the selection lists that control.
  ghost predicate ListsEntry(scope: AssessmentScope, s: Selection, e: int) {
    && 0 <= e < |scope.includeControls|
    && LastEntry(scope.includeControls, e, scope.includeControls[e].controlId)
    && (s.includeAll || (s.includeControls.Some? && scope.includeControls[e].controlId in s.includeControls.value))
  }

  ghost predicate ListsSomeEntry(scope: AssessmentScope, s: Selection) {
    exists e :: ListsEntry(scope, s, e)
  }

  lemma SomeLastEntry(entries: seq<ControlEntry>, control: string)
    requires exists i :: 0 <= i < |entries| && entries[i].controlId == control
    ensures exists i :: LastEntry(entries, i, control)
  {
    EntryOfMeaning(entries, control);
  }

  lemma InScopeListed(scope: AssessmentScope, s: Selection)
    ensures NoneInScope(scope, s) <==> !ListsSomeEntry(scope, s)
  {
    if c :| c in ScopeControls(scope) && Lists(s, c) {
      var entry :| entry in scope.includeControls && entry.controlId == c;
      SomeLastEntry(scope.includeControls, c);
      var e :| LastEntry(scope.includeControls, e, c);
      assert ListsEntry(scope, s, e);
    }
    forall e | ListsEntry(scope, s, e)
      ensures scope.includeControls[e].controlId in ScopeControls(scope)
      ensures Lists(s, scope.includeControls[e].controlId)
    {
    }
  }

  // Some selection lists a control for which the rule stays and is waived, by the control's last
  // entry or globally.
  ghost predicate WaivedThere(scope: AssessmentScope, rule: string, s: Selection, e: int) {
    && ListsEntry(scope, s, e)
    && rule !in scope.globalExcludeRules && "*" !in scope.globalExcludeRules
    && var entry := scope.includeControls[e];
       && rule !in entry.excludeRules && "*" !in entry.excludeRules
       && (entry.includeRules == [] || rule in entry.includeRules || "*" in entry.includeRules)
       && (rule in scope.globalWaiveRules || "*" in scope.globalWaiveRules ||
           rule in entry.waiveRules || "*" in entry.waiveRules)
  }

  lemma WaivedThereMeaning(scope: AssessmentScope, rule: string, s: Selection)
    ensures (exists c :: c in Survivors(scope, rule, s) && Waived(scope, rule, c)) <==>
            exists e :: WaivedThere(scope, rule, s, e)
  {
    if c :| c in Survivors(scope, rule, s) && Waived(scope, rule, c) {
      WaivedMeaning(scope, rule, c);
      StaysMeaning(scope, rule, c);
      var e :| LastEntry(scope.includeControls, e, c) &&
        (rule in scope.globalWaiveRules || "*" in scope.globalWaiveRules ||
         rule in scope.includeControls[e].waiveRules || "*" in scope.includeControls[e].waiveRules);
      assert WaivedThere(scope, rule, s, e);
    }
    if e :| WaivedThere(scope, rule, s, e) {
      var c := scope.includeControls[e].controlId;
      EntryOfMeaning(scope.includeControls, c);
      assert c in Survivors(scope, rule, s) && Waived(scope, rule, c);
    }
  }

  lemma AnyWaivedMeaning(scope: AssessmentScope, rule: string, sels: seq<Selection>)
    ensures AnyWaived(scope, rule, sels) <==>
            exists n, e :: 0 <= n < |sels| && WaivedThere(scope, rule, sels[n], e)
  {
    if AnyWaived(scope, rule, sels) {
      var n, c :| 0 <= n < |sels| && c in Survivors(scope, rule, sels[n]) && Waived(scope, rule, c);
      WaivedThereMeaning(scope, rule, sels[n]);
      var e :| WaivedThere(scope, rule, sels[n], e);
    }
    if n, e :| 0 <= n < |sels| && WaivedThere(scope, rule, sels[n], e) {
      WaivedThereMeaning(scope, rule, sels[n]);
    }
  }

  lemma EachListsEntry(scope: AssessmentScope, sels: seq<Selection>)
    ensures (forall n :: 0 <= n < |sels| ==> !NoneInScope(scope, sels[n])) <==>
            forall n :: 0 <= n < |sels| ==> ListsSomeEntry(scope, sels[n])
  {
    forall n | 0 <= n < |sels|
      ensures NoneInScope(scope, sels[n]) <==> !ListsSomeEntry(scope, sels[n])
    {
      InScopeListed(scope, sels[n]);
    }
  }

  // An activity comes out of a run with a further waived marker if and only if each of its selections
  // lists a control with an entry, and one of them a control whose last entry keeps the rule and waives
  // it, by name or for all rules, there or globally.
  lemma WaivedMarkerMeaning(scope: AssessmentScope, groups: RemarksGroups, p: PlanValue, i: nat)
    requires Returns(scope, groups, p, i)
    ensures var a := p.activities.value[i];
            WaivedCount(Ran(scope, groups, p, i).props) > WaivedCount(a.props) <==>
            && a.title != "" && a.relatedControls.Some?
            && (forall n :: 0 <= n < |a.relatedControls.value| ==> ListsSomeEntry(scope, a.relatedControls.value[n]))
            && (exists n, e :: 0 <= n < |a.relatedControls.value| &&
                  WaivedThere(scope, a.title, a.relatedControls.value[n], e))
  {
    var a := p.activities.value[i];
    WaivedMarkerAppears(scope, groups, p, i);
    if a.relatedControls.Some? {
      AnyWaivedMeaning(scope, a.title, a.relatedControls.value);
      EachListsEntry(scope, a.relatedControls.value);
    }
  }

  // ===== The order of controls =====

  // The first position where the strings differ: the character there is smaller, or the string ends.
  ghost predicate FirstDiffers(a: string, b: string, k: int) {
    && 0 <= k <= |a| && k <= |b| && a[..k] == b[..k]
    && ((k == |a| && k < |b|) || (k < |a| && k < |b| && a[k] < b[k]))
  }

  ghost predicate Precedes(a: string, b: string) {
    exists k :: FirstDiffers(a, b, k)
  }

  lemma AscendingMeaning(ids: seq<string>)
    requires StrictlyAscending(ids)
    ensures forall i, j :: 0 <= i < j < |ids| ==> Precedes(ids[i], ids[j])
  {
    forall i, j | 0 <= i < j < |ids|
      ensures Precedes(ids[i], ids[j])
    {
      assert Less(ids[i], ids[j]);
      DifferingIsLess(ids[i], ids[j]);
    }
  }

  lemma DifferingIsLess(a: string, b: string)
    ensures Less(a, b) <==> Precedes(a, b)
  {
    if Less(a, b) {
      var k := LessAt(a, b);
      assert FirstDiffers(a, b, k);
    }
    if k :| FirstDiffers(a, b, k) {
      LessFrom(a, b, k);
    }
  }

  // After a run every list of controls, of the plan and of the activities, is in that order.
  lemma ListsAreOrdered(scope: AssessmentScope, groups: RemarksGroups, p: PlanValue, i: nat, n: nat, ids: seq<string>)
    requires Returns(scope, groups, p, i)
    requires n < |Ran(scope, groups, p, i).relatedControls.GetOr([])|
    requires Ran(scope, groups, p, i).relatedControls.GetOr([])[n].includeControls == Some(ids)
    ensures forall x, y :: 0 <= x < y < |ids| ==> Precedes(ids[x], ids[y])
  {
    RanByPasses(scope, groups, p, i);
    var a := p.activities.value[i];
    if a.title != "" {
      ActivityAfterPasses(scope, a);
      SelectionAfterPasses(scope, a.title, a.relatedControls.value[n]);
    } else {
      LeftOfUntitled(scope, a.relatedControls.value[n]);
    }
    AscendingMeaning(ids);
  }

  lemma ReviewedAreOrdered(scope: AssessmentScope, groups: RemarksGroups, p: PlanValue, n: nat, ids: seq<string>)
    requires !ApplyScope(scope, groups, p).NilDereference? && n < |ApplyScope(scope, groups, p).plan.reviewedControls|
    requires ApplyScope(scope, groups, p).plan.reviewedControls[n].includeControls == Some(ids)
    ensures forall x, y :: 0 <= x < y < |ids| ==> Precedes(ids[x], ids[y])
  {
    RunByActivity(scope, groups, p);
    LeftOfUntitled(scope, p.reviewedControls[n]);
    AscendingMeaning(ids);
  }

  // In steps the rule pass keeps the order of the list.
  lemma {:induction false} KeptInOrder(scope: AssessmentScope, rule: string, controls: seq<string>)
    returns (at: seq<nat>)
    ensures Picks(Kept(scope, rule, controls), |controls|, at,
                  (k: nat) => if k < |controls| && Stays(scope, rule, controls[k]) then Some(controls[k]) else None)
  {
    if controls == [] {
      at := [];
    } else {
      var init := controls[..|controls| - 1];
      var before := KeptInOrder(scope, rule, init);
      var f := (k: nat) => if k < |init| && Stays(scope, rule, init[k]) then Some(init[k]) else None;
      var g := (k: nat) => if k < |controls| && Stays(scope, rule, controls[k]) then Some(controls[k]) else None;
      PicksSame(Kept(scope, rule, init), |init|, before, f, g);
      PicksNext(Kept(scope, rule, init), |init|, before, g);
      at := if g(|init|).Some? then before + [|init|] else before;
    }
  }

  // ===== The order of markers =====

  ghost function Gather(marker: Selection -> seq<Property>, sels: seq<Selection>): seq<Property> {
    if sels == [] then [] else Gather(marker, sels[..|sels| - 1]) + marker(sels[|sels| - 1])
  }

  // The marker of the selection at k, if there is one.
  ghost function MarkerAt(marker: Selection -> seq<Property>, sels: seq<Selection>): nat -> Option<Property> {
    (k: nat) => if k < |sels| && marker(sels[k]) != [] then Some(marker(sels[k])[0]) else None
  }

  lemma GatherNext(marker: Selection -> seq<Property>, sels: seq<Selection>)
    requires sels != [] && forall s :: |marker(s)| <= 1
    ensures var init := sels[..|sels| - 1];
            Gather(marker, sels) ==
            Gather(marker, init) + match MarkerAt(marker, sels)(|init|) case None => [] case Some(p) => [p]
  {
    var last := marker(sels[|sels| - 1]);
    assert last == [] || last == [last[0]];
  }

  lemma {:induction false} GatherInOrder(marker: Selection -> seq<Property>, sels: seq<Selection>)
    returns (at: seq<nat>)
    requires forall s :: |marker(s)| <= 1
    ensures Picks(Gather(marker, sels), |sels|, at, MarkerAt(marker, sels))
  {
    if sels == [] {
      at := [];
    } else {
      var init := sels[..|sels| - 1];
      var before := GatherInOrder(marker, init);
      PicksSame(Gather(marker, init), |init|, before, MarkerAt(marker, init), MarkerAt(marker, sels));
      PicksNext(Gather(marker, init), |init|, before, MarkerAt(marker, sels));
      GatherNext(marker, sels);
      at := if MarkerAt(marker, sels)(|init|).Some? then before + [|init|] else before;
    }
  }

  // One marker at most for each selection, in the order of the selections: for an activity whose
  // selections are all in scope, for one with a selection that is not, and for a step.
  lemma SelectionMarkersInOrder(scope: AssessmentScope, rule: string, sels: seq<Selection>) returns (at: seq<nat>)
    ensures Picks(SelectionMarkers(scope, rule, sels), |sels|, at,
                  MarkerAt(s => SelectionMarker(scope, rule, s), sels))
  {
    at := GatherInOrder(s => SelectionMarker(scope, rule, s), sels);
    SelectionMarkersGathered(scope, rule, s => SelectionMarker(scope, rule, s), sels);
  }

  lemma {:induction false} SelectionMarkersGathered(scope: AssessmentScope, rule: string,
                                                    marker: Selection -> seq<Property>, sels: seq<Selection>)
    requires forall s :: marker(s) == SelectionMarker(scope, rule, s)
    ensures SelectionMarkers(scope, rule, sels) == Gather(marker, sels)
  {
    if sels != [] {
      SelectionMarkersGathered(scope, rule, marker, sels[..|sels| - 1]);
    }
  }

  lemma OutOfScopeMarkersInOrder(scope: AssessmentScope, sels: seq<Selection>) returns (at: seq<nat>)
    ensures Picks(OutOfScopeMarkers(scope, sels), |sels|, at,
                  (k: nat) => if k < |sels| && NoneInScope(scope, sels[k]) then Some(SKIPPED) else None)
  {
    var marker := s => if NoneInScope(scope, s) then [SKIPPED] else [];
    var item := (k: nat) => if k < |sels| && NoneInScope(scope, sels[k]) then Some(SKIPPED) else None;
    at := GatherInOrder(marker, sels);
    OutOfScopeMarkersGathered(scope, marker, sels);
    PicksSame(OutOfScopeMarkers(scope, sels), |sels|, at, MarkerAt(marker, sels), item);
  }

  lemma {:induction false} OutOfScopeMarkersGathered(scope: AssessmentScope, marker: Selection -> seq<Property>,
                                                     sels: seq<Selection>)
    requires forall s :: marker(s) == if NoneInScope(scope, s) then [SKIPPED] else []
    ensures OutOfScopeMarkers(scope, sels) == Gather(marker, sels)
  {
    if sels != [] {
      OutOfScopeMarkersGathered(scope, marker, sels[..|sels| - 1]);
    }
  }

  lemma StepMarkersInOrder(scope: AssessmentScope, rule: string, sels: seq<Selection>) returns (at: seq<nat>)
    ensures Picks(StepMarkers(scope, rule, sels), |sels|, at, MarkerAt(s => StepMarker(scope, rule, s), sels))
  {
    at := GatherInOrder(s => StepMarker(scope, rule, s), sels);
    StepMarkersGathered(scope, rule, s => StepMarker(scope, rule, s), sels);
  }

  lemma {:induction false} StepMarkersGathered(scope: AssessmentScope, rule: string,
                                               marker: Selection -> seq<Property>, sels: seq<Selection>)
    requires forall s :: marker(s) == StepMarker(scope, rule, s)
    ensures StepMarkers(scope, rule, sels) == Gather(marker, sels)
  {
    if sels != [] {
      StepMarkersGathered(scope, rule, marker, sels[..|sels| - 1]);
    }
  }

  // ===== Which control decides =====

  lemma {:induction false} ValueForLater(scope: AssessmentScope, a: seq<string>, b: seq<string>, name: string)
    requires forall c :: c in a ==> !Mentions(scope, c, name)
    ensures ValueFor(scope, a + b, name) == ValueFor(scope, b, name)
  {
    if a == [] {
      assert a + b == b;
    } else {
      assert (a + b)[0] == a[0] && (a + b)[1..] == a[1..] + b;
      assert a[0] in a && !Mentions(scope, a[0], name);
      ValueForLater(scope, a[1..], b, name);
    }
  }

  lemma {:induction false} ValueForEarlier(scope: AssessmentScope, a: seq<string>, b: seq<string>, name: string)
    requires exists c :: c in a && Mentions(scope, c, name)
    ensures ValueFor(scope, a + b, name) == ValueFor(scope, a, name)
  {
    assert (a + b)[0] == a[0] && (a + b)[1..] == a[1..] + b;
    if !Mentions(scope, a[0], name) {
      assert forall c :: c in a <==> c == a[0] || c in a[1..];
      ValueForEarlier(scope, a[1..], b, name);
    }
  }

  lemma {:induction false} LaterSelections(scope: AssessmentScope, rule: string, sels: seq<Selection>, name: string)
    requires forall n, c :: 0 <= n < |sels| && c in LeftOf(scope, rule, sels[n]) ==> !Mentions(scope, c, name)
    ensures forall c :: c in LeftOfAll(scope, rule, sels) ==> !Mentions(scope, c, name)
  {
    if sels != [] {
      var init, last := sels[..|sels| - 1], sels[|sels| - 1];
      assert forall n :: 0 <= n < |init| ==> init[n] == sels[n];
      LaterSelections(scope, rule, init, name);
      var ids := Ascending(LeftOf(scope, rule, last));
      assert forall c :: c in ids <==> c in Elements(ids);
    }
  }

  // The first selection with a control that mentions the parameter, and in it the smallest such
  // control, decide.
  ghost predicate Decides(scope: AssessmentScope, rule: string, sels: seq<Selection>, n: int, c: string, name: string) {
    && 0 <= n < |sels| && c in LeftOf(scope, rule, sels[n]) && Mentions(scope, c, name)
    && (forall d :: d in LeftOf(scope, rule, sels[n]) && Mentions(scope, d, name) ==>
          d == c || Precedes(c, d))
    && (forall m, d :: 0 <= m < n && d in LeftOf(scope, rule, sels[m]) ==> !Mentions(scope, d, name))
  }

  lemma {:induction false} DecidesValue(scope: AssessmentScope, rule: string, sels: seq<Selection>, n: int, c: string,
                                        name: string)
    requires Decides(scope, rule, sels, n, c, name)
    ensures ValueFor(scope, LeftOfAll(scope, rule, sels), name) == SelectedValue(scope, c, name).value
  {
    var init, last := sels[..|sels| - 1], sels[|sels| - 1];
    var ids := Ascending(LeftOf(scope, rule, last));
    assert forall m :: 0 <= m < |init| ==> init[m] == sels[m];
    assert forall d :: d in ids <==> d in Elements(ids);
    if n < |init| {
      DecidesValue(scope, rule, init, n, c, name);
      MentionedIn(scope, rule, init, n, c);
      ValueForEarlier(scope, LeftOfAll(scope, rule, init), ids, name);
    } else {
      LaterSelections(scope, rule, init, name);
      ValueForLater(scope, LeftOfAll(scope, rule, init), ids, name);
      forall d | d in ids && Mentions(scope, d, name)
        ensures d == c || Less(c, d)
      {
        DifferingIsLess(c, d);
      }
      SmallestControlDecides(scope, ids, name, c);
    }
  }

  lemma {:induction false} MentionedIn(scope: AssessmentScope, rule: string, sels: seq<Selection>, n: int, c: string)
    requires 0 <= n < |sels| && c in LeftOf(scope, rule, sels[n])
    ensures c in LeftOfAll(scope, rule, sels)
  {
    var init, last := sels[..|sels| - 1], sels[|sels| - 1];
    if n < |init| {
      assert init[n] == sels[n];
      MentionedIn(scope, rule, init, n, c);
    } else {
      assert c in Elements(Ascending(LeftOf(scope, rule, last)));
    }
  }

  // The value of a test parameter after a run without an error, when no selection and no step of the
  // activity loses everything.
  lemma DecidingControl(scope: AssessmentScope, groups: RemarksGroups, p: PlanValue, i: nat, j: nat, n: int, c: string)
    requires ApplyScope(scope, groups, p).Applied? && Returns(scope, groups, p, i)
    requires p.activities.value[i].props.Some? && j < |p.activities.value[i].props.value|
    requires p.activities.value[i].props.value[j].class_ == "test-parameter"
    requires p.activities.value[i].relatedControls.Some?
    requires !SomeNotLeft(scope, p.activities.value[i].title, p.activities.value[i].relatedControls.value)
    requires p.activities.value[i].title != "" ==> !LosesStep(scope, p.activities.value[i])
    requires Decides(scope, p.activities.value[i].title, p.activities.value[i].relatedControls.value, n, c,
                     p.activities.value[i].props.value[j].name)
    ensures Ran(scope, groups, p, i).props.Some? && j < |Ran(scope, groups, p, i).props.value|
    ensures var prop := p.activities.value[i].props.value[j];
            var v := SelectedValue(scope, c, prop.name).value;
            Ran(scope, groups, p, i).props.value[j] == if v == "" then prop else prop.(value := v)
  {
    var a := p.activities.value[i];
    PropertyUpdated(scope, groups, p, i, j);
    DecidesValue(scope, a.title, a.relatedControls.value, n, c, a.props.value[j].name);
  }

  // ===== When a run is rejected =====

  // Some group offers alternatives for the parameter, and none offers the value.
  ghost predicate Refuses(groups: RemarksGroups, name: string, value: string) {
    && value != "" && value != "N/A"
    && (exists g, other :: g in groups && Params.Offers(groups[g], name, other))
    && (forall g :: g in groups ==> !Params.Offers(groups[g], name, value))
  }

  // The value that counts for a parameter of entry i's control is refused.
  ghost predicate RefusedAt(scope: AssessmentScope, groups: RemarksGroups, i: int, j: int) {
    && 0 <= i < |scope.includeControls|
    && var e := scope.includeControls[i];
       && LastWithParameters(scope.includeControls, i, e.controlId)
       && 0 <= j < |e.selectParameters|
       && LastNamed(e.selectParameters, j, e.selectParameters[j].name)
       && Refuses(groups, e.selectParameters[j].name, e.selectParameters[j].value)
  }

  lemma InvalidMeaning(scope: AssessmentScope, groups: RemarksGroups)
    ensures !ParametersValid(scope, groups) <==> exists i, j :: RefusedAt(scope, groups, i, j)
  {
    if !ParametersValid(scope, groups) {
      var c, name :| SelectedValue(scope, c, name).Some? &&
        !Params.Accepts(groups, name, SelectedValue(scope, c, name).value);
      var value := SelectedValue(scope, c, name).value;
      SelectedValueMeaning(scope, c, name, value);
      Params.AcceptsMeaning(groups, name, value);
      var i, j :| LastWithParameters(scope.includeControls, i, c) &&
        LastNamed(scope.includeControls[i].selectParameters, j, name) &&
        scope.includeControls[i].selectParameters[j].value == value;
      assert RefusedAt(scope, groups, i, j);
    }
    if i, j :| RefusedAt(scope, groups, i, j) {
      var e := scope.includeControls[i];
      var name, value := e.selectParameters[j].name, e.selectParameters[j].value;
      SelectedValueMeaning(scope, e.controlId, name, value);
      Params.AcceptsMeaning(groups, name, value);
      assert SelectedValue(scope, e.controlId, name) == Some(value);
    }
  }

  // A run that does not panic is rejected exactly when the plan has activities and some value that
  // counts is refused, whichever activities and controls the plan has.
  lemma RejectedExactlyWhen(scope: AssessmentScope, groups: RemarksGroups, p: PlanValue)
    ensures ApplyScope(scope, groups, p).Rejected? <==>
            && !(p.activities.Some? &&
                 exists i :: 0 <= i < |p.activities.value| && Panics(scope, p.activities.value[i]))
            && p.activities.Some? && exists i, j :: RefusedAt(scope, groups, i, j)
  {
    PanicsExactlyWhen(scope, groups, p);
    InvalidMeaning(scope, groups);
  }
}
