/** OSCAL component definitions, as far as scoping reads them, and the grouping of
    component properties by their remarks. */
module ComponentDefinitions {
  import opened Wrappers
  import opened Oscal
  import opened Positions

  datatype SetParameter = SetParameter(paramId: string, values: seq<string>)

  datatype ImplementedRequirement = ImplementedRequirement(controlId: string, props: seq<Property>)

  // framework is the value of the first trestle framework property, if there is one.
  datatype ControlImplementation = ControlImplementation(
    framework: Option<string>,
    setParameters: seq<SetParameter>,
    implementedRequirements: seq<ImplementedRequirement>)

  datatype Component = Component(props: seq<Property>, controlImplementations: seq<ControlImplementation>)

  datatype ComponentDefinition = ComponentDefinition(components: seq<Component>)

  // ----- All the properties of all components, in document order -----

  ghost function PropsOfComponents(components: seq<Component>): seq<Property> {
    if components == [] then [] else
      PropsOfComponents(components[..|components| - 1]) + components[|components| - 1].props
  }

  ghost function AllProps(cds: seq<ComponentDefinition>): seq<Property> {
    if cds == [] then [] else
      AllProps(cds[..|cds| - 1]) + PropsOfComponents(cds[|cds| - 1].components)
  }

  // ----- Remarks groups -----

  type RemarksGroups = map<string, seq<Property>>

  // Properties without remarks belong to no group.
  function AddToGroup(groups: RemarksGroups, prop: Property): RemarksGroups {
    if prop.remarks == "" then groups
    else groups[prop.remarks := (if prop.remarks in groups then groups[prop.remarks] else []) + [prop]]
  }

  ghost function GroupsOf(props: seq<Property>): RemarksGroups {
    if props == [] then map[] else AddToGroup(GroupsOf(props[..|props| - 1]), props[|props| - 1])
  }

  ghost function Groups(cds: seq<ComponentDefinition>): RemarksGroups {
    GroupsOf(AllProps(cds))
  }

  ghost function WithRemarks(props: seq<Property>, remarks: string): seq<Property> {
    if props == [] then [] else
      var last := props[|props| - 1];
      WithRemarks(props[..|props| - 1], remarks) + (if last.remarks == remarks then [last] else [])
  }

  // A group is the list of all properties with its remarks, and only non-empty remarks make a group.
  lemma {:induction false} GroupContents(props: seq<Property>, remarks: string)
    ensures remarks in GroupsOf(props) <==> remarks != "" && WithRemarks(props, remarks) != []
    ensures remarks in GroupsOf(props) ==> GroupsOf(props)[remarks] == WithRemarks(props, remarks)
  {
    if props != [] {
      GroupContents(props[..|props| - 1], remarks);
    }
  }

  // ----- By positions in the documents -----

  ghost function NestedProps(cds: seq<ComponentDefinition>): (r: seq<seq<seq<Property>>>)
    ensures |r| == |cds|
    ensures forall i :: 0 <= i < |cds| ==> r[i] == PropsIn(cds[i].components)
  {
    seq(|cds|, i requires 0 <= i < |cds| => PropsIn(cds[i].components))
  }

  ghost function PropsIn(components: seq<Component>): (r: seq<seq<Property>>)
    ensures |r| == |components|
    ensures forall j :: 0 <= j < |components| ==> r[j] == components[j].props
  {
    seq(|components|, j requires 0 <= j < |components| => components[j].props)
  }

  lemma {:induction false} PropsAreConcat(components: seq<Component>)
    ensures PropsOfComponents(components) == Concat(PropsIn(components))
  {
    if components != [] {
      PropsAreConcat(components[..|components| - 1]);
      assert PropsIn(components)[..|components| - 1] == PropsIn(components[..|components| - 1]);
    }
  }

  lemma {:induction false} AllPropsAreConcat(cds: seq<ComponentDefinition>)
    ensures AllProps(cds) == Concat(Rows(NestedProps(cds)))
  {
    if cds != [] {
      AllPropsAreConcat(cds[..|cds| - 1]);
      PropsAreConcat(cds[|cds| - 1].components);
      assert Rows(NestedProps(cds))[..|cds| - 1] == Rows(NestedProps(cds[..|cds| - 1]));
    }
  }

  // Property k of component j of definition i has the remarks.
  ghost predicate RemarksAt(cds: seq<ComponentDefinition>, remarks: string, i: int, j: int, k: int) {
    && 0 <= i < |cds| && 0 <= j < |cds[i].components|
    && 0 <= k < |cds[i].components[j].props| && cds[i].components[j].props[k].remarks == remarks
  }

  lemma {:induction false} WithRemarksPicks(props: seq<Property>, remarks: string) returns (at: seq<nat>)
    ensures Picks(WithRemarks(props, remarks), |props|, at,
                  (k: nat) => if k < |props| && props[k].remarks == remarks then Some(props[k]) else None)
  {
    if props == [] {
      at := [];
    } else {
      var init := props[..|props| - 1];
      var before := WithRemarksPicks(init, remarks);
      var f := (k: nat) => if k < |init| && init[k].remarks == remarks then Some(init[k]) else None;
      var g := (k: nat) => if k < |props| && props[k].remarks == remarks then Some(props[k]) else None;
      PicksSame(WithRemarks(init, remarks), |init|, before, f, g);
      PicksNext(WithRemarks(init, remarks), |init|, before, g);
      at := if g(|init|).Some? then before + [|init|] else before;
    }
  }

  ghost predicate GroupAt(cds: seq<ComponentDefinition>, remarks: string, group: seq<Property>,
                          at: seq<(nat, nat, nat)>) {
    && |at| == |group|
    && (forall n :: 0 <= n < |at| ==>
          && RemarksAt(cds, remarks, at[n].0, at[n].1, at[n].2)
          && group[n] == cds[at[n].0].components[at[n].1].props[at[n].2])
    && (forall m, n :: 0 <= m < n < |at| ==> Earlier3(at[m], at[n]))
    && (forall i: nat, j: nat, k: nat :: RemarksAt(cds, remarks, i, j, k) ==> (i, j, k) in at)
  }

  lemma WithRemarksAt(cds: seq<ComponentDefinition>, remarks: string) returns (at: seq<(nat, nat, nat)>)
    ensures GroupAt(cds, remarks, WithRemarks(AllProps(cds), remarks), at)
  {
    AllPropsAreConcat(cds);
    var places := ConcatPlaces3(NestedProps(cds));
    var picked := WithRemarksPicks(AllProps(cds), remarks);
    at := seq(|picked|, n requires 0 <= n < |picked| => places[picked[n]]);
    PickedPlaces(cds, remarks, places, picked, at);
  }

  lemma PickedPlaces(cds: seq<ComponentDefinition>, remarks: string, places: seq<(nat, nat, nat)>,
                     picked: seq<nat>, at: seq<(nat, nat, nat)>)
    requires Places3(AllProps(cds), NestedProps(cds), places)
    requires Picks(WithRemarks(AllProps(cds), remarks), |AllProps(cds)|, picked,
                   (k: nat) => if k < |AllProps(cds)| && AllProps(cds)[k].remarks == remarks then Some(AllProps(cds)[k])
                               else None)
    requires |at| == |picked| && forall n :: 0 <= n < |at| ==> at[n] == places[picked[n]]
    ensures GroupAt(cds, remarks, WithRemarks(AllProps(cds), remarks), at)
  {
    var props := AllProps(cds);
    forall n | 0 <= n < |at|
      ensures RemarksAt(cds, remarks, at[n].0, at[n].1, at[n].2)
      ensures WithRemarks(props, remarks)[n] == cds[at[n].0].components[at[n].1].props[at[n].2]
    {
      assert NestedProps(cds)[at[n].0] == PropsIn(cds[at[n].0].components);
    }
    forall i: nat, j: nat, k: nat | RemarksAt(cds, remarks, i, j, k)
      ensures (i, j, k) in at
    {
      assert NestedProps(cds)[i] == PropsIn(cds[i].components);
      assert NestedProps(cds)[i][j] == cds[i].components[j].props;
      assert (i, j, k) in places;
      var x :| 0 <= x < |places| && places[x] == (i, j, k);
      assert x in picked;
      var n :| 0 <= n < |picked| && picked[n] == x;
      assert at[n] == (i, j, k);
    }
  }

  // A group holds the properties with its remarks of all components of all definitions, in document
  // order; there is one for all remarks but empty ones.
  lemma GroupByPosition(cds: seq<ComponentDefinition>, remarks: string)
    ensures remarks in Groups(cds) <==> remarks != "" && exists i, j, k :: RemarksAt(cds, remarks, i, j, k)
    ensures remarks in Groups(cds) ==> exists at :: GroupAt(cds, remarks, Groups(cds)[remarks], at)
  {
    GroupContents(AllProps(cds), remarks);
    var at := WithRemarksAt(cds, remarks);
    if i, j, k :| RemarksAt(cds, remarks, i, j, k) {
      assert (i as nat, j as nat, k as nat) in at;
    }
    if at != [] {
      assert RemarksAt(cds, remarks, at[0].0, at[0].1, at[0].2);
    }
  }

  method ExtractRemarksProperties(cds: seq<ComponentDefinition>) returns (groups: RemarksGroups)
    ensures groups == Groups(cds)
    ensures forall remarks :: remarks in groups <==>
              remarks != "" && exists i, j, k :: RemarksAt(cds, remarks, i, j, k)
    ensures forall remarks :: remarks in groups ==> exists at :: GroupAt(cds, remarks, groups[remarks], at)
  {
    groups := map[];
    for i := 0 to |cds|
      invariant groups == GroupsOf(AllProps(cds[..i]))
    {
      groups := AddDefinitionProps(cds[i].components, groups, AllProps(cds[..i]));
      assert cds[..i + 1][..i] == cds[..i];
    }
    assert cds[..|cds|] == cds;
    forall remarks
      ensures remarks in groups <==> remarks != "" && exists i, j, k :: RemarksAt(cds, remarks, i, j, k)
      ensures remarks in groups ==> exists at :: GroupAt(cds, remarks, groups[remarks], at)
    {
      GroupByPosition(cds, remarks);
    }
  }

  method AddDefinitionProps(components: seq<Component>, start: RemarksGroups, ghost before: seq<Property>)
    returns (groups: RemarksGroups)
    requires start == GroupsOf(before)
    ensures groups == GroupsOf(before + PropsOfComponents(components))
  {
    groups := start;
    assert before + PropsOfComponents(components[..0]) == before;
    for j := 0 to |components|
      invariant groups == GroupsOf(before + PropsOfComponents(components[..j]))
    {
      groups := AddComponentProps(components[j].props, groups, before + PropsOfComponents(components[..j]));
      PropsSnoc(before, components, j);
    }
    assert components[..|components|] == components;
  }

  lemma PropsSnoc(before: seq<Property>, components: seq<Component>, j: nat)
    requires j < |components|
    ensures before + PropsOfComponents(components[..j + 1]) ==
            before + PropsOfComponents(components[..j]) + components[j].props
  {
    assert components[..j + 1][..j] == components[..j];
  }

  method AddComponentProps(props: seq<Property>, start: RemarksGroups, ghost before: seq<Property>)
    returns (groups: RemarksGroups)
    requires start == GroupsOf(before)
    ensures groups == GroupsOf(before + props)
  {
    groups := start;
    assert before + props[..0] == before;
    for k := 0 to |props|
      invariant groups == GroupsOf(before + props[..k])
    {
      var prop := props[k];
      GroupsOfSnoc(before, props, k);
      if prop.remarks != "" {
        groups := groups[prop.remarks := (if prop.remarks in groups then groups[prop.remarks] else []) + [prop]];
      }
    }
    assert props[..|props|] == props;
  }

  lemma GroupsOfSnoc(before: seq<Property>, props: seq<Property>, k: nat)
    requires k < |props|
    ensures GroupsOf(before + props[..k + 1]) == AddToGroup(GroupsOf(before + props[..k]), props[k])
  {
    var all := before + props[..k + 1];
    assert all[..|all| - 1] == before + props[..k];
  }
}
