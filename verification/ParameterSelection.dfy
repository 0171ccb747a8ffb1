/** Validation of a selected parameter value against the alternatives that the component
    definitions declare for the parameter. */
module ParameterSelection {
  import opened Wrappers
  import opened GoStrings
  import opened Oscal
  import opened ComponentDefinitions
  import opened ParameterAlternatives

  const NOT_APPLICABLE := "N/A"
  const ALTERNATIVES_PROP := "Parameter_Value_Alternatives"

  predicate IsParameterIdProperty(name: string) {
    name == PARAMETER_ID_PROP || HasPrefix(name, PARAMETER_ID_PROP + "_")
  }

  function First(props: seq<Property>, p: Property -> bool): Option<Property> {
    if props == [] then None else if p(props[0]) then Some(props[0]) else First(props[1..], p)
  }

  // The name of the property that lists the alternatives of a parameter.
  function AlternativesName(parameterIdName: string): string {
    var suffix :=
      if parameterIdName == PARAMETER_ID_PROP then "" else TrimPrefix(parameterIdName, PARAMETER_ID_PROP + "_");
    if suffix == "" then ALTERNATIVES_PROP else ALTERNATIVES_PROP + "_" + suffix
  }

  function Names(parameterId: string): Property -> bool {
    (p: Property) => p.value == parameterId && IsParameterIdProperty(p.name)
  }

  function Named(name: string): Property -> bool {
    (p: Property) => p.name == name
  }

  // The alternatives that one remarks group declares for a parameter.
  function GroupAlternatives(props: seq<Property>, parameterId: string): seq<string> {
    match First(props, Names(parameterId))
    case None => []
    case Some(idProp) =>
      match First(props, Named(AlternativesName(idProp.name)))
      case None => []
      case Some(prop) => Alternatives(prop.value)
  }

  // The union over all groups.
  ghost predicate IsAlternative(groups: RemarksGroups, parameterId: string, value: string) {
    exists g :: g in groups && value in GroupAlternatives(groups[g], parameterId)
  }

  ghost predicate Restricted(groups: RemarksGroups, parameterId: string) {
    exists value :: IsAlternative(groups, parameterId, value)
  }

  ghost predicate Accepts(groups: RemarksGroups, parameterId: string, value: string) {
    || value == "" || value == NOT_APPLICABLE
    || !Restricted(groups, parameterId)
    || IsAlternative(groups, parameterId, value)
  }

  // ----- By positions in the group -----

  // Parameter_Id, or Parameter_Id_ and a suffix.
  lemma IdNameMeaning(name: string)
    ensures IsParameterIdProperty(name) <==>
            name == "Parameter_Id" || exists suffix :: name == "Parameter_Id" + "_" + suffix
  {
    PrefixMeaning(name, PARAMETER_ID_PROP + "_");
  }

  // Property k is the first parameter id property with the parameter as value, of that suffix.
  ghost predicate FirstId(props: seq<Property>, param: string, k: int, suffix: string) {
    && 0 <= k < |props| && props[k].value == param
    && (props[k].name == "Parameter_Id" + "_" + suffix || (suffix == "" && props[k].name == "Parameter_Id"))
    && forall m :: 0 <= m < k && props[m].value == param ==> !IsParameterIdProperty(props[m].name)
  }

  ghost predicate FirstNamed(props: seq<Property>, name: string, k: int) {
    0 <= k < |props| && props[k].name == name && forall m :: 0 <= m < k ==> props[m].name != name
  }

  // Property x is the one that lists the parameter's alternatives: its name has the same suffix.
  ghost predicate ListsFor(props: seq<Property>, param: string, k: int, suffix: string, x: int) {
    && FirstId(props, param, k, suffix)
    && FirstNamed(props, "Parameter_Value_Alternatives" + (if suffix == "" then "" else "_" + suffix), x)
  }

  lemma {:induction false} FirstMeaning(props: seq<Property>, p: Property -> bool, k: nat)
    requires k < |props| && p(props[k]) && forall m :: 0 <= m < k ==> !p(props[m])
    ensures First(props, p) == Some(props[k])
  {
    if k > 0 {
      var rest := props[1..];
      assert !p(props[0]);
      assert forall m :: 0 <= m < |rest| ==> rest[m] == props[m + 1];
      FirstMeaning(rest, p, k - 1);
    }
  }

  lemma {:induction false} FirstAt(props: seq<Property>, p: Property -> bool) returns (k: nat)
    requires First(props, p).Some?
    ensures k < |props| && p(props[k]) && First(props, p) == Some(props[k])
    ensures forall m :: 0 <= m < k ==> !p(props[m])
  {
    if p(props[0]) {
      k := 0;
    } else {
      var j := FirstAt(props[1..], p);
      k := j + 1;
      forall m | 0 <= m < k
        ensures !p(props[m])
      {
        assert m > 0 ==> props[m] == props[1..][m - 1];
      }
    }
  }

  lemma NameOfList(name: string, suffix: string)
    requires name == "Parameter_Id" + "_" + suffix || (suffix == "" && name == "Parameter_Id")
    ensures IsParameterIdProperty(name)
    ensures AlternativesName(name) == "Parameter_Value_Alternatives" + (if suffix == "" then "" else "_" + suffix)
  {
    PrefixMeaning(name, PARAMETER_ID_PROP + "_");
  }

  // The alternatives of a parameter in a group are those of the property that lists them; without
  // such a property there are none.
  lemma ListedAlternatives(props: seq<Property>, param: string, k: int, suffix: string, x: int)
    requires ListsFor(props, param, k, suffix, x)
    ensures GroupAlternatives(props, param) == Alternatives(props[x].value)
  {
    NameOfList(props[k].name, suffix);
    FirstMeaning(props, Names(param), k);
    FirstMeaning(props, Named(AlternativesName(props[k].name)), x);
  }

  lemma ListingProperty(props: seq<Property>, param: string) returns (k: nat, suffix: string, x: nat)
    requires GroupAlternatives(props, param) != []
    ensures ListsFor(props, param, k, suffix, x)
  {
    k := FirstAt(props, Names(param));
    var name := props[k].name;
    PrefixMeaning(name, PARAMETER_ID_PROP + "_");
    suffix := if name == PARAMETER_ID_PROP then "" else TrimPrefix(name, PARAMETER_ID_PROP + "_");
    NameOfList(name, suffix);
    x := FirstAt(props, Named(AlternativesName(name)));
  }

  lemma GroupHasList(props: seq<Property>, param: string)
    ensures forall k, suffix, x :: ListsFor(props, param, k, suffix, x) ==>
              GroupAlternatives(props, param) == Alternatives(props[x].value)
    ensures (forall k, suffix, x :: !ListsFor(props, param, k, suffix, x)) ==> GroupAlternatives(props, param) == []
  {
    forall k, suffix, x | ListsFor(props, param, k, suffix, x)
      ensures GroupAlternatives(props, param) == Alternatives(props[x].value)
    {
      ListedAlternatives(props, param, k, suffix, x);
    }
    if GroupAlternatives(props, param) != [] {
      var k, suffix, x := ListingProperty(props, param);
    }
  }

  lemma GroupAlternativesMeaning(props: seq<Property>, param: string, value: string)
    ensures value in GroupAlternatives(props, param) <==>
            exists k, suffix, x :: ListsFor(props, param, k, suffix, x) && value in Alternatives(props[x].value)
  {
    if value in GroupAlternatives(props, param) {
      var k, suffix, x := ListingProperty(props, param);
      ListedAlternatives(props, param, k, suffix, x);
    }
    if k, suffix, x :| ListsFor(props, param, k, suffix, x) && value in Alternatives(props[x].value) {
      ListedAlternatives(props, param, k, suffix, x);
    }
  }

  // The group offers the value for the parameter.
  ghost predicate Offers(props: seq<Property>, param: string, value: string) {
    exists k, suffix, x :: ListsFor(props, param, k, suffix, x) && value in Alternatives(props[x].value)
  }

  lemma AcceptsMeaning(groups: RemarksGroups, param: string, value: string)
    ensures Accepts(groups, param, value) <==>
            || value == "" || value == "N/A"
            || (exists g :: g in groups && Offers(groups[g], param, value))
            || (forall g, other :: g in groups ==> !Offers(groups[g], param, other))
  {
    forall g, other | g in groups
      ensures Offers(groups[g], param, other) <==> other in GroupAlternatives(groups[g], param)
    {
      GroupAlternativesMeaning(groups[g], param, other);
    }
    if g, other :| g in groups && Offers(groups[g], param, other) {
      assert IsAlternative(groups, param, other);
    }
  }

  // ----- A group of two parameters -----

  function SampleGroup(first: string, second: string): seq<Property> {
    [Property("Parameter_Id_0", first, TRESTLE_NAMESPACE, "", "rule_set_000"),
     Property("Parameter_Value_Alternatives_0", "{'10_minutes': 600, 'default': 300}", TRESTLE_NAMESPACE, "",
              "rule_set_000"),
     Property("Parameter_Id_1", second, TRESTLE_NAMESPACE, "", "rule_set_000"),
     Property("Parameter_Value_Alternatives_1", "{10: 10, 'default': 4}", TRESTLE_NAMESPACE, "",
              "rule_set_000")]
  }

  lemma SampleNames()
    ensures "Parameter_Id" + "_" + "0" == "Parameter_Id_0" && "Parameter_Id" + "_" + "1" == "Parameter_Id_1"
    ensures "Parameter_Value_Alternatives" + "_" + "0" == "Parameter_Value_Alternatives_0"
    ensures "Parameter_Value_Alternatives" + "_" + "1" == "Parameter_Value_Alternatives_1"
  {
  }

  lemma SampleLists(first: string, second: string)
    requires first != second
    ensures ListsFor(SampleGroup(first, second), first, 0, "0", 1)
    ensures ListsFor(SampleGroup(first, second), second, 2, "1", 3)
  {
    var props := SampleGroup(first, second);
    SampleNames();
    var other := props[1].name;
    assert other[10] == 'V' && other[0] == 'P' && props[0].name[10] == 'I' && props[2].name[10] == 'I';
    assert props[1].name[29] == '0' && props[3].name[29] == '1';
    NotAnId(other);
  }

  lemma NotAnId(name: string)
    requires |name| > 10 && name[10] != 'I'
    ensures !IsParameterIdProperty(name)
  {
    assert PARAMETER_ID_PROP[10] == 'I';
  }

  lemma SampleAlternatives(first: string, second: string)
    requires first != second
    ensures GroupAlternatives(SampleGroup(first, second), first) == ["10_minutes", "default"]
    ensures GroupAlternatives(SampleGroup(first, second), second) == ["10", "default"]
  {
    SampleLists(first, second);
    ListedAlternatives(SampleGroup(first, second), first, 0, "0", 1);
    ListedAlternatives(SampleGroup(first, second), second, 2, "1", 3);
    QuotedSample();
    BareSample();
  }

  // Each parameter of the group has its own alternatives, and any other value is rejected.
  lemma SampleSelections(first: string, second: string, value: string)
    requires first != second
    ensures var groups := map["rule_set_000" := SampleGroup(first, second)];
            && (Accepts(groups, first, value) <==> value in {"", "N/A", "10_minutes", "default"})
            && (Accepts(groups, second, value) <==> value in {"", "N/A", "10", "default"})
  {
    var groups := map["rule_set_000" := SampleGroup(first, second)];
    SampleAlternatives(first, second);
    OneGroupAccepts(groups, first, "10_minutes", "default", value);
    OneGroupAccepts(groups, second, "10", "default", value);
  }

  lemma OneGroupAccepts(groups: RemarksGroups, param: string, a: string, b: string, value: string)
    requires groups.Keys == {"rule_set_000"} && GroupAlternatives(groups["rule_set_000"], param) == [a, b]
    ensures Accepts(groups, param, value) <==> value in {"", "N/A", a, b}
  {
    assert IsAlternative(groups, param, a) by {
      assert a in [a, b];
    }
    assert IsAlternative(groups, param, value) <==> value in [a, b];
  }

  lemma {:induction false} FirstNone(props: seq<Property>, p: Property -> bool)
    requires forall m :: 0 <= m < |props| ==> !p(props[m])
    ensures First(props, p) == None
  {
    if props != [] {
      FirstNone(props[1..], p);
    }
  }

  method GroupAlternativesOf(props: seq<Property>, parameterId: string) returns (alternatives: seq<string>)
    ensures alternatives == GroupAlternatives(props, parameterId)
    ensures forall k, suffix, x :: ListsFor(props, parameterId, k, suffix, x) ==>
              alternatives == Alternatives(props[x].value)
    ensures (forall k, suffix, x :: !ListsFor(props, parameterId, k, suffix, x)) ==> alternatives == []
  {
    GroupHasList(props, parameterId);
    alternatives := [];
    var parameterIdName: Option<string> := None;
    for i := 0 to |props|
      invariant parameterIdName == None
      invariant forall m :: 0 <= m < i ==> !Names(parameterId)(props[m])
    {
      if props[i].value == parameterId && IsParameterIdProperty(props[i].name) {
        FirstMeaning(props, Names(parameterId), i);
        parameterIdName := Some(props[i].name);
        break;
      }
    }
    if parameterIdName == None {
      FirstNone(props, Names(parameterId));
      return;
    }
    var name := AlternativesName(parameterIdName.value);
    for k := 0 to |props|
      invariant forall m :: 0 <= m < k ==> !Named(name)(props[m])
    {
      if props[k].name == name {
        FirstMeaning(props, Named(name), k);
        alternatives := ParseParameterAlternatives(props[k].value);
        return;
      }
    }
    FirstNone(props, Named(name));
  }

  // The groups are visited in an arbitrary order.
  method FilterParameterSelection(parameterId: string, selected: string, groups: RemarksGroups)
    returns (ok: bool, alternatives: seq<string>)
    ensures ok <==> Accepts(groups, parameterId, selected)
    ensures ok <==>
            || selected == "" || selected == "N/A"
            || (exists g :: g in groups && Offers(groups[g], parameterId, selected))
            || (forall g, other :: g in groups ==> !Offers(groups[g], parameterId, other))
    ensures !ok ==> Distinct(alternatives)
    ensures !ok ==> forall x :: x in alternatives <==> IsAlternative(groups, parameterId, x)
  {
    AcceptsMeaning(groups, parameterId, selected);
    if selected == "" || selected == NOT_APPLICABLE {
      return true, [];
    }
    var all: seq<string> := [];
    var hasAlternatives := false;
    var todo := groups.Keys;
    while todo != {}
      invariant todo <= groups.Keys
      invariant hasAlternatives <==> all != []
      invariant selected !in all
      invariant forall x :: x in all <==>
                  exists g :: g in groups && g !in todo && x in GroupAlternatives(groups[g], parameterId)
    {
      var g :| g in todo;
      todo := todo - {g};
      var found := GroupAlternativesOf(groups[g], parameterId);
      if |found| > 0 {
        hasAlternatives := true;
        if selected in found {
          assert IsAlternative(groups, parameterId, selected);
          return true, found;
        }
        all := all + found;
      }
    }
    assert forall x :: x in all <==> IsAlternative(groups, parameterId, x);
    if hasAlternatives {
      assert all[0] in all;
      assert Restricted(groups, parameterId);
      alternatives := RemoveDuplicates(all);
      DedupMeaning(all);
      return false, alternatives;
    }
    return true, [];
  }
}
