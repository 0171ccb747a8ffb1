/** The default scope generated for a framework from the component definitions. */
module ScopeGenerator {
  import opened Wrappers
  import opened Ordering
  import opened Oscal
  import opened ComponentDefinitions
  import opened ParameterSelection
  import opened ScopeRules
  import opened DefaultSettings

  // ===== The generated scope =====

  ghost function Ids(entries: seq<ControlEntry>): (r: seq<string>)
    ensures |r| == |entries|
    ensures forall i :: 0 <= i < |entries| ==> r[i] == entries[i].controlId
  {
    seq(|entries|, i requires 0 <= i < |entries| => entries[i].controlId)
  }

  ghost predicate DistinctNames(params: seq<ParameterEntry>) {
    forall i, j :: 0 <= i < j < |params| ==> params[i].name != params[j].name
  }

  const NO_PARAMETERS := [ParameterEntry(NOT_APPLICABLE, NOT_APPLICABLE)]

  // Each parameter set for the control, once, with the first of its values; in any order.
  ghost predicate ListsSettings(params: seq<ParameterEntry>, setting: string -> Option<seq<string>>) {
    if forall name :: setting(name) == None then
      params == NO_PARAMETERS
    else
      && DistinctNames(params)
      && (forall x :: x in params ==>
            setting(x.name).Some? && setting(x.name).value != [] && x.value == setting(x.name).value[0])
      && (forall name :: setting(name).Some? ==> exists x :: x in params && x.name == name)
  }

  ghost predicate IsDefaultEntry(e: ControlEntry, cds: seq<ComponentDefinition>, framework: string) {
    && e.includeRules == [WILDCARD] && e.excludeRules == [] && e.waiveRules == []
    && ListsSettings(e.selectParameters, name => SettingIn(cds, framework, e.controlId, name))
  }

  ghost predicate Generated(scope: AssessmentScope, framework: string, cds: seq<ComponentDefinition>) {
    && scope.frameworkId == framework
    && scope.globalExcludeRules == [] && scope.globalWaiveRules == []
    && StrictlyAscending(Ids(scope.includeControls))
    && (forall c :: c in Ids(scope.includeControls) <==> Implemented(AllImplementations(cds), framework, c))
    && (forall e :: e in scope.includeControls ==> IsDefaultEntry(e, cds, framework))
  }

  // ===== Processing the set parameters of an implementation =====

  type ParameterTable = map<string, map<string, seq<string>>>

  ghost function Lookup(t: ParameterTable, control: string, param: string): Option<seq<string>> {
    if control in t && param in t[control] then Some(t[control][param]) else None
  }

  // New settings take the place of old ones.
  ghost predicate Overrides(t: ParameterTable, old_: ParameterTable, setting: (string, string) -> Option<seq<string>>) {
    forall c, p :: Lookup(t, c, p) == (if setting(c, p).Some? then setting(c, p) else Lookup(old_, c, p))
  }

  method SetParameterTable(sps: seq<SetParameter>) returns (m: map<string, seq<string>>)
    ensures forall p :: (p in m <==> SetValues(sps, p).Some?) && (p in m ==> m[p] == SetValues(sps, p).value)
  {
    m := map[];
    for k := 0 to |sps|
      invariant forall p ::
                  (p in m <==> SetValues(sps[..k], p).Some?) && (p in m ==> m[p] == SetValues(sps[..k], p).value)
    {
      assert sps[..k + 1][..k] == sps[..k];
      if sps[k].paramId != "" && |sps[k].values| > 0 {
        m := m[sps[k].paramId := sps[k].values];
      }
    }
    assert sps[..|sps|] == sps;
  }

  method RulesOf(props: seq<Property>) returns (rules: set<string>)
    ensures forall r :: r in rules <==> exists p :: p in props && p.name == RULE_ID_PROP && p.value == r
  {
    rules := {};
    for k := 0 to |props|
      invariant forall r :: r in rules <==> exists p :: p in props[..k] && p.name == RULE_ID_PROP && p.value == r
    {
      if props[k].name == RULE_ID_PROP {
        rules := rules + {props[k].value};
      }
    }
  }

  method ReadGroup(props: seq<Property>) returns (ruleId: string, params: seq<string>)
    ensures ruleId == GroupRule(props)
    ensures forall x :: x in params <==> GroupHasParameter(props, x)
  {
    ruleId, params := "", [];
    for k := 0 to |props|
      invariant ruleId == GroupRule(props[..k])
      invariant forall x :: x in params <==> GroupHasParameter(props[..k], x)
    {
      assert props[..k + 1] == props[..k] + [props[k]];
      assert props[..k + 1][..k] == props[..k];
      if props[k].name == RULE_ID_PROP {
        ruleId := props[k].value;
      }
      if IsParameterIdProperty(props[k].name) {
        params := params + [props[k].value];
      }
    }
    assert props[..|props|] == props;
  }

  // Storing the set parameters of a group for one control.
  method StoreParameters(start: ParameterTable, control: string, params: seq<string>, m: map<string, seq<string>>)
    returns (t: ParameterTable)
    ensures Overrides(t, start, (c, p) => if c == control && p in params && p in m then Some(m[p]) else None)
  {
    t := start;
    for k := 0 to |params|
      invariant forall c, p :: Lookup(t, c, p) ==
                  if c == control && p in params[..k] && p in m then Some(m[p]) else Lookup(start, c, p)
    {
      var param := params[k];
      assert forall p :: p in params[..k + 1] <==> p in params[..k] || p == param;
      if param in m {
        ghost var before := t;
        if control !in t {
          t := t[control := map[]];
        }
        t := t[control := t[control][param := m[param]]];
        assert forall c, p :: Lookup(t, c, p) ==
                 if c == control && p == param then Some(m[param]) else Lookup(before, c, p);
      }
    }
    assert params[..|params|] == params;
  }

  // The range over the remarks groups, in arbitrary order.
  method ProcessRequirement(start: ParameterTable, ir: ImplementedRequirement, groups: RemarksGroups,
                            m: map<string, seq<string>>)
    returns (t: ParameterTable)
    requires ir.controlId != ""
    ensures Overrides(t, start, (c, p) => if c == ir.controlId && Links(ir, groups, p) && p in m then
              Some(m[p]) else None)
  {
    var controlRules := RulesOf(ir.props);
    t := start;
    var todo := groups.Keys;
    while todo != {}
      invariant todo <= groups.Keys
      invariant forall c, p :: Lookup(t, c, p) ==
                  if c == ir.controlId && p in m && LinksAmong(ir, groups, groups.Keys - todo, p) then Some(m[p])
                  else Lookup(start, c, p)
    {
      var g :| g in todo;
      LinksOneMore(ir, groups, groups.Keys - todo, g);
      assert groups.Keys - (todo - {g}) == groups.Keys - todo + {g};
      todo := todo - {g};
      var ruleId, params := ReadGroup(groups[g]);
      if ruleId != "" && ruleId in controlRules {
        assert forall p :: LinksGroup(ir, groups[g], p) <==> p in params;
        t := StoreParameters(t, ir.controlId, params, m);
      }
    }
    assert groups.Keys - todo == groups.Keys;
    assert forall p :: LinksAmong(ir, groups, groups.Keys, p) <==> Links(ir, groups, p);
  }

  ghost predicate LinksAmong(ir: ImplementedRequirement, groups: RemarksGroups, seen: set<string>, param: string)
    requires seen <= groups.Keys
  {
    exists g :: g in seen && LinksGroup(ir, groups[g], param)
  }

  lemma LinksOneMore(ir: ImplementedRequirement, groups: RemarksGroups, seen: set<string>, g: string)
    requires seen <= groups.Keys && g in groups
    ensures forall p :: LinksAmong(ir, groups, seen + {g}, p) <==>
              LinksAmong(ir, groups, seen, p) || LinksGroup(ir, groups[g], p)
  {
    forall p | LinksGroup(ir, groups[g], p)
      ensures LinksAmong(ir, groups, seen + {g}, p)
    {
      assert g in seen + {g};
    }
  }

  method ProcessSetParameters(start: ParameterTable, ci: ControlImplementation, cds: seq<ComponentDefinition>)
    returns (t: ParameterTable)
    ensures Overrides(t, start, (c, p) => Sets(ci, Groups(cds), c, p))
  {
    var m := SetParameterTable(ci.setParameters);
    var groups := ExtractRemarksProperties(cds);
    t := start;
    var irs := ci.implementedRequirements;
    for k := 0 to |irs|
      invariant forall c, p :: Lookup(t, c, p) ==
                  if LinksControl(irs[..k], groups, c, p) && p in m then Some(m[p]) else Lookup(start, c, p)
    {
      var ir := irs[k];
      LinksControlSnoc(irs, k, groups);
      if ir.controlId != "" {
        t := ProcessRequirement(t, ir, groups, m);
      }
    }
    assert irs[..|irs|] == irs;
  }

  lemma LinksControlSnoc(irs: seq<ImplementedRequirement>, k: nat, groups: RemarksGroups)
    requires k < |irs|
    ensures forall c, p :: LinksControl(irs[..k + 1], groups, c, p) <==>
              LinksControl(irs[..k], groups, c, p) || (c != "" && irs[k].controlId == c && Links(irs[k], groups, p))
  {
    assert irs[..k + 1] == irs[..k] + [irs[k]];
    assert forall ir :: ir in irs[..k + 1] <==> ir in irs[..k] || ir == irs[k];
    forall p | irs[k].controlId != "" && Links(irs[k], groups, p)
      ensures LinksControl(irs[..k + 1], groups, irs[k].controlId, p)
    {
      assert irs[k] in irs[..k + 1];
    }
    forall c, p | LinksControl(irs[..k], groups, c, p)
      ensures LinksControl(irs[..k + 1], groups, c, p)
    {
      var ir :| ir in irs[..k] && ir.controlId == c && Links(ir, groups, p);
      assert ir in irs[..k + 1];
    }
  }

  // ===== Collecting over all implementations =====

  datatype Collected = Collected(controls: set<string>, parameters: ParameterTable)

  ghost predicate CollectedFrom(r: Collected, cis: seq<ControlImplementation>, framework: string,
                                groups: RemarksGroups) {
    && (forall c :: c in r.controls <==> Implemented(cis, framework, c))
    && (forall c, p :: Lookup(r.parameters, c, p) == Setting(cis, framework, groups, c, p))
  }

  method ImplementedControls(irs: seq<ImplementedRequirement>) returns (controls: set<string>)
    ensures forall c :: c in controls <==> c != "" && exists ir :: ir in irs && ir.controlId == c
  {
    controls := {};
    for k := 0 to |irs|
      invariant forall c :: c in controls <==> c != "" && exists ir :: ir in irs[..k] && ir.controlId == c
    {
      if irs[k].controlId != "" {
        controls := controls + {irs[k].controlId};
      }
    }
  }

  method CollectImplementation(start: Collected, ci: ControlImplementation, framework: string,
                               cds: seq<ComponentDefinition>, ghost cis: seq<ControlImplementation>)
    returns (r: Collected)
    requires CollectedFrom(start, cis, framework, Groups(cds))
    ensures CollectedFrom(r, cis + [ci], framework, Groups(cds))
  {
    assert (cis + [ci])[..|cis|] == cis;
    ImplementedSnoc(cis, ci, framework);
    if ci.framework != Some(framework) {
      return start;
    }
    var controls := ImplementedControls(ci.implementedRequirements);
    var parameters := ProcessSetParameters(start.parameters, ci, cds);
    r := Collected(start.controls + controls, parameters);
  }

  lemma ImplementedSnoc(cis: seq<ControlImplementation>, ci: ControlImplementation, framework: string)
    ensures forall c :: Implemented(cis + [ci], framework, c) <==>
              Implemented(cis, framework, c) || Requires(ci, framework, c)
  {
    assert forall x :: x in cis + [ci] <==> x in cis || x == ci;
  }

  method CollectDefinition(start: Collected, components: seq<Component>, framework: string,
                           cds: seq<ComponentDefinition>, ghost before: seq<ControlImplementation>)
    returns (r: Collected)
    requires CollectedFrom(start, before, framework, Groups(cds))
    ensures CollectedFrom(r, before + ImplementationsOf(components), framework, Groups(cds))
  {
    r := start;
    assert before + ImplementationsOf(components[..0]) == before;
    for j := 0 to |components|
      invariant CollectedFrom(r, before + ImplementationsOf(components[..j]), framework, Groups(cds))
    {
      r := CollectComponent(r, components[j].controlImplementations, framework, cds,
                            before + ImplementationsOf(components[..j]));
      ImplementationsSnoc(before, components, j);
    }
    assert components[..|components|] == components;
  }

  lemma ImplementationsSnoc(before: seq<ControlImplementation>, components: seq<Component>, j: nat)
    requires j < |components|
    ensures before + ImplementationsOf(components[..j + 1]) ==
            before + ImplementationsOf(components[..j]) + components[j].controlImplementations
  {
    assert components[..j + 1][..j] == components[..j];
  }

  method CollectComponent(start: Collected, cis: seq<ControlImplementation>, framework: string,
                          cds: seq<ComponentDefinition>, ghost before: seq<ControlImplementation>)
    returns (r: Collected)
    requires CollectedFrom(start, before, framework, Groups(cds))
    ensures CollectedFrom(r, before + cis, framework, Groups(cds))
  {
    r := start;
    assert before + cis[..0] == before;
    for k := 0 to |cis|
      invariant CollectedFrom(r, before + cis[..k], framework, Groups(cds))
    {
      r := CollectImplementation(r, cis[k], framework, cds, before + cis[..k]);
      assert before + cis[..k + 1] == before + cis[..k] + [cis[k]];
    }
    assert cis[..|cis|] == cis;
  }

  method CollectAll(framework: string, cds: seq<ComponentDefinition>) returns (r: Collected)
    ensures CollectedFrom(r, AllImplementations(cds), framework, Groups(cds))
  {
    r := Collected({}, map[]);
    for i := 0 to |cds|
      invariant CollectedFrom(r, AllImplementations(cds[..i]), framework, Groups(cds))
    {
      r := CollectDefinition(r, cds[i].components, framework, cds, AllImplementations(cds[..i]));
      assert cds[..i + 1][..i] == cds[..i];
    }
    assert cds[..|cds|] == cds;
  }

  // ===== Building the entries =====

  // The range over the parameters of a control, in arbitrary order.
  method SelectParameters(params: map<string, seq<string>>) returns (r: seq<ParameterEntry>)
    ensures DistinctNames(r)
    ensures forall x :: x in r ==> x.name in params && x.value == if params[x.name] == [] then "" else params[x.name][0]
    ensures forall name :: name in params ==> exists x :: x in r && x.name == name
  {
    r := [];
    var todo := params.Keys;
    while todo != {}
      invariant todo <= params.Keys
      invariant DistinctNames(r)
      invariant forall x :: x in r ==>
                  x.name in params && x.name !in todo && x.value == if params[x.name] == [] then
                      "" else params[x.name][0]
      invariant forall name :: name in params && name !in todo ==> exists x :: x in r && x.name == name
    {
      var name :| name in todo;
      todo := todo - {name};
      var value := "";
      if |params[name]| > 0 {
        value := params[name][0];
      }
      ghost var before := r;
      r := r + [ParameterEntry(name, value)];
      assert ParameterEntry(name, value) in r;
      assert forall x :: x in before ==> x in r;
    }
  }

  method BuildEntry(id: string, parameters: ParameterTable) returns (e: ControlEntry)
    requires forall c, p :: Lookup(parameters, c, p).Some? ==> Lookup(parameters, c, p).value != []
    ensures e.controlId == id && e.includeRules == [WILDCARD] && e.excludeRules == [] && e.waiveRules == []
    ensures ListsSettings(e.selectParameters, name => Lookup(parameters, id, name))
  {
    var selections: seq<ParameterEntry> := [];
    if id in parameters {
      selections := SelectParameters(parameters[id]);
      assert forall name :: name in parameters[id] ==> Lookup(parameters, id, name) == Some(parameters[id][name]);
    }
    SettingsListed(selections, name => Lookup(parameters, id, name));
    if |selections| == 0 {
      selections := NO_PARAMETERS;
    }
    e := ControlEntry(id, [WILDCARD], [], [], selections);
  }

  lemma SettingsListed(selections: seq<ParameterEntry>, setting: string -> Option<seq<string>>)
    requires DistinctNames(selections)
    requires forall x :: x in selections ==>
               setting(x.name).Some? && setting(x.name).value != [] && x.value == setting(x.name).value[0]
    requires forall name :: setting(name).Some? ==> exists x :: x in selections && x.name == name
    ensures ListsSettings(if |selections| == 0 then NO_PARAMETERS else selections, setting)
  {
    if |selections| > 0 {
      assert selections[0] in selections;
      assert setting(selections[0].name) != None;
    }
  }

  // sort.Slice by control id.
  method SortEntries(entries: seq<ControlEntry>) returns (sorted: seq<ControlEntry>)
    requires Distinct(Ids(entries))
    ensures StrictlyAscending(Ids(sorted))
    ensures forall e :: e in sorted <==> e in entries
  {
    sorted := [];
    for k := 0 to |entries|
      invariant StrictlyAscending(Ids(sorted))
      invariant forall e :: e in sorted <==> e in entries[..k]
    {
      assert forall e :: e in entries[..k] ==> e.controlId != entries[k].controlId by {
        assert forall i :: 0 <= i < k ==> Ids(entries)[i] != Ids(entries)[k];
      }
      sorted := InsertEntry(entries[k], sorted);
    }
  }

  method InsertEntry(e: ControlEntry, entries: seq<ControlEntry>) returns (r: seq<ControlEntry>)
    requires StrictlyAscending(Ids(entries))
    requires forall x :: x in entries ==> x.controlId != e.controlId
    ensures StrictlyAscending(Ids(r))
    ensures forall x :: x in r <==> x in entries || x == e
  {
    var k := 0;
    while k < |entries| && Less(entries[k].controlId, e.controlId)
      invariant 0 <= k <= |entries|
      invariant forall i :: 0 <= i < k ==> Less(entries[i].controlId, e.controlId)
    {
      k := k + 1;
    }
    forall i | k <= i < |entries|
      ensures Less(e.controlId, entries[i].controlId)
    {
      assert entries[k] in entries;
      LessTotal(entries[k].controlId, e.controlId);
      if i > k {
        assert Less(Ids(entries)[k], Ids(entries)[i]);
        LessTransitive(e.controlId, entries[k].controlId, entries[i].controlId);
      }
    }
    r := entries[..k] + [e] + entries[k..];
    InsertedAscending(entries, e, k);
  }

  lemma InsertedAscending(entries: seq<ControlEntry>, e: ControlEntry, k: nat)
    requires k <= |entries| && StrictlyAscending(Ids(entries))
    requires forall i :: 0 <= i < k ==> Less(entries[i].controlId, e.controlId)
    requires forall i :: k <= i < |entries| ==> Less(e.controlId, entries[i].controlId)
    ensures StrictlyAscending(Ids(entries[..k] + [e] + entries[k..]))
    ensures forall x :: x in entries[..k] + [e] + entries[k..] <==> x in entries || x == e
  {
    var ids := Ids(entries);
    InsertedIds(ids, e.controlId, k);
    assert Ids(entries[..k] + [e] + entries[k..]) == ids[..k] + [e.controlId] + ids[k..];
    assert entries == entries[..k] + entries[k..];
  }

  lemma InsertedIds(ids: seq<string>, x: string, k: nat)
    requires k <= |ids| && StrictlyAscending(ids)
    requires forall i :: 0 <= i < k ==> Less(ids[i], x)
    requires forall i :: k <= i < |ids| ==> Less(x, ids[i])
    ensures StrictlyAscending(ids[..k] + [x] + ids[k..])
  {
    var all := ids[..k] + [x] + ids[k..];
    forall i, j | 0 <= i < j < |all|
      ensures Less(all[i], all[j])
    {
      assert all[i] == if i < k then ids[i] else if i == k then x else ids[i - 1];
      assert all[j] == if j < k then ids[j] else if j == k then x else ids[j - 1];
    }
  }

  // The keys of the set, in arbitrary order.
  method All(controls: set<string>) returns (ids: seq<string>)
    ensures Distinct(ids) && Elements(ids) == controls
  {
    ids := [];
    var todo := controls;
    while todo != {}
      invariant todo <= controls
      invariant Distinct(ids)
      invariant forall c :: c in ids <==> c in controls && c !in todo
    {
      var c :| c in todo;
      todo := todo - {c};
      ids := ids + [c];
    }
  }

  ghost predicate IsEntryFor(e: ControlEntry, parameters: ParameterTable) {
    && e.includeRules == [WILDCARD] && e.excludeRules == [] && e.waiveRules == []
    && ListsSettings(e.selectParameters, name => Lookup(parameters, e.controlId, name))
  }

  method BuildControlEntries(r: Collected) returns (entries: seq<ControlEntry>)
    requires forall c, p :: Lookup(r.parameters, c, p).Some? ==> Lookup(r.parameters, c, p).value != []
    ensures StrictlyAscending(Ids(entries)) && Elements(Ids(entries)) == r.controls
    ensures forall e :: e in entries ==> IsEntryFor(e, r.parameters)
  {
    var ids := All(r.controls);
    var unsorted: seq<ControlEntry> := [];
    for i := 0 to |ids|
      invariant |unsorted| == i
      invariant forall k :: 0 <= k < i ==> unsorted[k].controlId == ids[k] && IsEntryFor(unsorted[k], r.parameters)
    {
      var e := BuildEntry(ids[i], r.parameters);
      unsorted := unsorted + [e];
    }
    assert Ids(unsorted) == ids;
    entries := SortEntries(unsorted);
    SameIds(entries, unsorted);
  }

  lemma SameIds(a: seq<ControlEntry>, b: seq<ControlEntry>)
    requires forall e :: e in a <==> e in b
    ensures Elements(Ids(a)) == Elements(Ids(b))
  {
    forall i | 0 <= i < |a|
      ensures Ids(a)[i] in Ids(b)
    {
      assert a[i] in b;
      var j :| 0 <= j < |b| && b[j] == a[i];
      assert Ids(b)[j] == Ids(a)[i];
    }
    forall i | 0 <= i < |b|
      ensures Ids(b)[i] in Ids(a)
    {
      assert b[i] in a;
      var j :| 0 <= j < |a| && a[j] == b[i];
      assert Ids(a)[j] == Ids(b)[i];
    }
  }

  lemma {:induction false} SetValuesNotEmpty(sps: seq<SetParameter>, p: string)
    ensures SetValues(sps, p).Some? ==> SetValues(sps, p).value != []
  {
    if sps != [] {
      SetValuesNotEmpty(sps[..|sps| - 1], p);
    }
  }

  lemma {:induction false} SettingNotEmpty(cis: seq<ControlImplementation>, framework: string, groups: RemarksGroups,
                                           c: string, p: string)
    ensures Setting(cis, framework, groups, c, p).Some? ==> Setting(cis, framework, groups, c, p).value != []
  {
    if cis != [] {
      SetValuesNotEmpty(cis[|cis| - 1].setParameters, p);
      SettingNotEmpty(cis[..|cis| - 1], framework, groups, c, p);
    }
  }

  // The entry has the first of the values that the implementation's last set-parameter gives.
  ghost predicate EntrySets(e: ControlEntry, param: string, ci: ControlImplementation) {
    exists n :: LastGiven(ci.setParameters, param, n) &&
                ParameterEntry(param, ci.setParameters[n].values[0]) in e.selectParameters
  }

  // The generated scope by positions in the documents: one entry for each control some requirement of
  // an implementation for the framework is for, with the values the last implementation sets.
  lemma GeneratedByPosition(scope: AssessmentScope, framework: string, cds: seq<ComponentDefinition>)
    requires Generated(scope, framework, cds)
    ensures forall c :: c in Ids(scope.includeControls) <==>
              c != "" && exists i, j, k, m :: RequiredAt(cds, framework, c, i, j, k, m)
    ensures forall e, param, i, j, k ::
              e in scope.includeControls && LastSetting(cds, framework, e.controlId, param, i, j, k) ==>
                EntrySets(e, param, cds[i].components[j].controlImplementations[k])
  {
    forall c
      ensures c in Ids(scope.includeControls) <==>
              c != "" && exists i, j, k, m :: RequiredAt(cds, framework, c, i, j, k, m)
    {
      ImplementedMeaning(cds, framework, c);
    }
    forall e, param, i, j, k |
      e in scope.includeControls && LastSetting(cds, framework, e.controlId, param, i, j, k)
      ensures EntrySets(e, param, cds[i].components[j].controlImplementations[k])
    {
      EntryHasSetting(e, framework, cds, param, i, j, k);
    }
  }

  lemma EntryHasSetting(e: ControlEntry, framework: string, cds: seq<ComponentDefinition>, param: string,
                        i: int, j: int, k: int)
    requires IsDefaultEntry(e, cds, framework) && LastSetting(cds, framework, e.controlId, param, i, j, k)
    ensures EntrySets(e, param, cds[i].components[j].controlImplementations[k])
  {
    var ci := cds[i].components[j].controlImplementations[k];
    SettingMeaning(cds, framework, e.controlId, param);
    var values := Sets(ci, Groups(cds), e.controlId, param).value;
    SetsMeaning(ci, Groups(cds), e.controlId, param, values);
    var setting := name => SettingIn(cds, framework, e.controlId, name);
    assert setting(param) == Some(values);
    var x :| x in e.selectParameters && x.name == param;
    assert x == ParameterEntry(param, values[0]);
  }

  // nil component definitions are an error.
  method NewAssessmentScopeFromCDs(framework: string, cds: Option<seq<ComponentDefinition>>)
    returns (r: Option<AssessmentScope>)
    ensures r.None? <==> cds.None?
    ensures r.Some? ==> Generated(r.value, framework, cds.value)
    ensures r.Some? ==> forall c :: c in Ids(r.value.includeControls) <==>
              c != "" && exists i, j, k, m :: RequiredAt(cds.value, framework, c, i, j, k, m)
    ensures r.Some? ==> forall e, param, i, j, k ::
              e in r.value.includeControls && LastSetting(cds.value, framework, e.controlId, param, i, j, k) ==>
                EntrySets(e, param, cds.value[i].components[j].controlImplementations[k])
  {
    if cds == None {
      return None;
    }
    var collected := CollectAll(framework, cds.value);
    forall c, p | Lookup(collected.parameters, c, p).Some?
      ensures Lookup(collected.parameters, c, p).value != []
    {
      SettingNotEmpty(AllImplementations(cds.value), framework, Groups(cds.value), c, p);
    }
    var entries := BuildControlEntries(collected);
    var scope := AssessmentScope(framework, entries, [], []);
    forall e | e in entries
      ensures IsDefaultEntry(e, cds.value, framework)
    {
      SameSettings(e.selectParameters, name => Lookup(collected.parameters, e.controlId, name),
                   name => SettingIn(cds.value, framework, e.controlId, name));
    }
    assert forall c :: c in Ids(entries) <==> c in Elements(Ids(entries));
    GeneratedByPosition(scope, framework, cds.value);
    return Some(scope);
  }

  lemma SameSettings(params: seq<ParameterEntry>, a: string -> Option<seq<string>>, b: string -> Option<seq<string>>)
    requires ListsSettings(params, a) && forall name :: a(name) == b(name)
    ensures ListsSettings(params, b)
  {
  }

  // ===== The generated scope does not depend on any iteration order =====

  // Two runs of the generator give the same controls in the same order, and the same parameters
  // for each control up to the order of the parameters.
  lemma GeneratedUnique(s: AssessmentScope, t: AssessmentScope, framework: string, cds: seq<ComponentDefinition>)
    requires Generated(s, framework, cds) && Generated(t, framework, cds)
    ensures |s.includeControls| == |t.includeControls|
    ensures forall i :: 0 <= i < |s.includeControls| ==>
              var e, f := s.includeControls[i], t.includeControls[i];
              e == f.(selectParameters := e.selectParameters) &&
              forall x :: x in e.selectParameters <==> x in f.selectParameters
  {
    var p, q := Ids(s.includeControls), Ids(t.includeControls);
    assert forall c :: c in Elements(p) <==> c in Elements(q);
    AscendingUnique(p, q);
    forall i | 0 <= i < |s.includeControls|
      ensures var e, f := s.includeControls[i], t.includeControls[i];
              e == f.(selectParameters := e.selectParameters) &&
              forall x :: x in e.selectParameters <==> x in f.selectParameters
    {
      var e, f := s.includeControls[i], t.includeControls[i];
      assert e in s.includeControls && f in t.includeControls;
      assert e.controlId == p[i] == q[i] == f.controlId;
      SameParameters(e.selectParameters, f.selectParameters, name => SettingIn(cds, framework, e.controlId, name),
                     name => SettingIn(cds, framework, f.controlId, name));
    }
  }

  lemma SameParameters(a: seq<ParameterEntry>, b: seq<ParameterEntry>,
                       f: string -> Option<seq<string>>, g: string -> Option<seq<string>>)
    requires ListsSettings(a, f) && ListsSettings(b, g) && forall name :: f(name) == g(name)
    ensures forall x :: x in a <==> x in b
  {
    if exists name :: f(name) != None {
      forall x | x in a
        ensures x in b
      {
        assert f(x.name) == g(x.name);
      }
      forall x | x in b
        ensures x in a
      {
        assert f(x.name) == g(x.name);
      }
    }
  }
}
