/** Reading scan results: the short names of OVAL checks, and the observations for the checks
    of a policy. */
module OvalChecks {
  import opened Wrappers
  import opened GoStrings
  import opened Tailoring

  // ===== The regular expression ^[^:]*?:[^-]*?-(.*?):.*?$ =====

  // One way the expression matches the whole text; a dot matches anything but a newline.
  ghost predicate Matches(s: string, prefix: string, ns: string, name: string, tail: string) {
    && s == prefix + [':'] + (ns + ['-'] + (name + [':'] + tail))
    && ':' !in prefix && '-' !in ns && '\n' !in name && '\n' !in tail
  }

  // What follows the first c.
  function AfterFirst(s: string, c: char): Option<string> {
    var n := Before(s, c);
    if n == |s| then None else Some(s[n + 1..])
  }

  // The text before the first colon, when the text is on one line.
  function NameIn(named: string): Option<string> {
    var k := Before(named, ':');
    if k == |named| || '\n' in named then None else Some(named[..k])
  }

  // What the expression captures.
  function ShortName(s: string): Option<string> {
    match AfterFirst(s, ':')
    case None => None
    case Some(rest) =>
      match AfterFirst(rest, '-')
      case None => None
      case Some(named) => NameIn(named)
  }

  lemma AfterFirstIs(head: string, c: char, tail: string)
    requires c !in head
    ensures AfterFirst(head + [c] + tail, c) == Some(tail)
  {
    BeforeAt(head, c, tail);
    assert (head + [c] + tail)[|head| + 1..] == tail;
  }

  lemma AfterFirstSplits(s: string, c: char)
    requires AfterFirst(s, c).Some?
    ensures s == s[..Before(s, c)] + [c] + AfterFirst(s, c).value
    ensures c !in s[..Before(s, c)]
  {
  }

  lemma {:induction false} BeforeAtMost(head: string, c: char, tail: string)
    ensures Before(head + [c] + tail, c) <= |head|
  {
    if head != [] {
      assert (head + [c] + tail)[1..] == head[1..] + [c] + tail;
      BeforeAtMost(head[1..], c, tail);
    }
  }

  lemma NameInFound(name: string, tail: string)
    requires '\n' !in name && '\n' !in tail
    ensures NameIn(name + [':'] + tail).Some?
    ensures NameIn(name + [':'] + tail).value <= name
    ensures ':' !in name ==> NameIn(name + [':'] + tail) == Some(name)
  {
    var named := name + [':'] + tail;
    var k := Before(named, ':');
    BeforeAtMost(name, ':', tail);
    assert named[..k] == name[..k];
    if ':' !in name {
      BeforeAt(name, ':', tail);
      assert name[..|name|] == name;
    }
  }

  lemma NameInSplits(named: string)
    requires NameIn(named).Some?
    ensures ':' !in NameIn(named).value && '\n' !in NameIn(named).value
    ensures exists tail :: '\n' !in tail && named == NameIn(named).value + [':'] + tail
  {
    var k := Before(named, ':');
    assert named == named[..k] + [':'] + named[k + 1..];
    assert '\n' !in named[k + 1..];
  }

  lemma ShortNameFound(s: string, prefix: string, ns: string, name: string, tail: string)
    requires Matches(s, prefix, ns, name, tail)
    ensures ShortName(s).Some?
    ensures ShortName(s).value <= name
    ensures ':' !in name ==> ShortName(s) == Some(name)
  {
    var named := name + [':'] + tail;
    AfterFirstIs(prefix, ':', ns + ['-'] + named);
    AfterFirstIs(ns, '-', named);
    NameInFound(name, tail);
  }

  lemma ShortNameMatches(s: string)
    requires ShortName(s).Some?
    ensures ':' !in ShortName(s).value
    ensures exists prefix, ns, tail :: Matches(s, prefix, ns, ShortName(s).value, tail)
  {
    var rest := AfterFirst(s, ':').value;
    var named := AfterFirst(rest, '-').value;
    AfterFirstSplits(s, ':');
    AfterFirstSplits(rest, '-');
    NameInSplits(named);
    var tail :| '\n' !in tail && named == NameIn(named).value + [':'] + tail;
    assert Matches(s, s[..Before(s, ':')], rest[..Before(rest, '-')], NameIn(named).value, tail);
  }

  // A text matches exactly when a short name is found, and the name found is the shortest any
  // match gives, as the lazy quantifiers ask: it is the prefix of all the others before a colon.
  lemma ShortNameIsLazyMatch(s: string)
    ensures ShortName(s).Some? <==> exists prefix, ns, name, tail :: Matches(s, prefix, ns, name, tail)
    ensures forall prefix, ns, name, tail :: Matches(s, prefix, ns, name, tail) ==>
              ShortName(s).Some? && ShortName(s).value <= name
  {
    if ShortName(s).Some? {
      ShortNameMatches(s);
    }
    forall prefix, ns, name, tail | Matches(s, prefix, ns, name, tail)
      ensures ShortName(s).Some? && ShortName(s).value <= name
    {
      ShortNameFound(s, prefix, ns, name, tail);
    }
  }

  // ===== parseCheck =====

  datatype CheckName = NoName | BadFormat | Name(name: string)

  function ParseCheck(attribute: string): CheckName {
    var ovalCheckName := TrimSpace(attribute);
    if ovalCheckName == "" then NoName else
      match ShortName(ovalCheckName)
      case None => BadFormat
      case Some(name) => Name(name)
  }

  function CheckId(prefix: string, ns: string, name: string, tail: string): string {
    prefix + [':'] + (ns + ['-'] + (name + [':'] + tail))
  }

  function Core(ns: string, name: string): string {
    [':'] + ns + ['-'] + name + [':']
  }

  lemma CheckIdCore(prefix: string, ns: string, name: string, tail: string)
    ensures CheckId(prefix, ns, name, tail) == prefix + Core(ns, name) + tail
  {
  }

  lemma TrimCheckId(prefix: string, ns: string, name: string, tail: string)
    ensures TrimSpace(CheckId(prefix, ns, name, tail)) ==
            CheckId(TrimLeft(prefix, IsSpace), ns, name, TrimRight(tail, IsSpace))
  {
    CheckIdCore(prefix, ns, name, tail);
    CheckIdCore(TrimLeft(prefix, IsSpace), ns, name, TrimRight(tail, IsSpace));
    TrimAround(prefix, Core(ns, name), tail, IsSpace);
  }

  // Parsing inverts the naming scheme of OVAL checks.
  lemma ParseInverse(prefix: string, ns: string, name: string, tail: string)
    requires ':' !in prefix && '-' !in ns && ':' !in name && '\n' !in name && '\n' !in tail
    ensures ParseCheck(CheckId(prefix, ns, name, tail)) == Name(name)
  {
    var p, t := TrimLeft(prefix, IsSpace), TrimRight(tail, IsSpace);
    var left := TrimLeftSplit(prefix, IsSpace);
    var right := TrimRightSplit(tail, IsSpace);
    assert ':' !in p && '\n' !in t;
    TrimCheckId(prefix, ns, name, tail);
    ShortNameFound(CheckId(p, ns, name, t), p, ns, name, t);
  }

  // Every name comes from such an identifier, and every other attribute is an error.
  lemma ParsedNames(attribute: string)
    ensures match ParseCheck(attribute)
            case NoName => TrimSpace(attribute) == ""
            case Name(name) =>
              ':' !in name && exists prefix, ns, tail :: Matches(TrimSpace(attribute), prefix, ns, name, tail)
            case BadFormat =>
              TrimSpace(attribute) != "" &&
              forall prefix, ns, name, tail :: !Matches(TrimSpace(attribute), prefix, ns, name, tail)
  {
    ShortNameIsLazyMatch(TrimSpace(attribute));
    if ShortName(TrimSpace(attribute)).Some? {
      ShortNameMatches(TrimSpace(attribute));
    }
  }

  // ===== The checks of a policy =====

  class Checks {
    var ids: set<string>

    constructor ()
      ensures ids == {}
    {
      ids := {};
    }

    method LoadPolicy(policy: Policy)
      modifies this
      ensures forall c :: c in ids <==> c in old(ids) || exists r :: r in policy && c in r.checks
    {
      for k := 0 to |policy|
        invariant forall c :: c in ids <==> c in old(ids) || exists r :: r in policy[..k] && c in r.checks
      {
        var before := ids;
        var checks := policy[k].checks;
        for j := 0 to |checks|
          invariant forall c :: c in ids <==> c in before || c in checks[..j]
        {
          ids := ids + {checks[j]};
        }
        assert checks[..|checks|] == checks;
        assert forall r :: r in policy[..k + 1] <==> r in policy[..k] || r == policy[k];
      }
      assert policy[..|policy|] == policy;
    }

    predicate Has(check: string)
      reads this
    {
      check in ids
    }
  }

  // ===== Filtering the rule results =====

  const OVAL_CHECK_TYPE := "http://oval.mitre.org/XMLSchema/oval-definitions-5"

  // A check of a rule: its system, and the name of its content reference if it has one.
  datatype Check = Check(system: string, contentRef: Option<string>)

  // A rule result: the rule it is about, and the text of its result element if it has one.
  datatype RuleResult = RuleResult(idRef: string, result: Option<string>)

  datatype Status = Pass | Fail | Error

  datatype Observation = Observation(title: string, checkId: string, result: Status)

  function MapResultStatus(r: RuleResult): Option<Status> {
    match r.result
    case None => None
    case Some(text) =>
      if text in {"pass", "fixed"} then Some(Pass)
      else if text == "fail" then Some(Fail)
      else if text in {"notselected", "notapplicable", "error", "unknown"} then Some(Error)
      else None
  }

  // The content reference of the first OVAL check.
  function OvalRef(checks: seq<Check>): Option<string> {
    if checks == [] then None
    else if checks[0].system == OVAL_CHECK_TYPE then checks[0].contentRef
    else OvalRef(checks[1..])
  }

  // The check a rule result is about, when its rule is known and refers to one.
  ghost function CheckOf(r: RuleResult, rules: map<string, seq<Check>>): Option<CheckName> {
    if r.idRef !in rules || OvalRef(rules[r.idRef]) == None then None
    else Some(ParseCheck(OvalRef(rules[r.idRef]).value))
  }

  // The result stops the evaluation: its check has no readable name, or it is a check of the
  // policy without a readable status.
  ghost predicate Breaks(r: RuleResult, rules: map<string, seq<Check>>, policyChecks: set<string>) {
    match CheckOf(r, rules)
    case None => false
    case Some(Name(check)) => check in policyChecks && MapResultStatus(r) == None
    case Some(_) => true
  }

  ghost predicate Reports(r: RuleResult, rules: map<string, seq<Check>>, policyChecks: set<string>, o: Observation) {
    && o.title == r.idRef && o.checkId in policyChecks
    && CheckOf(r, rules) == Some(Name(o.checkId)) && MapResultStatus(r) == Some(o.result)
  }

  ghost predicate Silent(r: RuleResult, rules: map<string, seq<Check>>, policyChecks: set<string>) {
    forall o :: !Reports(r, rules, policyChecks, o)
  }

  // ----- Spelled out -----

  lemma StatusMeaning(r: RuleResult)
    ensures MapResultStatus(r) == Some(Pass) <==> r.result == Some("pass") || r.result == Some("fixed")
    ensures MapResultStatus(r) == Some(Fail) <==> r.result == Some("fail")
    ensures MapResultStatus(r) == Some(Error) <==>
            || r.result == Some("notselected") || r.result == Some("notapplicable")
            || r.result == Some("error") || r.result == Some("unknown")
  {
    match r.result
    case None =>
    case Some(text) =>
      assert text == "pass" || text == "fixed" ==> text[0] != 'n' && text[0] != 'e' && text[0] != 'u';
      assert text == "fail" ==> |text| == 4 && text[0] == 'f';
      assert "pass"[0] == 'p' && |"fixed"| == 5;
  }

  // Check k is the first OVAL check of the rule, and refers to the text.
  ghost predicate RefersAt(checks: seq<Check>, k: int, text: string) {
    && 0 <= k < |checks| && checks[k].system == "http://oval.mitre.org/XMLSchema/oval-definitions-5"
    && checks[k].contentRef == Some(text)
    && forall m :: 0 <= m < k ==> checks[m].system != "http://oval.mitre.org/XMLSchema/oval-definitions-5"
  }

  lemma {:induction false} OvalRefMeaning(checks: seq<Check>, text: string)
    ensures OvalRef(checks) == Some(text) <==> exists k :: RefersAt(checks, k, text)
  {
    if checks != [] {
      var rest := checks[1..];
      OvalRefMeaning(rest, text);
      assert forall k :: 0 <= k < |rest| ==> rest[k] == checks[k + 1];
      if checks[0].system == OVAL_CHECK_TYPE {
        assert OvalRef(checks) == Some(text) ==> RefersAt(checks, 0, text);
      } else {
        if k :| RefersAt(rest, k, text) {
          RefersLater(checks, k + 1, text);
        }
        if k :| RefersAt(checks, k, text) {
          RefersLater(checks, k, text);
        }
      }
    }
  }

  lemma RefersLater(checks: seq<Check>, k: int, text: string)
    requires checks != [] && checks[0].system != OVAL_CHECK_TYPE && k > 0
    ensures RefersAt(checks, k, text) <==> RefersAt(checks[1..], k - 1, text)
  {
    var rest := checks[1..];
    assert forall m :: 0 < m < |checks| ==> checks[m] == rest[m - 1];
    assert forall m :: 0 <= m < |rest| ==> rest[m] == checks[m + 1];
  }

  // The rule of the result is known, and its first OVAL check refers to the text.
  ghost predicate IsAbout(r: RuleResult, rules: map<string, seq<Check>>, text: string) {
    r.idRef in rules && exists k :: RefersAt(rules[r.idRef], k, text)
  }

  lemma CheckOfMeaning(r: RuleResult, rules: map<string, seq<Check>>, name: CheckName)
    ensures CheckOf(r, rules) == Some(name) <==> exists text :: IsAbout(r, rules, text) && ParseCheck(text) == name
  {
    if r.idRef in rules {
      forall text
        ensures OvalRef(rules[r.idRef]) == Some(text) <==> IsAbout(r, rules, text)
      {
        OvalRefMeaning(rules[r.idRef], text);
      }
      if OvalRef(rules[r.idRef]).Some? {
        assert IsAbout(r, rules, OvalRef(rules[r.idRef]).value);
      }
    }
  }

  // An observation takes its title from the rule, its check from the reference, its result from the
  // status.
  lemma ReportsMeaning(r: RuleResult, rules: map<string, seq<Check>>, policyChecks: set<string>, o: Observation)
    ensures Reports(r, rules, policyChecks, o) <==>
            && o.title == r.idRef && o.checkId in policyChecks && r.result.Some?
            && (exists text :: IsAbout(r, rules, text) && ParseCheck(text) == Name(o.checkId))
            && r.result.value in
                 (match o.result
                  case Pass => {"pass", "fixed"}
                  case Fail => {"fail"}
                  case Error => {"notselected", "notapplicable", "error", "unknown"})
  {
    CheckOfMeaning(r, rules, Name(o.checkId));
    StatusMeaning(r);
  }

  // An evaluation breaks on a reference that is no check name, and on a check of the policy whose
  // result has none of the known texts.
  lemma BreaksMeaning(r: RuleResult, rules: map<string, seq<Check>>, policyChecks: set<string>)
    ensures Breaks(r, rules, policyChecks) <==>
            exists text :: IsAbout(r, rules, text) &&
              match ParseCheck(text)
              case Name(check) =>
                check in policyChecks &&
                (r.result.None? ||
                 r.result.value !in
                 {"pass", "fixed", "fail", "notselected", "notapplicable", "error", "unknown"})
              case _ => true
  {
    StatusMeaning(r);
    match CheckOf(r, rules)
    case None =>
      forall text | IsAbout(r, rules, text)
        ensures false
      {
        CheckOfMeaning(r, rules, ParseCheck(text));
      }
    case Some(name) =>
      CheckOfMeaning(r, rules, name);
      forall text | IsAbout(r, rules, text)
        ensures ParseCheck(text) == name
      {
        CheckOfMeaning(r, rules, ParseCheck(text));
      }
  }

  // source says which result each observation is for; results without one are none of the policy's.
  ghost predicate ObservedBy(observations: seq<Observation>, source: seq<nat>, results: seq<RuleResult>,
                             rules: map<string, seq<Check>>, policyChecks: set<string>) {
    && |source| == |observations|
    && (forall i :: 0 <= i < |source| ==> source[i] < |results|)
    && (forall i, j :: 0 <= i < j < |source| ==> source[i] < source[j])
    && (forall i :: 0 <= i < |source| ==> Reports(results[source[i]], rules, policyChecks, observations[i]))
    && (forall k :: 0 <= k < |results| && k !in source ==> Silent(results[k], rules, policyChecks))
  }

  lemma SkipResult(observations: seq<Observation>, source: seq<nat>, results: seq<RuleResult>, r: RuleResult,
                   rules: map<string, seq<Check>>, policyChecks: set<string>)
    requires ObservedBy(observations, source, results, rules, policyChecks) && Silent(r, rules, policyChecks)
    ensures ObservedBy(observations, source, results + [r], rules, policyChecks)
  {
    var more := results + [r];
    forall k | 0 <= k < |more| && k !in source
      ensures Silent(more[k], rules, policyChecks)
    {
      assert k < |results| ==> more[k] == results[k];
    }
  }

  lemma ReportResult(observations: seq<Observation>, source: seq<nat>, results: seq<RuleResult>, r: RuleResult,
                     rules: map<string, seq<Check>>, policyChecks: set<string>, o: Observation)
    requires ObservedBy(observations, source, results, rules, policyChecks) && Reports(r, rules, policyChecks, o)
    ensures ObservedBy(observations + [o], source + [|results|], results + [r], rules, policyChecks)
  {
    var more, from, all := results + [r], source + [|results|], observations + [o];
    forall i | 0 <= i < |from|
      ensures from[i] < |more| && Reports(more[from[i]], rules, policyChecks, all[i])
    {
      assert i < |source| ==> more[from[i]] == results[source[i]] && all[i] == observations[i];
    }
    forall k | 0 <= k < |more| && k !in from
      ensures Silent(more[k], rules, policyChecks)
    {
      assert from[|source|] == |results|;
      assert k !in source by {
        assert forall i :: 0 <= i < |source| ==> from[i] == source[i];
      }
      assert more[k] == results[k];
    }
  }

  method FindOvalRef(checks: seq<Check>) returns (r: Option<string>)
    ensures r == OvalRef(checks)
  {
    assert checks[0..] == checks;
    for k := 0 to |checks|
      invariant OvalRef(checks) == OvalRef(checks[k..])
    {
      assert checks[k..][1..] == checks[k + 1..];
      if checks[k].system == OVAL_CHECK_TYPE {
        return checks[k].contentRef;
      }
    }
    return None;
  }

  // One observation for each result about a check of the policy, in order; or none at all when
  // some result breaks the evaluation.
  method GetResults(results: seq<RuleResult>, rules: map<string, seq<Check>>, policyChecks: Checks)
    returns (r: Option<seq<Observation>>, ghost source: seq<nat>)
    ensures r.None? <==> exists k :: 0 <= k < |results| && Breaks(results[k], rules, policyChecks.ids)
    ensures r.Some? ==> ObservedBy(r.value, source, results, rules, policyChecks.ids)
  {
    var observations: seq<Observation> := [];
    source := [];
    for k := 0 to |results|
      invariant forall i :: 0 <= i < k ==> !Breaks(results[i], rules, policyChecks.ids)
      invariant ObservedBy(observations, source, results[..k], rules, policyChecks.ids)
    {
      var result := results[k];
      assert results[..k + 1] == results[..k] + [result];
      var observation := ObservationOf(result, rules, policyChecks);
      match observation
      case Skip =>
        SkipResult(observations, source, results[..k], result, rules, policyChecks.ids);
      case Stop =>
        return None, [];
      case Report(o) =>
        ReportResult(observations, source, results[..k], result, rules, policyChecks.ids, o);
        observations := observations + [o];
        source := source + [k];
    }
    assert results[..|results|] == results;
    return Some(observations), source;
  }

  datatype Turn = Skip | Stop | Report(observation: Observation)

  // One turn of the loop over the results.
  method ObservationOf(result: RuleResult, rules: map<string, seq<Check>>, policyChecks: Checks) returns (turn: Turn)
    ensures turn.Stop? <==> Breaks(result, rules, policyChecks.ids)
    ensures turn.Skip? ==> Silent(result, rules, policyChecks.ids)
    ensures turn.Report? ==> Reports(result, rules, policyChecks.ids, turn.observation)
  {
    if result.idRef !in rules {
      return Skip;
    }
    var ovalRef := FindOvalRef(rules[result.idRef]);
    if ovalRef == None {
      return Skip;
    }
    var ovalCheck := ParseCheck(ovalRef.value);
    if !ovalCheck.Name? {
      return Stop;
    }
    if !policyChecks.Has(ovalCheck.name) {
      return Skip;
    }
    var mappedResult := MapResultStatus(result);
    if mappedResult == None {
      return Stop;
    }
    return Report(Observation(result.idRef, ovalCheck.name, mappedResult.value));
  }
}
