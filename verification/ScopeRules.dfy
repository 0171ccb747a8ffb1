/** The assessment scope a user configures, and what it asks for, as declarative rules.

    Nothing here mentions normalisation, look-up maps or marker bookkeeping order inside
    loops: the engine's methods are proved against these rules. */
module ScopeRules {
  import opened Wrappers
  import opened Ordering
  import opened Oscal
  import opened ComponentDefinitions
  import opened ParameterSelection

  datatype ParameterEntry = ParameterEntry(name: string, value: string)

  datatype ControlEntry = ControlEntry(
    controlId: string,
    includeRules: seq<string>,
    excludeRules: seq<string>,
    waiveRules: seq<string>,
    selectParameters: seq<ParameterEntry>)

  datatype AssessmentScope = AssessmentScope(
    frameworkId: string,
    includeControls: seq<ControlEntry>,
    globalExcludeRules: seq<string>,
    globalWaiveRules: seq<string>)

  const WILDCARD := "*"

  // ----- Which controls are in scope, and which entry of a control counts -----

  // The last entry of a control overrides the earlier ones.
  ghost function EntryOf(entries: seq<ControlEntry>, control: string): Option<ControlEntry> {
    if entries == [] then None
    else if entries[|entries| - 1].controlId == control then Some(entries[|entries| - 1])
    else EntryOf(entries[..|entries| - 1], control)
  }

  ghost predicate InScope(scope: AssessmentScope, control: string) {
    exists e :: e in scope.includeControls && e.controlId == control
  }

  ghost function ScopeControls(scope: AssessmentScope): (r: set<string>)
    ensures forall c :: c in r <==> InScope(scope, c)
  {
    set e | e in scope.includeControls :: e.controlId
  }

  // ----- Rules -----

  ghost predicate Names(rules: seq<string>, rule: string) {
    rule in rules || WILDCARD in rules
  }

  ghost predicate Excluded(scope: AssessmentScope, rule: string, entry: ControlEntry) {
    || Names(scope.globalExcludeRules, rule)
    || Names(entry.excludeRules, rule)
    || (entry.includeRules != [] && !Names(entry.includeRules, rule))
  }

  // A control without an entry is not touched by the rule pass.
  ghost predicate Stays(scope: AssessmentScope, rule: string, control: string) {
    match EntryOf(scope.includeControls, control)
    case None => true
    case Some(entry) => !Excluded(scope, rule, entry)
  }

  ghost predicate Waived(scope: AssessmentScope, rule: string, control: string) {
    match EntryOf(scope.includeControls, control)
    case None => false
    case Some(entry) => Names(scope.globalWaiveRules, rule) || Names(entry.waiveRules, rule)
  }

  // ----- What each pass makes of one selection -----

  ghost predicate Lists(s: Selection, control: string) {
    s.includeAll || (s.includeControls.Some? && control in s.includeControls.value)
  }

  ghost predicate Empty(s: Selection) {
    s.includeControls.None?
  }

  ghost function Restrict(s: Selection, inScope: set<string>): Selection {
    var left := set c | c in inScope && Lists(s, c);
    s.(includeAll := false, includeControls := if left == {} then None else Some(Ascending(left)))
  }

  ghost function Kept(scope: AssessmentScope, rule: string, controls: seq<string>): seq<string> {
    if controls == [] then [] else
      var last := controls[|controls| - 1];
      Kept(scope, rule, controls[..|controls| - 1]) + (if Stays(scope, rule, last) then [last] else [])
  }

  ghost function ApplyRule(scope: AssessmentScope, rule: string, s: Selection): Selection {
    if Empty(s) then s else
      var kept := Kept(scope, rule, s.includeControls.value);
      s.(includeControls := if kept == [] then None else Some(kept))
  }

  ghost predicate SelectionWaived(scope: AssessmentScope, rule: string, s: Selection) {
    s.includeControls.Some? && exists c :: c in s.includeControls.value && Waived(scope, rule, c)
  }

  // ----- Markers -----

  const SKIPPED := Property(SKIPPED_RULES_PROPERTY, "true", TRESTLE_NAMESPACE, "", "")
  const WAIVED := Property(WAIVED_RULES_PROPERTY, "true", TRESTLE_NAMESPACE, "", "")

  ghost function Mark(props: Option<seq<Property>>, markers: seq<Property>): Option<seq<Property>> {
    if markers == [] then props else Some(props.GetOr([]) + markers)
  }

  // After the control pass: one marker for every emptied selection.
  ghost function ControlMarkers(sels: seq<Selection>): seq<Property> {
    if sels == [] then [] else
      ControlMarkers(sels[..|sels| - 1]) + (if Empty(sels[|sels| - 1]) then [SKIPPED] else [])
  }

  // After the rule pass: every selection is skipped, waived or neither.
  ghost function RuleMarkers(scope: AssessmentScope, rule: string, sels: seq<Selection>): seq<Property> {
    if sels == [] then [] else
      var last := sels[|sels| - 1];
      RuleMarkers(scope, rule, sels[..|sels| - 1]) +
      (if Empty(last) then [SKIPPED] else if SelectionWaived(scope, rule, last) then [WAIVED] else [])
  }

  // ----- The control pass -----

  ghost function RestrictAll(sels: seq<Selection>, inScope: set<string>): (r: seq<Selection>)
    ensures |r| == |sels|
    ensures forall i :: 0 <= i < |sels| ==> r[i] == Restrict(sels[i], inScope)
  {
    seq(|sels|, i requires 0 <= i < |sels| => Restrict(sels[i], inScope))
  }

  ghost predicate AnyEmpty(sels: seq<Selection>) {
    exists i :: 0 <= i < |sels| && Empty(sels[i])
  }

  // One emptied selection takes away all the related controls.
  ghost function Remaining(sels: seq<Selection>): Option<seq<Selection>> {
    if AnyEmpty(sels) then None else Some(sels)
  }

  ghost function ControlPassActivity(a: ActivityValue, inScope: set<string>): ActivityValue {
    match a.relatedControls
    case None => a
    case Some(sels) =>
      var after := RestrictAll(sels, inScope);
      a.(relatedControls := Remaining(after), props := Mark(a.props, ControlMarkers(after)))
  }

  ghost function ControlPassAll(acts: seq<ActivityValue>, inScope: set<string>): (r: seq<ActivityValue>)
    ensures |r| == |acts|
    ensures forall i :: 0 <= i < |acts| ==> r[i] == ControlPassActivity(acts[i], inScope)
  {
    seq(|acts|, i requires 0 <= i < |acts| => ControlPassActivity(acts[i], inScope))
  }

  ghost function ControlPass(scope: AssessmentScope, p: PlanValue): PlanValue {
    PlanValue(
      RestrictAll(p.reviewedControls, ScopeControls(scope)),
      match p.activities
      case None => None
      case Some(acts) => Some(ControlPassAll(acts, ScopeControls(scope))))
  }

  // ----- The rule pass -----

  ghost function ApplyRuleAll(scope: AssessmentScope, rule: string, sels: seq<Selection>): (r: seq<Selection>)
    ensures |r| == |sels|
    ensures forall i :: 0 <= i < |sels| ==> r[i] == ApplyRule(scope, rule, sels[i])
  {
    seq(|sels|, i requires 0 <= i < |sels| => ApplyRule(scope, rule, sels[i]))
  }

  ghost function RulePassRelated(scope: AssessmentScope, a: ActivityValue): ActivityValue {
    match a.relatedControls
    case None => a
    case Some(sels) =>
      var after := ApplyRuleAll(scope, a.title, sels);
      a.(relatedControls := Remaining(after), props := Mark(a.props, RuleMarkers(scope, a.title, after)))
  }

  ghost function RulePassStep(scope: AssessmentScope, rule: string, s: StepValue): StepValue {
    match s.reviewedControls
    case None => s
    case Some(sels) =>
      var after := ApplyRuleAll(scope, rule, sels);
      StepValue(Remaining(after), Mark(s.props, RuleMarkers(scope, rule, after)))
  }

  ghost function RulePassSteps(scope: AssessmentScope, rule: string, steps: seq<StepValue>): (r: seq<StepValue>)
    ensures |r| == |steps|
    ensures forall i :: 0 <= i < |steps| ==> r[i] == RulePassStep(scope, rule, steps[i])
  {
    seq(|steps|, i requires 0 <= i < |steps| => RulePassStep(scope, rule, steps[i]))
  }

  ghost predicate StepEmptied(scope: AssessmentScope, rule: string, s: StepValue) {
    s.reviewedControls.Some? && AnyEmpty(ApplyRuleAll(scope, rule, s.reviewedControls.value))
  }

  ghost predicate AnyStepEmptied(scope: AssessmentScope, rule: string, steps: seq<StepValue>) {
    exists i :: 0 <= i < |steps| && StepEmptied(scope, rule, steps[i])
  }

  // None stands for the nil dereference: an emptied step clears the selections behind the
  // activity's related controls, which must still be there.
  ghost function RulePassActivity(scope: AssessmentScope, a: ActivityValue): Option<ActivityValue> {
    if a.title == "" then Some(a) else
      var b := RulePassRelated(scope, a).(steps := RulePassSteps(scope, a.title, a.steps));
      if !AnyStepEmptied(scope, a.title, a.steps) then Some(b)
      else if b.relatedControls.None? then None
      else Some(b.(relatedControls := Some([])))
  }

  // The run panics on some activity.
  ghost predicate AnyFails(scope: AssessmentScope, acts: seq<ActivityValue>) {
    exists i :: 0 <= i < |acts| && RulePassActivity(scope, acts[i]).None?
  }

  ghost function RulePassAll(scope: AssessmentScope, acts: seq<ActivityValue>): (r: seq<ActivityValue>)
    requires !AnyFails(scope, acts)
    ensures |r| == |acts|
    ensures forall i :: 0 <= i < |acts| ==> RulePassActivity(scope, acts[i]) == Some(r[i])
  {
    seq(|acts|, i requires 0 <= i < |acts| => RulePassActivity(scope, acts[i]).GetOr(acts[i]))
  }

  ghost predicate RulePassFails(scope: AssessmentScope, p: PlanValue) {
    p.activities.Some? && AnyFails(scope, p.activities.value)
  }

  ghost function RulePass(scope: AssessmentScope, p: PlanValue): PlanValue
    requires !RulePassFails(scope, p)
  {
    match p.activities
    case None => p
    case Some(acts) => p.(activities := Some(RulePassAll(scope, acts)))
  }

  // ----- Parameters -----

  // The value the last entry named name gives; entries without a name do not count.
  ghost function ValueIn(params: seq<ParameterEntry>, name: string): Option<string> {
    if params == [] || name == "" then None
    else if params[|params| - 1].name == name then Some(params[|params| - 1].value)
    else ValueIn(params[..|params| - 1], name)
  }

  // The parameters of a control are those of its last entry that has any.
  ghost function ParametersOf(entries: seq<ControlEntry>, control: string): Option<seq<ParameterEntry>> {
    if entries == [] then None else
      var last := entries[|entries| - 1];
      if last.controlId == control && last.selectParameters != [] then Some(last.selectParameters)
      else ParametersOf(entries[..|entries| - 1], control)
  }

  ghost function SelectedValue(scope: AssessmentScope, control: string, name: string): Option<string> {
    match ParametersOf(scope.includeControls, control)
    case None => None
    case Some(params) => ValueIn(params, name)
  }

  ghost predicate ParametersValid(scope: AssessmentScope, groups: RemarksGroups) {
    forall control, name :: SelectedValue(scope, control, name).Some? ==>
      Accepts(groups, name, SelectedValue(scope, control, name).value)
  }

  // The value of the first listed control that mentions the parameter.
  ghost function ValueFor(scope: AssessmentScope, controls: seq<string>, name: string): string {
    if controls == [] then "" else
      match SelectedValue(scope, controls[0], name)
      case Some(v) => v
      case None => ValueFor(scope, controls[1..], name)
  }

  ghost function RelatedIds(sels: seq<Selection>): seq<string> {
    if sels == [] then [] else
      RelatedIds(sels[..|sels| - 1]) + sels[|sels| - 1].includeControls.GetOr([])
  }

  ghost function UpdateProp(scope: AssessmentScope, controls: seq<string>, prop: Property): Property {
    var v := ValueFor(scope, controls, prop.name);
    if prop.class_ == TEST_PARAMETER_CLASS && v != "" then prop.(value := v) else prop
  }

  ghost function UpdateProps(scope: AssessmentScope, controls: seq<string>, props: seq<Property>): (r: seq<Property>)
    ensures |r| == |props|
    ensures forall i :: 0 <= i < |props| ==> r[i] == UpdateProp(scope, controls, props[i])
  {
    seq(|props|, i requires 0 <= i < |props| => UpdateProp(scope, controls, props[i]))
  }

  ghost function ParameterPassActivity(scope: AssessmentScope, a: ActivityValue): ActivityValue {
    match a.props
    case None => a
    case Some(props) =>
      a.(props := Some(UpdateProps(scope, RelatedIds(a.relatedControls.GetOr([])), props)))
  }

  ghost function ParameterPassAll(scope: AssessmentScope, acts: seq<ActivityValue>): (r: seq<ActivityValue>)
    ensures |r| == |acts|
    ensures forall i :: 0 <= i < |acts| ==> r[i] == ParameterPassActivity(scope, acts[i])
  {
    seq(|acts|, i requires 0 <= i < |acts| => ParameterPassActivity(scope, acts[i]))
  }

  ghost function ParameterPass(scope: AssessmentScope, p: PlanValue): PlanValue {
    match p.activities
    case None => p
    case Some(acts) => p.(activities := Some(ParameterPassAll(scope, acts)))
  }

  // ----- All passes -----

  datatype Outcome =
    | Applied(plan: PlanValue)         // no error
    | Rejected(plan: PlanValue)        // an error about parameter values, after the first two passes
    | NilDereference                   // the run panics in the rule pass

  ghost function ApplyScope(scope: AssessmentScope, groups: RemarksGroups, p: PlanValue): Outcome {
    var p1 := ControlPass(scope, p);
    if RulePassFails(scope, p1) then NilDereference else
      var p2 := RulePass(scope, p1);
      if p2.activities.Some? && !ParametersValid(scope, groups) then Rejected(p2)
      else Applied(ParameterPass(scope, p2))
  }
}
