/** Which parameter values the parameter pass writes. */
module ParameterTheorems {
  import opened Wrappers
  import opened Ordering
  import opened Oscal
  import opened ComponentDefinitions
  import opened ParameterSelection
  import opened ScopeRules

  // ----- Whose value is written -----

  ghost predicate Mentions(scope: AssessmentScope, control: string, name: string) {
    SelectedValue(scope, control, name).Some?
  }

  // In an ascending list the smallest control that mentions the parameter decides.
  lemma {:induction false} SmallestControlDecides(scope: AssessmentScope, ids: seq<string>, name: string, c: string)
    requires StrictlyAscending(ids)
    requires c in ids && Mentions(scope, c, name)
    requires forall d :: d in ids && Mentions(scope, d, name) ==> d == c || Less(c, d)
    ensures ValueFor(scope, ids, name) == SelectedValue(scope, c, name).value
  {
    if Mentions(scope, ids[0], name) {
      HeadIsLeast(ids, c);
      assert ids[0] in ids;
      if ids[0] != c {
        LessTransitive(c, ids[0], c);
        LessIrreflexive(c);
      }
    } else {
      TailElements(ids);
      assert forall d :: d in ids[1..] ==> d in ids;
      assert c in ids[1..];
      SmallestControlDecides(scope, ids[1..], name, c);
    }
  }

  // Without a control that mentions the parameter, nothing is written.
  lemma {:induction false} NoControlDecides(scope: AssessmentScope, ids: seq<string>, name: string)
    requires forall c :: c in ids ==> !Mentions(scope, c, name)
    ensures ValueFor(scope, ids, name) == ""
  {
    if ids != [] {
      assert ids[0] in ids;
      NoControlDecides(scope, ids[1..], name);
    }
  }

  // ----- Only permitted values are written -----

  lemma {:induction false} ValueComesFromAControl(scope: AssessmentScope, ids: seq<string>, name: string)
    ensures ValueFor(scope, ids, name) == "" ||
            exists c :: c in ids && SelectedValue(scope, c, name) == Some(ValueFor(scope, ids, name))
  {
    if ids != [] && SelectedValue(scope, ids[0], name) == None {
      ValueComesFromAControl(scope, ids[1..], name);
    }
  }

  ghost predicate Permitted(groups: RemarksGroups, name: string, value: string) {
    || value == NOT_APPLICABLE
    || IsAlternative(groups, name, value)
    || !Restricted(groups, name)
  }

  // A property the pass changes is a test parameter; it keeps its name, and its new value is
  // "N/A", one of the parameter's alternatives, or the parameter has no alternatives at all.
  lemma WritesArePermitted(scope: AssessmentScope, groups: RemarksGroups, controls: seq<string>, prop: Property)
    requires ParametersValid(scope, groups)
    ensures var after := UpdateProp(scope, controls, prop);
            after != prop ==>
              && prop.class_ == TEST_PARAMETER_CLASS
              && after == prop.(value := after.value)
              && after.value != ""
              && Permitted(groups, prop.name, after.value)
              && exists c :: c in controls && SelectedValue(scope, c, prop.name) == Some(after.value)
  {
    ValueComesFromAControl(scope, controls, prop.name);
  }

  // A run that reports invalid values writes none of them: its plan is the one the first two
  // passes leave, whereas a run without an error has found every selected value acceptable.
  lemma AllOrNothing(scope: AssessmentScope, groups: RemarksGroups, p: PlanValue)
    requires !RulePassFails(scope, ControlPass(scope, p)) && p.activities.Some?
    ensures var two := RulePass(scope, ControlPass(scope, p));
            match ApplyScope(scope, groups, p)
            case NilDereference => false
            case Rejected(q) =>
              q == two &&
              (exists c, name :: Mentions(scope, c, name) && !Accepts(groups, name, SelectedValue(scope, c,
                  name).value))
            case Applied(q) =>
              && q.reviewedControls == two.reviewedControls
              && |q.activities.value| == |two.activities.value|
              && forall i :: 0 <= i < |q.activities.value| ==>
                   WrittenOnlyPermitted(groups, two.activities.value[i], q.activities.value[i])
  {
    if ParametersValid(scope, groups) {
      var two := RulePass(scope, ControlPass(scope, p)).activities.value;
      forall i | 0 <= i < |two|
        ensures WrittenOnlyPermitted(groups, two[i], ParameterPassActivity(scope, two[i]))
      {
        UpdatesArePermitted(scope, groups, two[i]);
      }
    }
  }

  ghost predicate PropPermitted(groups: RemarksGroups, before: Property, after: Property) {
    after == before ||
    (before.class_ == TEST_PARAMETER_CLASS && after == before.(value := after.value) &&
     Permitted(groups, before.name, after.value))
  }

  // Nothing but property values differs, and each differing value is permitted.
  ghost predicate WrittenOnlyPermitted(groups: RemarksGroups, before: ActivityValue, after: ActivityValue) {
    && after == before.(props := after.props)
    && (after.props.None? <==> before.props.None?)
    && (before.props.Some? ==>
          |after.props.value| == |before.props.value| &&
          forall j :: 0 <= j < |before.props.value| ==>
            PropPermitted(groups, before.props.value[j], after.props.value[j]))
  }

  lemma UpdatesArePermitted(scope: AssessmentScope, groups: RemarksGroups, a: ActivityValue)
    requires ParametersValid(scope, groups)
    ensures WrittenOnlyPermitted(groups, a, ParameterPassActivity(scope, a))
  {
    if a.props.Some? {
      var ids := RelatedIds(a.relatedControls.GetOr([]));
      forall j | 0 <= j < |a.props.value|
        ensures PropPermitted(groups, a.props.value[j], UpdateProp(scope, ids, a.props.value[j]))
      {
        WritesArePermitted(scope, groups, ids, a.props.value[j]);
      }
    }
  }
}
