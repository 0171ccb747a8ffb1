/** The part of the OSCAL models the program reads and writes.

    The assessment plan is updated in place, so its mutable records are classes; Value()
    is the content of a record as a value, and every statement about a pass relates the
    value after it to the value before it. A Go slice of structs is a sequence of distinct
    objects here, and a nil pointer to a slice is None. A slice that is not behind a pointer
    has no nil case: the program treats a nil and an empty one alike. */
module Oscal {
  import opened Wrappers

  const TRESTLE_NAMESPACE := "https://oscal-compass.github.io/compliance-trestle/schemas/oscal"
  const RULE_ID_PROP := "Rule_Id"
  const PARAMETER_ID_PROP := "Parameter_Id"
  const TEST_PARAMETER_CLASS := "test-parameter"
  const SKIPPED_RULES_PROPERTY := "skipped"
  const WAIVED_RULES_PROPERTY := "waived"

  datatype Property = Property(name: string, value: string, ns: string, class_: string, remarks: string)

  // ----- Values -----

  datatype Selection = Selection(
    includeAll: bool,
    includeControls: Option<seq<string>>,
    excludeControls: Option<seq<string>>)

  datatype StepValue = StepValue(
    reviewedControls: Option<seq<Selection>>,
    props: Option<seq<Property>>)

  datatype ActivityValue = ActivityValue(
    title: string,
    relatedControls: Option<seq<Selection>>,
    steps: seq<StepValue>,
    props: Option<seq<Property>>)

  datatype PlanValue = PlanValue(
    reviewedControls: seq<Selection>,
    activities: Option<seq<ActivityValue>>)

  // ----- Records -----

  class AssessedControls {
    var includeAll: bool
    var includeControls: Option<seq<string>>
    var excludeControls: Option<seq<string>>

    ghost function Value(): Selection
      reads this
    {
      Selection(includeAll, includeControls, excludeControls)
    }
  }

  ghost function Selections(sels: seq<AssessedControls>): (r: seq<Selection>)
    reads sels
    ensures |r| == |sels|
    ensures forall i :: 0 <= i < |sels| ==> r[i] == sels[i].Value()
  {
    seq(|sels|, i requires 0 <= i < |sels| reads sels => sels[i].Value())
  }

  ghost predicate Distinct<T>(s: seq<T>) {
    forall i, j :: 0 <= i < j < |s| ==> s[i] != s[j]
  }

  class Step {
    var reviewedControls: Option<seq<AssessedControls>>
    var props: Option<seq<Property>>

    function Reviewed(): seq<AssessedControls>
      reads this
    {
      reviewedControls.GetOr([])
    }

    ghost function Value(): StepValue
      reads this, Reviewed()
    {
      StepValue(
        match reviewedControls case None => None case Some(sels) => Some(Selections(sels)),
        props)
    }
  }

  class Activity {
    const title: string
    const steps: seq<Step>
    var relatedControls: Option<seq<AssessedControls>>
    var props: Option<seq<Property>>

    constructor (title: string, steps: seq<Step>,
                 relatedControls: Option<seq<AssessedControls>>, props: Option<seq<Property>>)
      ensures this.title == title && this.steps == steps
      ensures this.relatedControls == relatedControls && this.props == props
    {
      this.title, this.steps := title, steps;
      this.relatedControls, this.props := relatedControls, props;
    }

    function Related(): seq<AssessedControls>
      reads this
    {
      relatedControls.GetOr([])
    }

    // Every selection of the activity and of its steps.
    ghost function Sels(): (r: set<AssessedControls>)
      reads this, steps
      ensures forall c :: c in Related() ==> c in r
      ensures forall i, c :: 0 <= i < |steps| && c in steps[i].Reviewed() ==> c in r
    {
      (set c | c in Related()) + (set i, c | 0 <= i < |steps| && c in steps[i].Reviewed() :: c)
    }

    // No two records of the activity share storage.
    ghost predicate Valid()
      reads this, steps
    {
      && Distinct(Related())
      && Distinct(steps)
      && (forall i :: 0 <= i < |steps| ==> Distinct(steps[i].Reviewed()))
      && (forall i, c :: 0 <= i < |steps| && c in steps[i].Reviewed() ==> c !in Related())
      && (forall i, j, c :: 0 <= i < j < |steps| && c in steps[i].Reviewed() ==> c !in steps[j].Reviewed())
    }

    ghost function StepValues(): (r: seq<StepValue>)
      reads this, steps, Sels()
      ensures |r| == |steps|
      ensures forall i :: 0 <= i < |steps| ==> r[i] == steps[i].Value()
    {
      seq(|steps|, i requires 0 <= i < |steps| reads this, steps, Sels() => steps[i].Value())
    }

    ghost function RelatedValues(): Option<seq<Selection>>
      reads this, Related()
    {
      match relatedControls case None => None case Some(sels) => Some(Selections(sels))
    }

    ghost function Value(): ActivityValue
      reads this, steps, Sels()
    {
      ActivityValue(title, RelatedValues(), StepValues(), props)
    }
  }

  // ----- A plan's activities, and that no two of them share storage -----

  ghost function AllSteps(acts: seq<Activity>): (r: set<Step>)
    ensures forall i, s :: 0 <= i < |acts| && s in acts[i].steps ==> s in r
  {
    set i, s | 0 <= i < |acts| && s in acts[i].steps :: s
  }

  ghost function AllSels(acts: seq<Activity>): (r: set<AssessedControls>)
    reads acts, AllSteps(acts)
    ensures forall i, c :: 0 <= i < |acts| && c in acts[i].Sels() ==> c in r
  {
    set i, c | 0 <= i < |acts| && c in acts[i].Sels() :: c
  }

  ghost predicate Separate(acts: seq<Activity>)
    reads acts, AllSteps(acts)
  {
    && Distinct(acts)
    && (forall i :: 0 <= i < |acts| ==> acts[i].Valid())
    && (forall i, j, s :: 0 <= i < j < |acts| && s in acts[i].steps ==> s !in acts[j].steps)
    && (forall i, j :: 0 <= i < j < |acts| ==> acts[i].Sels() !! acts[j].Sels())
  }

  ghost function ActivityValues(acts: seq<Activity>): (r: seq<ActivityValue>)
    reads acts, AllSteps(acts), AllSels(acts)
    ensures |r| == |acts|
    ensures forall i :: 0 <= i < |acts| ==> r[i] == acts[i].Value()
  {
    seq(|acts|, i requires 0 <= i < |acts| reads acts, AllSteps(acts), AllSels(acts) => acts[i].Value())
  }

  class AssessmentPlan {
    const reviewedControls: seq<AssessedControls>
    // None when the plan has no local definitions or they have no activities.
    const activities: Option<seq<Activity>>

    constructor (reviewedControls: seq<AssessedControls>, activities: Option<seq<Activity>>)
      ensures this.reviewedControls == reviewedControls && this.activities == activities
    {
      this.reviewedControls, this.activities := reviewedControls, activities;
    }

    function Activities(): seq<Activity> {
      activities.GetOr([])
    }

    ghost predicate Valid()
      reads Activities(), AllSteps(Activities())
    {
      && Distinct(reviewedControls)
      && Separate(Activities())
      && (forall c :: c in reviewedControls ==> c !in AllSels(Activities()))
    }

    ghost function Value(): PlanValue
      reads reviewedControls, Activities(), AllSteps(Activities()), AllSels(Activities())
    {
      PlanValue(
        Selections(reviewedControls),
        if activities.None? then None else Some(ActivityValues(Activities())))
    }
  }
}
