# Verified model of complyctl's scoping and tailoring

complyctl turns OSCAL content into assessment plans and, through its OpenSCAP plugin, into XCCDF
tailoring files. This Dafny project models the two transformations at its centre and three small
text routines, and proves what they mean for every input.

**Scoping** (`ScopeRules`, `ScopeEngine`, `RuleEngine`, `ParameterEngine`). An assessment scope lists
controls, with rules to include, exclude and waive, and parameter values. `ApplyScope` runs three
passes over a plan in place: it restricts control selections to the scope, removes controls for
which an activity's rule is excluded, and writes parameter values after validating all of them.
`Oscal` holds the plan's records as classes; `Value()` is a record's content. `ScopeRules` says
declaratively what the passes ask for, without normalised copies or look-up maps, and every engine method is
proved to leave the plan whose value the rules give. Go visits maps in no fixed order, so a `range`
over a map takes an arbitrary remaining key: what is proved holds for every order.

- `ScopeMeanings`: the look-ups and lists of the rules by positions in the configuration and the plan.
- `ScopeTheorems`: the closed form of the passes, the markers, and when a run panics.
- `ScopeLaws`: a run activity by activity; a second run changes nothing but repeated waived markers.
- `ScopeMonotone`: what a tighter scope can and cannot change; plan-level coverage is kept.
- `OutOfScope`: where controls without an entry stay, and who is marked as skipped.
- `GlobalExclusion`: what a globally excluded rule leaves behind.
- `ParameterTheorems`, `ParameterRuns`: whose parameter value is written, and that only permitted ones are.
- `WaivedParameters`, `WaiverTheorems`: who is marked as waived; waiving changes nothing but markers.
- `DefaultSettings`, `ScopeGenerator`, `GeneratedScope`, `GeneratedRuns`: what the component definitions set for a
  framework, the default scope made of it, when the engine accepts it, and when a run with it is a no-op.
- `ScopeWitnesses`, `GeneratedWitnesses`: plans on which the findings below can be seen.

**Tailoring** (`Tailoring`, `TailoringMeanings`, `TailoringTheorems`, `TailoringMinimality`). A policy and a data-stream profile are
compiled into selects and set-values, to be replayed over the profile as XCCDF 1.2 prescribes (NIST IR 7275
Revision 4, sections 6.5 and 6.7). It is proved for which profiles and policies they mean the policy, and for
which the selects are the fewest that do; for profiles with prefixed references, each listed once, they are.

**Text** (`TextWrapping`, `ParameterAlternatives`, `OvalChecks`, on `GoStrings`): greedy wrapping is
optimal; the parsers invert their formats. Strings are sequences of Unicode scalar values, that is,
valid UTF-8; `Utf8` shows that for these Go's byte order is the order of scalar values, and that
`GoStrings.Len` counts bytes. `Positions` has the lists of `ScopeMeanings`, `TailoringMeanings` and
`DefaultSettings` in terms of the positions their elements come from.

## Findings

Where the code departs from its documentation, the model follows the code. Each finding has its exact
condition, for all inputs, and an input that shows it.

- `ApplyScope` panics on some plans (`internal/complytime/scope.go:388`): when a rule is excluded for
  an activity and for one of its steps, the activity's related controls are cleared first, and the step
  then reads through them; likewise when they are nil from the start. Exactly when: `ScopeTheorems.PanicsExactlyWhen`. Plans:
  `ScopeTheorems.ExcludedRuleWithStepPanics`.
- Deleting a control's entry from the scope is said to exclude the control from the plan
  (`docs/man/complyctl.md:104`); steps are never restricted to the scope, and keep it
  (`internal/complytime/scope.go:607`). Exactly when it is excluded: `OutOfScope.AbsentExactlyWhen`. Plan:
  `ScopeWitnesses.DeletedControlStaysInStep`.
- Deleting a control can even add controls to the plan: an excluded control comes back to a step, or keeps a step from
  being emptied, so that the step or its activity gets other controls back. Exactly when:
  `ScopeMonotone.StepGainsExactly`, `ScopeMonotone.ActivityGainsExactly`. Plans:
  `ScopeWitnesses.RemovalAddsToStep`, `RemovalRevivesStep`, `RemovalAddsToActivity`.
- Activities are said to be marked as skipped if no other controls are in scope of them (`docs/man/complyctl.md:104`); one
  selection without a control suffices, and the activity then loses the others as well. Exactly when it is as
  described: `OutOfScope.SkippedAsDescribedExactlyWhen`. Plan: `ScopeWitnesses.SkippedWithControlInScope`.
- A globally excluded rule is said to be excluded for all controls (`README.md:102`); in steps, controls
  outside the scope can keep it. Exactly when: `GlobalExclusion.ExcludedForAllExactlyWhen`. Plan:
  `ScopeWitnesses.ExcludedRuleStaysInStep`.
- The manual page (`docs/man/complyctl.md:153`) says that parameters of a waived rule are not altered; the
  code writes them, as `WaiverTheorems.WaivingOnlyMarks` shows for all plans. Exactly when the promise is kept:
  `WaivedParameters.WaivedUnalteredExactlyWhen`. Plans: `ScopeWitnesses.WaivedParameterRewritten`.
- A global waiver is said to take priority over include lists (`README.md:104`, unlike
  `docs/man/complyctl.md:149`); it does not. Exactly whom it marks: `WaivedParameters.GloballyWaivedExactlyWhen`.
  Plan: `ScopeWitnesses.IncludeListBeatsWaiver`.
- A step selection marked include-all, without an include list, counts as emptied under every scope, so that even
  the generated default scope, which includes every rule, takes the controls of its activity. Exactly when that scope
  keeps a step: `GeneratedScope.StepKeptExactlyWhen`. Plan: `ScopeWitnesses.GeneratedScopeEmptiesStep`.
- The default scope, written by a dry run to be edited and applied (`cmd/complyctl/cli/plan.go:104-130`), can be refused
  by the engine unedited, since the generator does not look at alternatives; accepted, it can overwrite parameters.
  Exactly when it is accepted, rejected or panics: `GeneratedRuns.DefaultOutcome`; exactly when it is a no-op:
  `GeneratedRuns.DefaultRunIsNoOp`. Plans: `GeneratedWitnesses.GeneratedScopeRejected`, `GeneratedScopeOverwrites`.
- A policy rule with an unprefixed namesake in the profile, or with several profile entries, can end with the wrong
  selection (`cmd/openscap-plugin/xccdf/tailoring.go:103`). Exactly when: `TailoringTheorems.SelectsMeanPolicyExactlyWhen`.
  Profiles: `TailoringTheorems.NamesakeGoesWrong`, `DisagreeingEntriesGoWrong`. Likewise for parameter values:
  `ValuesMeanPolicyExactlyWhen`, `ValueNamesakeGoesWrong`, `ConflictingValuesGoWrong`.
- Selects can be emitted that are not needed. Exactly which: `TailoringMinimality.EmittedNeededExactlyWhen`. Profile:
  `TailoringMinimality.IdleUnselect`.

## Model

| member | source | states |
|---|---|---|
| ParameterEngine.ApplyScopeToPlan | internal/complytime/scope.go:243-250 | A whole run on a plan in place: the plan and the verdict are those of the declarative rules, for every order in which maps are visited; a run panics exactly when the rules say so, and a rejected run still leaves the plan of the first two passes. |
| ScopeEngine.ApplyControlScope | internal/complytime/scope.go:254-296 | The control pass leaves the plan the rules ask for, at both levels; an activity with an emptied selection loses all related controls and gets one skipped marker per emptied selection. |
| ScopeEngine.FilterControlSelection | internal/complytime/scope.go:563-595 | A selection becomes the ascending list of the in-scope controls it listed, or all in-scope ones under include-all, nil when there is none; excluded controls are kept. |
| ScopeEngine.IntersectControls | internal/complytime/scope.go:578-585 | Visiting the scope's controls in any order collects exactly the intersection, each control once. |
| Ordering.SortIds | internal/complytime/scope.go:586-591 | Sorting distinct ids gives the one strictly ascending list of the set. |
| Ordering.LessMeaning | internal/complytime/scope.go:588-590 | The order is Go's string comparison: a comes before b exactly when at the first position where they differ its character is smaller, or it ends there. |
| Utf8.LessIsBytesLess | internal/complytime/scope.go:588-590 | On UTF-8 text this is the lexicographic order of the encoded bytes (section 3 of RFC 3629). |
| ScopeMeanings.ListsAreOrdered | internal/complytime/scope.go:586-591 | After a run, in every control list of an activity, of any two controls the earlier has the smaller character at the first difference, or ends there. |
| ScopeMeanings.ReviewedAreOrdered | internal/complytime/scope.go:586-591 | The same for the plan's own control lists. |
| RuleEngine.ApplyRuleScope | internal/complytime/scope.go:299-403 | The rule pass on activities and steps in place; it fails exactly when some emptied step finds its activity without related controls. |
| RuleEngine.Prepare | internal/complytime/scope.go:300-342 | The look-up tables hold the normalised last entry of every control; the global waive list is dropped under a global exclude-all. |
| RuleEngine.KeepsIsStays | internal/complytime/scope.go:329-340 | Normalising the lists and taking the four-way branch amounts to the declarative rule on the lists as configured. |
| RuleEngine.WaivesIsWaived | internal/complytime/scope.go:305-342 | For a control that stays, clearing waive lists changes no waiver. |
| RuleEngine.FilterControlSelectionByRule | internal/complytime/scope.go:598-645 | A selection keeps, in order, the controls for which the rule stays; nil when none is left. |
| RuleEngine.CheckWaive | internal/complytime/scope.go:657-679 | The loop with its mixed breaks finds whether some listed control has an entry and a waiver for the rule. |
| ScopeMeanings.EntryOfMeaning | internal/complytime/scope.go:310-342 | The entry that counts for a control is the last one with its id; without one there is none. |
| ScopeMeanings.StaysMeaning | internal/complytime/scope.go:607-637 | A rule stays for a control without an entry; else unless the rule or the wildcard is excluded globally or by the last entry, or that entry's non-empty include list has neither. |
| ScopeMeanings.WaivedMeaning | internal/complytime/scope.go:657-679 | A rule is waived for a control exactly when the control has an entry, and the rule or the wildcard is in the global waive list or in the waive list of the last entry. |
| ScopeMeanings.KeptInOrder | internal/complytime/scope.go:607-640 | The controls kept are those at exactly the positions where the rule stays, in the order of the list. |
| RuleEngine.RuleScopeSelection | internal/complytime/scope.go:358-371 | One activity selection: filtered, then one marker or none, and related controls cleared when emptied. |
| RuleEngine.RuleScopeStepSelection | internal/complytime/scope.go:384-396 | One step selection: an emptied one clears the step and the selections behind the activity's related controls, and dereferences nil when those are gone. |
| RuleEngine.RuleScopeActivity | internal/complytime/scope.go:347-400 | One activity with all its steps, or the nil dereference; untitled activities are left alone. |
| ParameterEngine.ApplyParameterScope | internal/complytime/scope.go:407-470 | The parameter pass: nothing is written unless every selected value is acceptable; no activities means no validation. |
| ParameterEngine.ValidateAll | internal/complytime/scope.go:506-526 | Valid exactly when every selected value of every control is accepted, in whatever order the two maps are visited. |
| ParameterEngine.FindParameterValue | internal/complytime/scope.go:492-503 | The value is that of the first related control that mentions the parameter, empty values included. |
| ParameterEngine.GetRelatedControlIds | internal/complytime/scope.go:473-489 | The controls of all selections, in order. |
| ParameterEngine.UpdateProperties | internal/complytime/scope.go:452-467 | Each test parameter with a non-empty value found is overwritten, every other property kept. |
| ScopeTheorems.SurvivorsMeaning | internal/complytime/scope.go:597-637 | The membership rule spelled out: listed, with an entry, not excluded globally or by the last entry, and not left out of a non-empty include list. |
| ScopeTheorems.SelectionAfterPasses | internal/complytime/scope.go:563-645 | Both passes over a selection give the sorted list of exactly the surviving controls, nil when there is none. |
| ScopeTheorems.ActivityAfterPasses | internal/complytime/scope.go:272-403 | Closed form of both passes over any titled activity: nil, empty or surviving related controls, and when the run panics. |
| ScopeTheorems.SingleSelection | internal/complytime/scope.go:272-372 | In a single-selection activity a control is listed afterwards exactly when it survives. |
| ScopeTheorems.MarkerAfterPasses | internal/complytime/scope.go:356-371 | A selection is skipped exactly when no control survives, waived exactly when a surviving control is waived by the lists as configured, and never both. |
| ScopeTheorems.PropsAfterPasses | internal/complytime/scope.go:276-283 | The markers an activity gains over both passes, in order, one decision per selection. |
| ScopeMeanings.SelectionMarkersInOrder | internal/complytime/scope.go:356-371 | Each selection gives one marker at most, and the markers come in the order of the selections. |
| ScopeMeanings.OutOfScopeMarkersInOrder | internal/complytime/scope.go:276-284 | One skipped marker for exactly each selection that lists no control in scope, in order. |
| ScopeMeanings.StepMarkersInOrder | internal/complytime/scope.go:384-396 | The same for the selections of a step under the rule pass. |
| ScopeTheorems.StepAfterRules | internal/complytime/scope.go:374-399 | A step after the rule pass: nil when a selection keeps no control, otherwise exactly the listed controls for which the rule stays, and its markers in order. |
| ScopeTheorems.StepListsAfter | internal/complytime/scope.go:374-399 | Which controls a step lists after the rule pass: none if a selection is emptied; otherwise the included ones for which the rule stays, and all of them under include-all, which the pass leaves alone. |
| ScopeTheorems.StepEmptiedMeaning | internal/complytime/scope.go:374-399 | A step is emptied exactly when the include list of one of its selections, nil counted as empty and include-all or not, holds no control for which the rule stays. |
| ScopeTheorems.PanicsExactlyWhen | internal/complytime/scope.go:383-390 | ApplyScope panics if and only if a titled activity loses a step selection while its related controls are absent or lost. |
| ScopeTheorems.ExcludedRuleWithStepPanics | internal/complytime/scope.go:387-388 | Such plans exist for every globally excluded rule whose activity has related selections and a step over in-scope controls. |
| ParameterTheorems.SmallestControlDecides | internal/complytime/scope.go:492-503 | Over an ascending list the smallest control that mentions the parameter decides. |
| ParameterTheorems.NoControlDecides | internal/complytime/scope.go:492-503 | Without a control that mentions the parameter nothing is found. |
| ScopeMeanings.SelectedValueMeaning | internal/complytime/scope.go:410-428 | The value configured for a parameter of a control is that of the last parameter with its name in the control's last entry that has parameters, by index; if and only if. |
| ParameterRuns.PropertyAfterRun | internal/complytime/scope.go:442-467 | After a run without an error, for every activity, with a title or without: a test parameter takes the value given by the first remaining control that mentions it, unless that is empty; every other property, and a test parameter no remaining control mentions, is kept. |
| ParameterRuns.TestParameterValue | internal/complytime/scope.go:442-467 | In a single-selection activity that loses no step the smallest remaining control that mentions the test parameter decides. |
| ScopeMeanings.DecidingControl | internal/complytime/scope.go:442-503 | With any number of selections, none of them left without a control and no step emptied: the first selection with a remaining control that mentions the test parameter, and in it the smallest such control, give the value after the run. |
| ScopeMeanings.RejectedExactlyWhen | internal/complytime/scope.go:431-437 | A run is rejected if and only if it does not panic, the plan has activities, and for some configured parameter the value that counts is none of the alternatives that some remarks group offers, and neither empty nor N/A. |
| ParameterTheorems.WritesArePermitted | internal/complytime/scope.go:431-466 | Every changed property is a test parameter, keeps its name, and its new value is "N/A", an alternative, or unrestricted. |
| ParameterTheorems.AllOrNothing | internal/complytime/scope.go:431-469 | An error means an unacceptable value was selected and no property was written; success means only permitted values were. |
| ParameterRuns.PropertyKeptExactlyWhen | internal/complytime/scope.go:442-467 | After a run without an error a property of any activity is what it was if and only if it is no test parameter, or the first remaining control that mentions it gives no value or the current one. |
| WaivedParameters.WaivedMarkerAppears | internal/complytime/scope.go:356-371 | A run adds a waived marker to an activity if and only if each of its selections has a control in scope and, for some surviving control, the rule is waived globally or by the control's entry. |
| ScopeMeanings.WaivedMarkerMeaning | internal/complytime/scope.go:356-371 | The same in terms of the configured lists: each selection lists a control with an entry, and one of them a control whose last entry and the global lists keep the rule, and name it or the wildcard among the waived rules. |
| WaivedParameters.GloballyWaivedExactlyWhen | internal/complytime/scope.go:657-679 | A globally waived rule marks exactly the activities that keep a control through exclusions and include lists. |
| WaivedParameters.WaivedUnalteredExactlyWhen | internal/complytime/scope.go:448-466 | The promise that parameters of waived rules are not altered is kept by a run if and only if, for every waived activity and test parameter, the first surviving control that mentions it gives no value or the current one. |
| WaiverTheorems.WaivingOnlyMarks | internal/complytime/scope.go:243-470 | Two scopes that differ in any waive lists, global or of single entries: both runs panic or neither, with the same verdict, and the plans differ in waived markers only, so the same parameter values are written. |
| ScopeWitnesses.WaivedParameterRewritten | internal/complytime/scope.go:448-466 | Plans and scopes, with a global waiver or one for the control: the run returns without an error, marks the activity as waived and alters its test parameter. |
| ScopeWitnesses.IncludeListBeatsWaiver | internal/complytime/scope.go:628-632 | A plan and scope: the rule is waived globally, but left out of the control's include list; the activity loses the control and is not marked as waived. |
| ScopeLaws.PassesSettle | internal/complytime/scope.go:254-403 | Whatever the first two passes leave is a fixed point of both, selection by selection. |
| ScopeLaws.Idempotent | internal/complytime/scope.go:243-470 | A second run with the same scope never panics, has the same verdict, changes no control list, related controls or parameter value, and can only append waived markers. |
| ScopeLaws.RunByActivity | internal/complytime/scope.go:243-470 | A run decomposes activity by activity. |
| ScopeMonotone.RunsAreMonotone | internal/complytime/scope.go:243-470 | Over whole runs: excluding more rules or removing controls adds no control to any selection of an activity, unless a step stops being emptied. |
| ScopeMonotone.WaiversShrink | internal/complytime/scope.go:356-396 | Over whole runs: a tighter scope gives no activity and no step a further waived marker, whatever parameters are selected. |
| ScopeMonotone.ActivityGainsExactly | internal/complytime/scope.go:384-390 | The exception, if and only if: after the run with the tighter scope an activity lists a control that it does not list after the other run exactly when the wider scope emptied a step, the tighter one empties none and leaves every selection a control, this one among them. |
| ScopeMonotone.StepGainsExactly | internal/complytime/scope.go:384-399 | A step gains a control if and only if the tighter scope empties none of its selections and either the wider scope did, and the step includes all or the control stays, or the wider scope did not, and the step includes the control, whose rule was excluded and which is no longer in scope. |
| ScopeMonotone.GainsByRemoval | internal/complytime/scope.go:607-612 | A step that gains a control includes some control, this or another, whose rule was excluded and that was removed from the scope. |
| ScopeWitnesses.RemovalAddsToStep | internal/complytime/scope.go:607-612 | Two scopes and a plan, both runs without an error: removing a control from the scope adds it to a step. |
| ScopeWitnesses.RemovalRevivesStep | internal/complytime/scope.go:384-399 | Likewise: removing a control gives a step back another control, which was neither excluded nor removed. |
| ScopeWitnesses.RemovalAddsToActivity | internal/complytime/scope.go:387-390 | Likewise: removing a control gives an activity its related controls back. |
| ScopeMonotone.StepsShrink | internal/complytime/scope.go:374-399 | Over whole runs: excluding rules without removing controls adds no control to an activity or a step, and emptied steps stay emptied. |
| OutOfScope.UnscopedInRun | internal/complytime/scope.go:254-403 | After a run no activity lists a control without an entry; a step lists it if and only if it did before and its activity has no title, or it has one, no selection of the step is emptied, and the step includes all or the control. |
| OutOfScope.AbsentExactlyWhen | internal/complytime/scope.go:254-403 | Deleting a control's entry excludes it from the plan, all levels included, if and only if no step keeps it in that way. |
| ScopeWitnesses.DeletedControlStaysInStep | internal/complytime/scope.go:607-612 | A plan under the empty scope, the run without an error: a step still lists its control. |
| OutOfScope.SkippedMarkerAppears | internal/complytime/scope.go:276-284 | A run adds a skipped marker to an activity if and only if one of its selections is left without a control, by the scope or, when it has a title, by its rule. |
| OutOfScope.SkippedLosesRelated | internal/complytime/scope.go:281-283 | An activity with such a selection ends without related controls, whatever its other selections are left with. |
| OutOfScope.SkippedAsDescribedExactlyWhen | docs/man/complyctl.md:104 | Activities are marked as skipped when no other control is left if and only if their selections are all left with a control or all without. |
| ScopeWitnesses.SkippedWithControlInScope | internal/complytime/scope.go:281-283 | A plan and scope: an activity one control of which stays is marked as skipped and loses all its controls. |
| GlobalExclusion.StaysOutOfScope | internal/complytime/scope.go:607-620 | A globally excluded rule stays for a control exactly when the control is not in scope. |
| GlobalExclusion.ExcludedRuleInRun | internal/complytime/scope.go:299-403 | After a run the activity of a globally excluded rule lists no control; a step lists one if and only if every include list of the step leaves the scope, and the step includes all, or the control, which is out of scope. |
| GlobalExclusion.ExcludedForAllExactlyWhen | internal/complytime/scope.go:299-403 | A globally excluded rule is excluded for all controls by a run if and only if each step of its activity has no selection, or one whose include list lies within the scope. |
| ScopeWitnesses.ExcludedRuleStaysInStep | internal/complytime/scope.go:607-612 | A plan and scope, the run without an error: the rule is globally excluded, and a step still lists a control. |
| ScopeMonotone.RestrictLists | internal/complytime/scope.go:563-595 | The control pass keeps in a selection, plan-level or activity, exactly the controls it listed that are in scope. |
| ScopeMonotone.CoverageKept | internal/complytime/scope.go:272-295 | If the plan reviews every control its activities relate to, include-all read as all, it still does after a run. |
| ComponentDefinitions.ExtractRemarksProperties | internal/complytime/scope.go:529-548 | The groups of all component properties by remarks. |
| ComponentDefinitions.GroupContents | internal/complytime/scope.go:529-548 | A group holds exactly the properties with its non-empty remarks, in document order. |
| ComponentDefinitions.GroupByPosition | internal/complytime/scope.go:529-548 | The group of some remarks lists, in document order, the properties at exactly those positions (definition, component, property) that have the remarks; there is a group exactly for the non-empty remarks that occur. |
| ParameterSelection.GroupAlternativesOf | internal/complytime/scope.go:719-754 | The alternatives one remarks group declares for a parameter, found through the suffix of its id property. |
| ParameterSelection.IdNameMeaning | internal/complytime/scope.go:765-768 | An id property is named Parameter_Id, or Parameter_Id_ with any suffix. |
| ParameterSelection.ListedAlternatives | internal/complytime/scope.go:719-741 | If the first id property of the parameter has a suffix, the alternatives are those in the first property named Parameter_Value_Alternatives_ and that suffix; without a suffix, in the first named Parameter_Value_Alternatives. |
| ParameterSelection.GroupAlternativesMeaning | internal/complytime/scope.go:719-754 | A group offers a value if and only if there is such a pair of properties and the value is among the alternatives of the second. |
| ParameterSelection.AcceptsMeaning | internal/complytime/scope.go:706-763 | A value is accepted if and only if it is empty or N/A, some group offers it, or no group offers any. |
| ParameterSelection.SampleSelections | internal/complytime/scope.go:719-754 | A group with two suffixed parameters, each with its own alternatives: for either exactly these, the empty value and N/A are accepted. |
| ParameterSelection.FilterParameterSelection | internal/complytime/scope.go:706-763 | For every order of the groups: accepted exactly when empty, N/A, unrestricted or in the union over all groups; on rejection the list is that union without repeats. |
| ParameterAlternatives.RemoveDuplicates | internal/complytime/scope.go:797-808 | The loop with its seen map keeps each element at its first occurrence. |
| ParameterAlternatives.DedupMeaning | internal/complytime/scope.go:797-808 | The result has the same elements, each once, in order of first occurrence. |
| ParameterAlternatives.ParseParameterAlternatives | internal/complytime/scope.go:772-794 | The splitting and trimming loop computes the key list of the text. |
| ParameterAlternatives.ParseRendered | internal/complytime/scope.go:772-794 | For any choices free of commas and colons, with keys bare or in either kind of quotes and any text as values, reading the rendered text gives the keys stripped of quotes at their ends. |
| ParameterAlternatives.ParseInverse | internal/complytime/scope.go:770-794 | The parser inverts the format: keys, bare or in either kind of quotes, come back once each in order of first occurrence, if neither they nor the values have commas or colons, they have no quotes, and bare ones no space, at their ends, and the text within the braces neither starts nor ends with one. |
| ParameterAlternatives.PairKeyMeaning | internal/complytime/scope.go:783-791 | A pair gives a key exactly when it has one colon, and something is left of the text before it without space and then quotes at its ends. |
| ParameterAlternatives.AlternativesMeaning | internal/complytime/scope.go:770-794 | For every text, well-formed or not: the alternatives are the keys of its parts between commas. |
| ParameterAlternatives.QuotedSample | internal/complytime/scope.go:770-794 | The keys of a text with single-quoted keys. |
| ParameterAlternatives.BareSample | internal/complytime/scope.go:770-794 | The keys of a text with a bare and a single-quoted key. |
| ScopeGenerator.NewAssessmentScopeFromCDs | internal/complytime/scope.go:61-151 | nil definitions are an error; otherwise the scope lists once each, in strictly ascending order, exactly the controls that some requirement of some implementation for the framework, in whichever definition and component, is for; it includes every rule, and gives a control the first value of the last implementation that sets a parameter. |
| DefaultSettings.ImplementedMeaning | internal/complytime/scope.go:79-119 | A control is implemented if and only if it has an id and there are a definition, component, implementation for the framework, and requirement, given by their positions, that is for it. |
| DefaultSettings.SettingMeaning | internal/complytime/scope.go:79-145 | Of all implementations for the framework that set a parameter of a control the lexicographically last, by definition, component and implementation, decides; without one there is no setting. |
| DefaultSettings.SetsMeaning | internal/complytime/scope.go:154-199 | An implementation sets a parameter of a control to some values if and only if a requirement for the control has a rule property with the rule of a remarks group in which an id property names the parameter, and the last set-parameter with that id and values has these values. |
| DefaultSettings.GroupRuleMeaning | internal/complytime/scope.go:174-180 | The rule of a remarks group is the value of its last rule property. |
| ScopeGenerator.ProcessSetParameters | internal/complytime/scope.go:154-199 | One implementation overrides exactly the parameters it sets and that share a remarks group with a rule of the requirement, for every order of the groups. |
| ScopeGenerator.ProcessRequirement | internal/complytime/scope.go:164-197 | The same for one requirement. |
| ScopeGenerator.ReadGroup | internal/complytime/scope.go:174-184 | A group's rule is that of its last rule property; its parameters are all its parameter id properties. |
| ScopeGenerator.BuildControlEntries | internal/complytime/scope.go:202-239 | One default entry per control, sorted, for every order of the two maps. |
| ScopeGenerator.SortEntries | internal/complytime/scope.go:234-236 | Sorting by control id keeps the entries and orders the distinct ids strictly. |
| ScopeGenerator.GeneratedUnique | internal/complytime/scope.go:61-239 | Two runs of the generator agree up to the order of a control's parameters. |
| GeneratedScope.GeneratedScopeControls | internal/complytime/scope.go:117-119 | The controls of the generated scope are exactly the controls implemented for the framework. |
| GeneratedScope.GeneratedKeepsRules | internal/complytime/scope.go:226-231 | The generated scope excludes and waives no rule for any control. |
| GeneratedScope.StepKeptExactlyWhen | internal/complytime/scope.go:374-399 | Under the generated scope a step keeps its selections if and only if each has a non-empty include list, include-all or not. |
| GeneratedScope.ActivityUnscoped | internal/complytime/scope.go:254-403 | Under the generated scope a run returns and leaves an activity its control sets, its steps and its properties if and only if its selections mean some implemented controls only and, when it has a title, its steps keep their selections. |
| GeneratedScope.GeneratedScopeIsNoOp | internal/complytime/scope.go:61-403 | Generator, control pass and rule pass compose to a no-op without a panic if and only if the plan's and its activities' selections mean some controls implemented for the framework and no others, and the step selections of titled activities have non-empty include lists. |
| GeneratedRuns.GeneratedSelects | internal/complytime/scope.go:202-231 | The value the generated scope selects for a parameter of a control is the first of those set for it; a control without any setting gets the placeholder N/A. |
| GeneratedRuns.LastSettingSelects | internal/complytime/scope.go:202-231 | By positions: the scope selects the first value of the last set-parameter, with the parameter's id and values, in the last implementation that sets the parameter of the control. |
| GeneratedRuns.GeneratedValidExactlyWhen | internal/complytime/scope.go:506-526 | The engine accepts the generated scope's values if and only if the first value of every setting is acceptable, whatever definitions it validates against. |
| GeneratedRuns.DefaultOutcome | internal/complytime/scope.go:243-470 | For every plan, the outcome of a run with the generated scope: it panics exactly on a titled activity with a step selection without include list whose related controls are missing or include a selection without implemented controls; otherwise it is rejected exactly when the plan has activities and some setting is not acceptable. |
| GeneratedRuns.DefaultRunIsNoOp | internal/complytime/scope.go:61-470 | A whole run with the generated scope succeeds and leaves the plan as it is, properties included, if and only if the plan is sound as above and, when it has activities, all settings are acceptable and every test parameter already has the default value of the first of its controls with one. |
| GeneratedWitnesses.DefaultScopeIsGenerated | internal/complytime/scope.go:61-151 | The scope generated for a definition with one control, rule, parameter and setting. |
| GeneratedWitnesses.GeneratedScopeRejected | internal/complytime/scope.go:431-434 | For such definitions whose set value is not among the alternatives: a sound plan on which the engine rejects the generated scope, and no plan with activities on which it does not fail. |
| GeneratedWitnesses.GeneratedScopeOverwrites | internal/complytime/scope.go:448-466 | For such definitions with an acceptable value: a sound plan in which the accepted run overwrites a parameter. |
| ScopeWitnesses.GeneratedScopeEmptiesStep | internal/complytime/scope.go:385-389 | For every framework with a control: the generated scope takes all controls from an activity that relates to all controls and has a step reviewing all controls. |
| ScopeWitnesses.StepLosesAll | internal/complytime/scope.go:385-389 | For every scope and plan: a run that returns leaves a titled activity an empty list of related controls, and the step none, once a step selection has no include list. |
| Tailoring.UnselectAbsentRules | cmd/openscap-plugin/xccdf/tailoring.go:78-96 | Appends an unselect for each selected profile entry whose rule the policy does not name. |
| TailoringMeanings.UnselectedInOrder | cmd/openscap-plugin/xccdf/tailoring.go:78-96 | The unselects are for exactly the positions of selected profile entries that refer to no rule of the policy, in the order of the profile. |
| Tailoring.SelectAdditionalRules | cmd/openscap-plugin/xccdf/tailoring.go:98-123 | Appends a select for each policy rule not already selected by its first profile entry, once. |
| TailoringMeanings.AddedInOrder | cmd/openscap-plugin/xccdf/tailoring.go:98-123 | The selects are for exactly the positions of policy rules that no first entry of the profile selects, each rule at its first position, in the order of the policy, with the prefixed reference. |
| TailoringMeanings.FirstSelectMeaning | cmd/openscap-plugin/xccdf/tailoring.go:98-112 | The first profile entry whose reference is the prefixed id, or the id itself when that does not start with the prefix, says whether a rule is selected already. |
| Tailoring.GetTailoringSelections | cmd/openscap-plugin/xccdf/tailoring.go:125-148 | Fails with exactly the policy rules the data stream does not have; otherwise emits both parts. |
| Tailoring.UpdateTailoringValues | cmd/openscap-plugin/xccdf/tailoring.go:150-177 | Emits for each variable the first policy value that differs from the profile's. |
| Tailoring.ParamsByPosition | cmd/openscap-plugin/xccdf/tailoring.go:150-177 | The parameters considered are those of all rules, rule by rule, each rule's in order. |
| TailoringMeanings.AddedValuesInOrder | cmd/openscap-plugin/xccdf/tailoring.go:150-177 | The set-values are for exactly the positions of parameters that differ from the first value the profile sets, each parameter at the first such position, in order. |
| TailoringMeanings.FirstValueMeaning | cmd/openscap-plugin/xccdf/tailoring.go:150-160 | The profile's value a parameter is compared with is that of the first entry that refers to it. |
| Tailoring.ValidateRuleExistence | cmd/openscap-plugin/xccdf/tailoring.go:58-66 | Finds whether the data stream has the rule. |
| Tailoring.ValidateVariableExistence | cmd/openscap-plugin/xccdf/tailoring.go:68-76 | Finds whether the data stream has the variable. |
| Tailoring.KnownRuleMeaning | cmd/openscap-plugin/xccdf/tailoring.go:58-66 | The data stream has a rule if and only if it has the id with the rule prefix, or the id itself when that does not start with the prefix. |
| Tailoring.KnownVariableMeaning | cmd/openscap-plugin/xccdf/tailoring.go:68-76 | The same for variables and the variable prefix. |
| Tailoring.PrefixedInDataStream | cmd/openscap-plugin/xccdf/tailoring.go:58-76 | If the data stream has the prefixed reference of every rule and parameter of a policy, the policy passes both look-ups. |
| Tailoring.ParameterInDataStream | cmd/openscap-plugin/xccdf/tailoring.go:68-76 | A policy with a parameter "v" passes for a data stream with the variable xccdf_org.ssgproject.content_value_v. |
| Tailoring.PolicyToTailoring | cmd/openscap-plugin/xccdf/tailoring.go:179-244 | Succeeds exactly when the data stream has every rule and every parameter of the policy, by reference, and every profile value is the selector of an option of a variable with its id; says which error comes when, and what the profile is left like. |
| Tailoring.GetValueFromOption | cmd/openscap-plugin/xccdf/datastream.go:319-330 | The search loop finds the resolved option, going on past a variable of that id without it. |
| Tailoring.ResolvedOptionIs | cmd/openscap-plugin/xccdf/datastream.go:319-330 | The resolution is the first option with the selector among all variables of that id, by index, and exists exactly when one of them has such an option. |
| Tailoring.ResolveDsVariableOptions | cmd/openscap-plugin/xccdf/datastream.go:332-341 | All values are resolved in place, or the prefix before the first that does not resolve. |
| TailoringMeanings.ResolvedMeaning | cmd/openscap-plugin/xccdf/datastream.go:332-341 | Up to the first value without an option each value is replaced by that of the first option with its selector, and all are left as they are from there on. |
| TailoringTheorems.EmittedSays | cmd/openscap-plugin/xccdf/tailoring.go:78-123 | What the emitted list says of every reference: select, unselect or nothing. |
| TailoringTheorems.SelectsMeanPolicyExactlyWhen | cmd/openscap-plugin/xccdf/tailoring.go:78-123 | For all profiles and policies: replayed over the profile, the emitted selects mean the policy if and only if the look-up by unprefixed id and first entry finds the right entries. |
| TailoringTheorems.NamesakeGoesWrong | cmd/openscap-plugin/xccdf/tailoring.go:98-121 | A profile entry without the prefix: the policy's rule of that name counts as selected, and the emitted selects do not mean the policy. |
| TailoringTheorems.DisagreeingEntriesGoWrong | cmd/openscap-plugin/xccdf/tailoring.go:102-112 | Two profile entries that select and then unselect a rule of the policy: the look-up stops at the first, and the emitted selects do not mean the policy. |
| TailoringTheorems.SelectsMeanPolicy | cmd/openscap-plugin/xccdf/tailoring.go:142-147 | They do for every profile whose references are prefixed and occur once: each rule named by profile or policy ends selected exactly when the policy names it, all others stay as they were. |
| TailoringTheorems.EmittedConsistent | cmd/openscap-plugin/xccdf/tailoring.go:78-123 | For all profiles and policies no reference is emitted both as selected and as unselected. |
| TailoringTheorems.EmittedOnceExactlyWhen | cmd/openscap-plugin/xccdf/tailoring.go:78-123 | For all profiles and policies: no reference is emitted twice if and only if the profile does not select twice a rule that the policy does not name. |
| TailoringTheorems.EmittedNeeded | cmd/openscap-plugin/xccdf/tailoring.go:88-119 | For profiles whose references are prefixed and occur once: any overrides with the policy's meaning mention every emitted reference. |
| TailoringTheorems.EmittedShortest | cmd/openscap-plugin/xccdf/tailoring.go:78-123 | For such profiles: no shorter list of overrides has the policy's meaning. |
| TailoringMinimality.EmittedNeededExactlyWhen | cmd/openscap-plugin/xccdf/tailoring.go:78-123 | For all profiles and policies: an emitted reference is mentioned by all overrides with the policy's meaning if and only if the profile alone does not already leave the rule as the policy wants it. |
| TailoringMinimality.EmittedShortestExactlyWhen | cmd/openscap-plugin/xccdf/tailoring.go:78-123 | For all profiles and policies on which the look-ups are right: no shorter list of overrides has the policy's meaning if and only if no absent rule is selected twice, no policy rule ends selected after a first entry that does not select it, and no selected entry of another rule is unselected later. |
| TailoringMinimality.IdleUnselect | cmd/openscap-plugin/xccdf/tailoring.go:88-94 | A profile that selects and then unselects a rule: the empty list already means the empty policy, and an unselect is emitted. |
| TailoringTheorems.FirstDifferingExists | cmd/openscap-plugin/xccdf/tailoring.go:153-173 | The emitted value is given by the first parameter of the policy that differs from the profile. |
| TailoringTheorems.ValuesAfterTailoring | cmd/openscap-plugin/xccdf/tailoring.go:150-177 | Replaying the set-values: the first differing policy value wins, every other variable keeps its profile value. |
| TailoringTheorems.ValuesMeanPolicyExactlyWhen | cmd/openscap-plugin/xccdf/tailoring.go:150-177 | Every policy parameter ends with its policy value if and only if no parameter has two values and the profile's first and last values agree where nothing is emitted. |
| TailoringTheorems.ValueNamesakeGoesWrong | cmd/openscap-plugin/xccdf/tailoring.go:153-173 | A profile entry without the prefix that has the policy's value: nothing is emitted and the policy's variable stays unset. |
| TailoringTheorems.ConflictingValuesGoWrong | cmd/openscap-plugin/xccdf/tailoring.go:153-173 | A policy that gives one parameter two values: not both are the variable's. |
| TailoringTheorems.TailoringMeansPolicy | cmd/openscap-plugin/xccdf/tailoring.go:179-203 | Selects and set-values together, over the option-resolved profile: the policy's rules, the policy's values, and the resolved value for every other variable. |
| TextWrapping.WrapText | internal/terminal/table.go:50-64 | The output has the same words in the same order; no line exceeds the width in bytes, the space after it not counted, unless it is one long word; a line is broken only before a word that would not fit; no other layout of the words has fewer such lines; and each space, newline and end of the text. |
| TextWrapping.FieldsAreWords | internal/terminal/table.go:51 | A text of words with non-empty runs of space between them has exactly these words. |
| TextWrapping.TextIsFields | internal/terminal/table.go:51 | Every text is its words with such runs between them, and any space at its ends. |
| GoStrings.SpaceCodes | internal/terminal/table.go:51 | Which characters separate words, by code: tab to carriage return, space, and the other Unicode spaces. |
| Utf8.LenIsBytes | internal/terminal/table.go:56 | The length of a word counts the bytes of its UTF-8 encoding (section 3 of RFC 3629). |
| TextWrapping.TightIsShortest | internal/terminal/table.go:55-62 | A partition in which no line could take its successor's first word has the least number of lines, for every width and also with over-long words. |
| TextWrapping.ShortestLayout | internal/terminal/table.go:50-64 | No text with the same words, whatever its spacing, has fewer fitting lines. |
| TextWrapping.WordsOfLines | internal/terminal/table.go:51-63 | Splitting a text into lines and then words gives its words in order. |
| TextWrapping.LayoutLines | internal/terminal/table.go:57-63 | The lines of the output carry exactly the words of the greedy partition. |
| OvalChecks.ShortNameIsLazyMatch | cmd/openscap-plugin/server/server.go:29-31 | A name is found exactly when the regular expression matches, and it is the shortest of all matches. |
| OvalChecks.ParseInverse | cmd/openscap-plugin/server/server.go:197-210 | Parsing inverts the naming scheme prefix:ns-name:tail, surrounding space included. |
| OvalChecks.ParsedNames | cmd/openscap-plugin/server/server.go:197-210 | Every parsed name is colon-free and comes from such an identifier; both errors happen exactly when they should. |
| OvalChecks.Checks.LoadPolicy | cmd/openscap-plugin/server/server.go:182-188 | Adds exactly the checks of the policy's rules. |
| OvalChecks.GetResults | cmd/openscap-plugin/server/server.go:109-170 | One observation, in order, for each result about a check of the policy, with its mapped status, and none for others; an error exactly when some result cannot be read. |
| OvalChecks.StatusMeaning | cmd/openscap-plugin/server/server.go:212-229 | The statuses of result texts: pass and fixed pass, fail fails, notselected, notapplicable, error and unknown are errors, and no other text has one. |
| OvalChecks.ReportsMeaning | cmd/openscap-plugin/server/server.go:116-140 | An observation is for a result whose rule is known, whose first OVAL check refers to a check of the policy, and whose text has the observation's status. |
| OvalChecks.BreaksMeaning | cmd/openscap-plugin/server/server.go:127-138 | The evaluation stops exactly on a first OVAL check that refers to no readable name, or to a check of the policy when the result has no text with a status. |

## Left out

- Storage shared between two selections or steps: the plan's records are assumed distinct, as they are in a plan read from a file.
- The records behind `RelatedControls` and `ReviewedControls` are represented by their lists of selections; a cleared list behind a remaining pointer is the empty list.
- Statement ids of selected controls: a selected control is its id; the control pass drops the statement ids it rebuilds.
- Fields no pass reads or writes: UUIDs, descriptions, links, remarks of plans, and the loop over reviewed control properties at `internal/complytime/scope.go:262-271`, which has no effect.
- A nil slice that is not behind a pointer is the empty list; the program treats the two alike.
- Control titles, log and error texts, including the alternatives quoted in the message of a failed validation.
- The partly updated plan after a panic: nothing is claimed about it.
- ScopeGenerator.SelectParameters: the order of a control's parameters is that of a Go map, hence arbitrary.
- Invalid UTF-8 in strings.
- Looking up the framework property in an implementation's properties, done by the OSCAL SDK: an implementation carries the result.
- Reading data streams, ARF files and XML nodes: rules, variables, profiles and rule results are arbitrary records; hosts, timestamps and evidence links of observations are left out.
- Profile titles, tailoring ids and versions, and the XML output.
- Command-line, configuration, plugin management, scanning and remediation code.
