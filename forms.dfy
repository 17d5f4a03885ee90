/**
 * The request form of the contribution analysis, and the batch
 * configuration's per-repository options that produce one
 * (`RepositoryOptions.toForm`).
 */
module Forms {
  import opened Common

  /** `ContributionsSummaryForm`: its two flags are primitive booleans. */
  datatype ContributionsSummaryForm = ContributionsSummaryForm(
    organisation: Option<string>,
    repository: Option<string>,
    aggregation: Option<string>,
    initialiseUnknown: bool,
    excludeGUI: bool,
    startDate: Option<string>,
    endDate: Option<string>)

  /** `RepositoryOptions`: every field is boxed and may be null. */
  datatype RepositoryOptions = RepositoryOptions(
    exactMatch: Option<bool>,
    name: Option<string>,
    excludeGUI: Option<bool>,
    startDate: Option<string>,
    endDate: Option<string>)

  /**
   * `toForm(organisation)`: a by-user request for the named repository that
   * never initialises an unknown one, copying the GUI flag and the dates.
   * Unboxing a null `excludeGUI` into the form's primitive flag fails, shown
   * as `None`.
   */
  function ToForm(o: RepositoryOptions, organisation: Option<string>): (r: Option<ContributionsSummaryForm>)
    ensures r.None? <==> o.excludeGUI.None?
    ensures r.Some? ==> r.value.aggregation == Some("BY_USER") && !r.value.initialiseUnknown
    ensures r.Some? ==> r.value.organisation == organisation && r.value.repository == o.name
    ensures r.Some? ==> r.value.excludeGUI == o.excludeGUI.value
    ensures r.Some? ==> r.value.startDate == o.startDate && r.value.endDate == o.endDate
  {
    if o.excludeGUI.None? then None
    else Some(ContributionsSummaryForm(organisation, o.name, Some("BY_USER"), false, o.excludeGUI.value, o.startDate, o.endDate))
  }

  /** `toForm(organisation, fullName)`: the same form, differing only in naming the repository `fullName`. */
  function ToFormNamed(o: RepositoryOptions, organisation: Option<string>, fullName: Option<string>): (r: Option<ContributionsSummaryForm>)
    ensures r.Some? <==> ToForm(o, organisation).Some?
    ensures r.Some? ==> r.value.repository == fullName && r.value.(repository := o.name) == ToForm(o, organisation).value
  {
    var f := ToForm(o, organisation);
    if f.None? then None else Some(f.value.(repository := fullName))
  }
}
