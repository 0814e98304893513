/** The employee list page: the filtered list, the per-team counts it
    hands to the team filter, and which view it shows. */
module EmployeeListPage {
  import opened Wrappers
  import opened EmployeeTypes
  import opened Text
  import opened CountRecord
  import opened TeamFilter

  /** `emp.email?.toLowerCase() || ''`. */
  function EmailText(email: Option<string>): string {
    match email
    case None => ""
    case Some(address) => Lower(address)
  }

  /** The name, email or designation contains the query, ignoring case. */
  predicate MatchesSearch(e: Employee, searchQuery: string) {
    var q := Lower(searchQuery);
    Includes(Lower(e.name), q) || Includes(EmailText(e.email), q) || Includes(Lower(e.designation), q)
  }

  /** No team selected (a falsy `selectedTeam`), or the employee's team. */
  predicate MatchesTeam(e: Employee, selectedTeam: Option<string>) {
    !Truthy(selectedTeam) || e.team == selectedTeam.value
  }

  /** `filteredEmployees`. */
  function FilteredEmployees(employees: seq<Employee>, searchQuery: string, selectedTeam: Option<string>): seq<Employee> {
    Filter(employees, (e: Employee) => MatchesSearch(e, searchQuery) && MatchesTeam(e, selectedTeam))
  }

  /** The filtered list keeps, in order, exactly the employees whose name,
      email (a missing one read as empty) or designation contains the query
      ignoring case, and whose team is the selected one if any; an empty
      query with no team selected keeps everyone. */
  lemma FilteredEmployeesMeaning(employees: seq<Employee>, searchQuery: string, selectedTeam: Option<string>)
    ensures forall e :: e in FilteredEmployees(employees, searchQuery, selectedTeam) <==>
      && e in employees
      && (|| Includes(Lower(e.name), Lower(searchQuery))
          || (e.email.Some? && Includes(Lower(e.email.value), Lower(searchQuery)))
          || (e.email.None? && searchQuery == "")
          || Includes(Lower(e.designation), Lower(searchQuery)))
      && (selectedTeam.None? || selectedTeam.value == "" || e.team == selectedTeam.value)
    ensures SubList(FilteredEmployees(employees, searchQuery, selectedTeam), employees)
    ensures searchQuery == "" && !Truthy(selectedTeam) ==> FilteredEmployees(employees, searchQuery, selectedTeam) == employees
  {
    var p := (e: Employee) => MatchesSearch(e, searchQuery) && MatchesTeam(e, selectedTeam);
    FilterIsSubList(employees, p);
    forall e: Employee | e.email.None? ensures Includes(EmailText(e.email), Lower(searchQuery)) <==> searchQuery == "" {
      if searchQuery != "" {
        assert |Lower(searchQuery)| > 0;
      } else {
        IncludesEmpty("");
      }
    }
    if searchQuery == "" {
      forall e: Employee ensures MatchesSearch(e, searchQuery) {
        IncludesEmpty(Lower(e.name));
      }
    }
  }

  /** `employeeCounts`: a loop over the employees adding one to their team's count. */
  method EmployeeCounts(employees: seq<Employee>) returns (counts: Counts)
    ensures counts == Tally(TeamColumn(employees))
    ensures Keys(counts) == Distinct(TeamColumn(employees))
    ensures forall t :: CountOf(counts, t) == multiset(TeamColumn(employees))[t]
    ensures Sum(counts) == |employees|
  {
    var teams := TeamColumn(employees);
    counts := [];
    for k := 0 to |employees|
      invariant counts == Tally(teams[..k])
    {
      assert teams[..k + 1][..k] == teams[..k];
      counts := Increment(counts, employees[k].team);
    }
    assert teams[..|employees|] == teams;
    TallyMeaning(teams);
  }

  /** What the page shows. */
  datatype PageView =
    | LoadingView
    | ErrorView(text: string)
    | ListView(employees: seq<Employee>, employeeCounts: Counts)

  function Page(loading: bool, error: Option<string>, employees: seq<Employee>,
                searchQuery: string, selectedTeam: Option<string>): PageView
  {
    if loading then LoadingView
    else if Truthy(error) then ErrorView("Error: " + error.value)
    else ListView(FilteredEmployees(employees, searchQuery, selectedTeam), Tally(TeamColumn(employees)))
  }

  /** Loading wins over an error and an error over the list; the list is
      shown only when neither applies. */
  lemma PagePrecedence(loading: bool, error: Option<string>, employees: seq<Employee>,
                       searchQuery: string, selectedTeam: Option<string>)
    ensures var view := Page(loading, error, employees, searchQuery, selectedTeam);
      && (view.LoadingView? <==> loading)
      && (view.ErrorView? <==> !loading && error.Some? && error.value != "")
      && (view.ErrorView? ==> view.text == "Error: " + error.value)
      && (view.ListView? <==> !loading && (error.None? || error.value == ""))
  {
  }

  /** The "All Teams" total the page's counts give the filter is the number
      of employees, and each team's option shows how many employees it has. */
  lemma FilterShowsPageCounts(employees: seq<Employee>)
    ensures TotalEmployees(Some(Tally(TeamColumn(employees)))) == Some(|employees|)
    ensures forall t :: TeamCount(Some(Tally(TeamColumn(employees))), t) == Some(multiset(TeamColumn(employees))[t])
  {
    TallyMeaning(TeamColumn(employees));
  }
}
