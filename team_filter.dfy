/** The team filter: the select's value, how a selection becomes the
    selected team, and the options with their counts. */
module TeamFilter {
  import opened Wrappers
  import opened EmployeeTypes
  import opened Text
  import opened CountRecord

  /** `handleChange`: the empty choice ("All Teams") means no team. */
  function HandleChange(newValue: string): (team: Option<string>)
    ensures team.None? <==> newValue == ""
    ensures team.Some? ==> team.value == newValue
  {
    if newValue == "" then None else Some(newValue)
  }

  /** The select's `value ?? ''`. */
  function SelectValue(value: Option<string>): (shown: string)
    ensures value.None? ==> shown == ""
    ensures value.Some? ==> shown == value.value
  {
    match value
    case None => ""
    case Some(v) => v
  }

  /** Choosing the option that is shown gives back the selected team, no
      team included; only the empty team name comes back as no team. Every
      choice is shown back as itself. */
  lemma SelectRoundTrip(value: Option<string>, choice: string)
    ensures value != Some("") ==> HandleChange(SelectValue(value)) == value
    ensures HandleChange(SelectValue(Some(""))) == None
    ensures SelectValue(HandleChange(choice)) == choice
  {
  }

  /** `totalEmployees`: no total without counts, else the sum of them all. */
  function TotalEmployees(employeeCounts: Option<Counts>): (total: Option<nat>)
    ensures employeeCounts.None? <==> total.None?
    ensures employeeCounts.Some? ==> total == Some(Sum(employeeCounts.value))
  {
    match employeeCounts
    case None => None
    case Some(counts) => Some(Sum(counts))
  }

  /** One `<option>`: its value and its text. */
  datatype SelectOption = SelectOption(value: string, text: string)

  /** The rendered `(n)` after an option's name, or nothing. */
  function CountSuffix(count: Option<nat>): string {
    match count
    case None => ""
    case Some(n) => "(" + Numeral(n) + ")"
  }

  /** The count shown next to a team: `employeeCounts[team] || 0`, when counts are given. */
  function TeamCount(employeeCounts: Option<Counts>, team: string): Option<nat> {
    match employeeCounts
    case None => None
    case Some(counts) => Some(CountOf(counts, team))
  }

  /** The options: "All Teams" with the total, then each of TEAMS in order
      with its count. */
  function FilterOptions(employeeCounts: Option<Counts>): (options: seq<SelectOption>)
    ensures |options| == |TEAMS| + 1
    ensures options[0] == SelectOption("", "All Teams " + CountSuffix(TotalEmployees(employeeCounts)))
    ensures forall i | 0 <= i < |TEAMS| ::
      options[i + 1] == SelectOption(TeamName(TEAMS[i]),
                                     TeamName(TEAMS[i]) + " " + CountSuffix(TeamCount(employeeCounts, TeamName(TEAMS[i]))))
  {
    [SelectOption("", "All Teams " + CountSuffix(TotalEmployees(employeeCounts)))] +
    seq(|TEAMS|, i requires 0 <= i < |TEAMS| =>
      SelectOption(TeamName(TEAMS[i]), TeamName(TEAMS[i]) + " " + CountSuffix(TeamCount(employeeCounts, TeamName(TEAMS[i])))))
  }

  /** Choosing the first option clears the team; choosing any other option
      selects its team, and no two options select the same team. */
  lemma OptionsSelectEachTeamOnce(employeeCounts: Option<Counts>)
    ensures HandleChange(FilterOptions(employeeCounts)[0].value) == None
    ensures forall i | 0 <= i < |TEAMS| ::
      HandleChange(FilterOptions(employeeCounts)[i + 1].value) == Some(TeamName(TEAMS[i]))
    ensures forall i, j | 0 <= i < j < |FilterOptions(employeeCounts)| ::
      FilterOptions(employeeCounts)[i].value != FilterOptions(employeeCounts)[j].value
  {
    TeamsListsEachTeamOnce();
    var options := FilterOptions(employeeCounts);
    forall t: Team ensures TeamName(t) != "" {
      assert |TeamName(t)| > 0;
    }
  }
}
