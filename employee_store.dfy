/** The client-side employee store: the list, loading flag, error, search
    query and selected team, and the transitions of fetch, reparent,
    create and delete. Each network exchange is an input describing how
    the request settled. */
module EmployeeStore {
  import opened Wrappers
  import opened EmployeeTypes
  import opened Hierarchy

  const FETCH_FAILED: string := "Failed to fetch employees"
  const UPDATE_FAILED: string := "Failed to update manager"
  const CREATE_FAILED: string := "Failed to create employee"
  const DELETE_FAILED: string := "Failed to delete employee"

  /** A value thrown by an awaited call: an `Error` with its message, or anything else. */
  datatype Thrown = ErrorThrown(message: string) | OtherThrown

  /** The error text the store shows for a thrown value. */
  function ErrorText(thrown: Thrown, fallback: string): (text: string)
    ensures thrown.ErrorThrown? ==> text == thrown.message
    ensures thrown.OtherThrown? ==> text == fallback
  {
    match thrown
    case ErrorThrown(m) => m
    case OtherThrown => fallback
  }

  /** How a returned promise settles. */
  datatype Settled<T> = Returned(value: T) | Rejected(thrown: Thrown)

  datatype FetchResponse =
    | Fetched(employees: seq<Employee>)
    | FetchThrew(thrown: Thrown)

  datatype UpdateResponse =
    | Updated(employee: Employee)
    | UpdateNotOk(errorField: Option<string>)  // the `error` field of the reply body
    | UpdateThrew(thrown: Thrown)

  datatype CreateResponse =
    | Created(employee: Employee)
    | CreateNotOk
    | CreateThrew(thrown: Thrown)

  datatype DeleteResponse =
    | Deleted
    | DeleteNotOk
    | DeleteThrew(thrown: Thrown)

  /** The hook's state. */
  class Store {
    var employees: seq<Employee>
    var loading: bool
    var error: Option<string>
    var searchQuery: string
    var selectedTeam: Option<string>

    /** The state before the first fetch completes. */
    constructor ()
      ensures employees == [] && loading && error == None
      ensures searchQuery == "" && selectedTeam == None
    {
      employees := [];
      loading := true;
      error := None;
      searchQuery := "";
      selectedTeam := None;
    }

    /** `fetchEmployees`: replace the list and clear the error on success,
        keep the list and show the failure otherwise; loading ends either way. */
    method FetchEmployees(response: FetchResponse)
      modifies this
      ensures !loading
      ensures response.Fetched? ==> employees == response.employees && error == None
      ensures response.FetchThrew? ==>
        employees == old(employees) && error == Some(ErrorText(response.thrown, FETCH_FAILED))
      ensures searchQuery == old(searchQuery) && selectedTeam == old(selectedTeam)
    {
      loading := true;
      match response {
        case Fetched(list) =>
          employees := list;
          error := None;
        case FetchThrew(thrown) =>
          error := Some(ErrorText(thrown, FETCH_FAILED));
      }
      loading := false;
    }

    /** `updateEmployeeManager`: on success every record with the id gets the
        new manager and the reply's employee is returned; on a refused or
        failed request the list stays, the error is shown and the call
        rejects with it. */
    method UpdateEmployeeManager(employeeId: string, newManagerId: Option<string>, response: UpdateResponse)
      returns (result: Settled<Employee>)
      modifies this
      ensures response.Updated? ==>
        && employees == WithManager(old(employees), employeeId, newManagerId)
        && error == old(error) && result == Returned(response.employee)
      ensures response.UpdateNotOk? ==>
        var message := if Truthy(response.errorField) then response.errorField.value else UPDATE_FAILED;
        employees == old(employees) && error == Some(message) && result == Rejected(ErrorThrown(message))
      ensures response.UpdateThrew? ==>
        && employees == old(employees) && error == Some(ErrorText(response.thrown, UPDATE_FAILED))
        && result == Rejected(response.thrown)
      ensures loading == old(loading) && searchQuery == old(searchQuery) && selectedTeam == old(selectedTeam)
    {
      var thrown: Thrown;
      match response {
        case Updated(employee) =>
          employees := WithManager(employees, employeeId, newManagerId);
          return Returned(employee);
        case UpdateNotOk(errorField) =>
          thrown := ErrorThrown(if Truthy(errorField) then errorField.value else UPDATE_FAILED);
        case UpdateThrew(t) =>
          thrown := t;
      }
      error := Some(ErrorText(thrown, UPDATE_FAILED));
      result := Rejected(thrown);
    }

    /** `createEmployee`: on success the reply's employee is appended and
        returned; otherwise the list stays and the failure is shown and thrown. */
    method CreateEmployee(response: CreateResponse) returns (result: Settled<Employee>)
      modifies this
      ensures response.Created? ==>
        employees == old(employees) + [response.employee] && error == old(error) && result == Returned(response.employee)
      ensures response.CreateNotOk? ==>
        employees == old(employees) && error == Some(CREATE_FAILED) && result == Rejected(ErrorThrown(CREATE_FAILED))
      ensures response.CreateThrew? ==>
        && employees == old(employees) && error == Some(ErrorText(response.thrown, CREATE_FAILED))
        && result == Rejected(response.thrown)
      ensures loading == old(loading) && searchQuery == old(searchQuery) && selectedTeam == old(selectedTeam)
    {
      var thrown: Thrown;
      match response {
        case Created(employee) =>
          employees := employees + [employee];
          return Returned(employee);
        case CreateNotOk =>
          thrown := ErrorThrown(CREATE_FAILED);
        case CreateThrew(t) =>
          thrown := t;
      }
      error := Some(ErrorText(thrown, CREATE_FAILED));
      result := Rejected(thrown);
    }

    /** `deleteEmployee`: on success every record with the id is removed;
        otherwise the list stays and the failure is shown and thrown. */
    method DeleteEmployee(employeeId: string, response: DeleteResponse) returns (result: Settled<()>)
      modifies this
      ensures response.Deleted? ==>
        employees == WithoutEmployee(old(employees), employeeId) && error == old(error) && result == Returned(())
      ensures response.DeleteNotOk? ==>
        employees == old(employees) && error == Some(DELETE_FAILED) && result == Rejected(ErrorThrown(DELETE_FAILED))
      ensures response.DeleteThrew? ==>
        && employees == old(employees) && error == Some(ErrorText(response.thrown, DELETE_FAILED))
        && result == Rejected(response.thrown)
      ensures loading == old(loading) && searchQuery == old(searchQuery) && selectedTeam == old(selectedTeam)
    {
      var thrown: Thrown;
      match response {
        case Deleted =>
          employees := WithoutEmployee(employees, employeeId);
          return Returned(());
        case DeleteNotOk =>
          thrown := ErrorThrown(DELETE_FAILED);
        case DeleteThrew(t) =>
          thrown := t;
      }
      error := Some(ErrorText(thrown, DELETE_FAILED));
      result := Rejected(thrown);
    }

    method SetSearchQuery(query: string)
      modifies this
      ensures searchQuery == query
      ensures employees == old(employees) && loading == old(loading) && error == old(error)
      ensures selectedTeam == old(selectedTeam)
    {
      searchQuery := query;
    }

    method SetSelectedTeam(team: Option<string>)
      modifies this
      ensures selectedTeam == team
      ensures employees == old(employees) && loading == old(loading) && error == old(error)
      ensures searchQuery == old(searchQuery)
    {
      selectedTeam := team;
    }
  }
}
