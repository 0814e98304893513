/** The org chart view: which forest it shows, its empty state, and the
    drag-and-drop reparenting procedure over the `activeEmployee` and
    `error` state. */
module OrgChart {
  import opened Wrappers
  import opened EmployeeTypes
  import opened Hierarchy
  import opened TreeUtils
  import opened Text

  const CYCLE_ERROR: string := "Can't assign someone to report to their own subordinate!"
  const UPDATE_FAILED: string := "Failed to update manager"
  /** Prefix of the droppable ids that each node registers. */
  const DROP_PREFIX: string := "drop-"

  // ---------------------------------------------------------------------
  // The forest shown
  // ---------------------------------------------------------------------

  /** The forest the chart shows: the team forest when a team is selected
      (a truthy `selectedTeam`), the whole company otherwise. */
  function ChartForest(employees: seq<Employee>, selectedTeam: Option<string>): seq<TreeNode>
    requires Acyclic(employees)
  {
    if Truthy(selectedTeam) then
      TeamScopedKeepsInvariants(employees, selectedTeam.value);
      EmployeeForest(TeamScoped(employees, selectedTeam.value))
    else EmployeeForest(employees)
  }

  /** The memoised `tree` of the chart. */
  method SelectTree(employees: seq<Employee>, selectedTeam: Option<string>) returns (tree: seq<TreeNode>)
    requires Acyclic(employees)
    ensures tree == ChartForest(employees, selectedTeam)
  {
    if Truthy(selectedTeam) {
      tree := BuildTeamTree(employees, selectedTeam.value);
    } else {
      tree := BuildEmployeeTree(employees);
    }
  }

  lemma {:induction false} FlattenAllLength(ts: seq<TreeNode>)
    ensures |FlattenAll(ts)| >= |ts|
  {
    if ts != [] {
      FlattenAllLength(ts[..|ts| - 1]);
    }
  }

  /** The chart is empty exactly when there is no one to show: no employee
      at all, or no member of the selected team. */
  lemma ChartEmptyIffNoOne(employees: seq<Employee>, selectedTeam: Option<string>)
    requires UniqueIds(employees) && Acyclic(employees)
    ensures ChartForest(employees, selectedTeam) == [] <==>
      if Truthy(selectedTeam) then forall e | e in employees :: e.team != selectedTeam.value
      else employees == []
  {
    var forest := ChartForest(employees, selectedTeam);
    var shown := if Truthy(selectedTeam) then TeamScoped(employees, selectedTeam.value) else employees;
    TeamScopedKeepsInvariants(employees, if Truthy(selectedTeam) then selectedTeam.value else "");
    ForestPlacesEachEmployeeOnce(shown);
    FlattenAllLength(forest);
    assert forest == [] <==> shown == [] by {
      if shown == [] {
        assert multiset(FlattenAll(forest)) == multiset{};
      }
      if forest == [] {
        assert multiset(shown) == multiset{};
      }
    }
    if Truthy(selectedTeam) {
      var team := selectedTeam.value;
      assert shown == [] <==> TeamMembers(employees, team) == [];
      if TeamMembers(employees, team) != [] {
        assert TeamMembers(employees, team)[0] in TeamMembers(employees, team);
      }
    }
  }

  /** The empty state's explanation line. */
  function EmptyStateMessage(selectedTeam: Option<string>): (message: string)
    ensures Truthy(selectedTeam) ==> message == "No employees found in " + selectedTeam.value + " team"
    ensures !Truthy(selectedTeam) ==> message == "Add employees to see the organization chart"
  {
    if Truthy(selectedTeam) then "No employees found in " + selectedTeam.value + " team"
    else "Add employees to see the organization chart"
  }

  /** When the chart is empty its message is right: with a team selected
      it names that team, which has no member; without one it asks for
      employees, and there are none. */
  lemma EmptyStateExplains(employees: seq<Employee>, selectedTeam: Option<string>)
    requires UniqueIds(employees) && Acyclic(employees)
    requires ChartForest(employees, selectedTeam) == []
    ensures Truthy(selectedTeam) ==>
      && OccursAt(EmptyStateMessage(selectedTeam), selectedTeam.value, |"No employees found in "|)
      && forall e | e in employees :: e.team != selectedTeam.value
    ensures !Truthy(selectedTeam) ==>
      employees == [] && EmptyStateMessage(selectedTeam) == "Add employees to see the organization chart"
  {
    ChartEmptyIffNoOne(employees, selectedTeam);
  }

  // ---------------------------------------------------------------------
  // Drop targets
  // ---------------------------------------------------------------------

  /** The droppable id a node registers for itself. */
  function DroppableId(id: string): string {
    DROP_PREFIX + id
  }

  predicate HasDropPrefix(raw: string) {
    |raw| >= |DROP_PREFIX| && raw[..|DROP_PREFIX|] == DROP_PREFIX
  }

  /** The target id of a drop: the over-id with one leading `drop-` removed. */
  function DropTargetId(raw: string): (id: string)
    ensures raw == (if HasDropPrefix(raw) then DROP_PREFIX else "") + id
  {
    if HasDropPrefix(raw) then raw[|DROP_PREFIX|..] else raw
  }

  /** Reading a node's droppable id back gives the node's id, whatever the
      id looks like (a leading `drop-` of the id itself survives). */
  lemma DropTargetOfDroppable(id: string)
    ensures DropTargetId(DroppableId(id)) == id
  {
    assert DroppableId(id)[..|DROP_PREFIX|] == DROP_PREFIX;
  }

  // ---------------------------------------------------------------------
  // The drag state machine
  // ---------------------------------------------------------------------

  /** What a drag end decides before any update is attempted. */
  datatype DropDecision =
    | NoTarget
    | DropOnSelf
    | CycleRejected
    | Reassign(employeeId: string, newManagerId: string)

  function Decide(employees: seq<Employee>, draggedId: string, overId: Option<string>): DropDecision
    requires Acyclic(employees)
  {
    if overId.None? then NoTarget
    else
      var target := DropTargetId(overId.value);
      if draggedId == target then DropOnSelf
      else if WouldCreateCycle(employees, draggedId, target) then CycleRejected
      else Reassign(draggedId, target)
  }

  /** A reassignment the chart lets through never makes the manager links
      cyclic, and one it rejects as a cycle always would. */
  lemma DecisionKeepsAcyclic(employees: seq<Employee>, draggedId: string, overId: Option<string>)
    requires UniqueIds(employees) && Acyclic(employees) && draggedId in Ids(employees)
    ensures Decide(employees, draggedId, overId).Reassign? ==>
      Acyclic(WithManager(employees, draggedId, Some(Decide(employees, draggedId, overId).newManagerId)))
    ensures Decide(employees, draggedId, overId) == CycleRejected ==>
      !Acyclic(WithManager(employees, draggedId, Some(DropTargetId(overId.value))))
  {
    if overId.Some? {
      WouldCreateCycleExact(employees, draggedId, DropTargetId(overId.value));
    }
  }

  /** How the awaited `onManagerChange` call settled. */
  datatype UpdateOutcome =
    | Resolved
    | RejectedWithError(message: string)  // an `Error` instance
    | RejectedWithOther                   // any other thrown value

  /** The error shown for a failed update. */
  function UpdateFailureMessage(outcome: UpdateOutcome): (message: Option<string>)
    ensures outcome.Resolved? <==> message.None?
    ensures outcome.RejectedWithError? ==> message == Some(outcome.message)
    ensures outcome.RejectedWithOther? ==> message == Some(UPDATE_FAILED)
  {
    match outcome
    case Resolved => None
    case RejectedWithError(m) => Some(m)
    case RejectedWithOther => Some(UPDATE_FAILED)
  }

  /** One call of `onManagerChange(employeeId, newManagerId)`. */
  datatype ManagerChange = ManagerChange(employeeId: string, newManagerId: string)

  /** The chart's drag state. `pendingClears` counts the three-second timers
      that will reset the error; their timing is not modelled. */
  class DragController {
    var activeEmployee: Option<TreeNode>
    var error: Option<string>
    var pendingClears: nat

    constructor ()
      ensures activeEmployee == None && error == None && pendingClears == 0
    {
      activeEmployee := None;
      error := None;
      pendingClears := 0;
    }

    /** `handleDragStart`: remember the dragged node and clear the error. */
    method HandleDragStart(employee: TreeNode)
      modifies this
      ensures activeEmployee == Some(employee) && error == None
      ensures pendingClears == old(pendingClears)
    {
      activeEmployee := Some(employee);
      error := None;
    }

    /** `handleDragEnd`: always drop the active node; with a target that is
        not the dragged node itself, either report a cycle or call
        `onManagerChange` once and show its failure. `outcome` is how that
        call settles; it is consulted only when the call is made. */
    method HandleDragEnd(employees: seq<Employee>, draggedId: string, overId: Option<string>,
                         outcome: UpdateOutcome) returns (call: Option<ManagerChange>)
      requires Acyclic(employees)
      modifies this
      ensures activeEmployee == None
      ensures call == (match Decide(employees, draggedId, overId)
                       case Reassign(a, b) => Some(ManagerChange(a, b))
                       case _ => None)
      ensures error == (match Decide(employees, draggedId, overId)
                        case CycleRejected => Some(CYCLE_ERROR)
                        case Reassign(_, _) =>
                          if outcome.Resolved? then old(error) else UpdateFailureMessage(outcome)
                        case _ => old(error))
      ensures pendingClears == old(pendingClears) +
        match Decide(employees, draggedId, overId)
        case CycleRejected => 1
        case Reassign(_, _) => if outcome.Resolved? then 0 else 1
        case _ => 0
    {
      activeEmployee := None;
      call := None;
      if overId.None? {
        return;
      }
      var dropTargetId := DropTargetId(overId.value);
      if draggedId == dropTargetId {
        return;
      }
      if WouldCreateCycle(employees, draggedId, dropTargetId) {
        error := Some(CYCLE_ERROR);
        pendingClears := pendingClears + 1;
        return;
      }
      call := Some(ManagerChange(draggedId, dropTargetId));
      if !outcome.Resolved? {
        error := UpdateFailureMessage(outcome);
        pendingClears := pendingClears + 1;
      }
    }

    /** A pending timer fires and clears the error. */
    method ClearTimerFires()
      requires pendingClears > 0
      modifies this
      ensures error == None && pendingClears == old(pendingClears) - 1
      ensures activeEmployee == old(activeEmployee)
    {
      error := None;
      pendingClears := pendingClears - 1;
    }
  }

  // ---------------------------------------------------------------------
  // The chart's sample team
  // ---------------------------------------------------------------------

  function Sample(id: string, name: string, team: string, managerId: Option<string>): Employee {
    Employee(id, name, "", team, managerId, None, None)
  }

  /** Alice and Carol at the top, Bob reporting to Alice. */
  function SampleTeam(): seq<Employee> {
    [Sample("emp-1", "Alice", "Engineering", None),
     Sample("emp-2", "Bob", "Engineering", Some("emp-1")),
     Sample("emp-3", "Carol", "Design", None)]
  }

  /** The sample team has unique ids and acyclic links. */
  lemma SampleTeamIsWellFormed()
    ensures UniqueIds(SampleTeam()) && Acyclic(SampleTeam())
  {
    assert Ranked(SampleTeam(), map["emp-1" := 0, "emp-2" := 1, "emp-3" := 0]);
  }

  /** Alice manages Bob; Carol manages no one. */
  lemma SampleReportingLines()
    requires Acyclic(SampleTeam())
    ensures Above(SampleTeam(), "emp-1", "emp-2")
    ensures !Above(SampleTeam(), "emp-3", "emp-2")
  {
    var employees := SampleTeam();
    assert Lookup(employees, "emp-2") == Some(employees[1]);
    assert Lookup(employees, "emp-1") == Some(employees[0]);
    assert !Above(employees, "emp-3", "emp-1");
  }

  /** On the sample team, dropping Alice on Bob's node is refused as a
      cycle, while dropping Carol on Bob's node reassigns Carol to Bob. */
  lemma SampleDrops()
    ensures Acyclic(SampleTeam())
    ensures Decide(SampleTeam(), "emp-1", Some("drop-emp-2")) == CycleRejected
    ensures Decide(SampleTeam(), "emp-3", Some("drop-emp-2")) == Reassign("emp-3", "emp-2")
    ensures Decide(SampleTeam(), "emp-2", Some("drop-emp-2")) == DropOnSelf
  {
    var employees := SampleTeam();
    SampleTeamIsWellFormed();
    SampleReportingLines();
    DropTargetOfDroppable("emp-2");
    assert DroppableId("emp-2") == "drop-emp-2";
    WouldCreateCycleMeaning(employees, "emp-1", "emp-2");
    WouldCreateCycleMeaning(employees, "emp-3", "emp-2");
  }
}
