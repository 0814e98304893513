/** The mock REST server: an in-memory employee table, the route handlers
    over it, and the server's own reparent cycle check. */
module MockServer {
  import opened Wrappers
  import opened EmployeeTypes
  import opened Hierarchy
  import opened Text
  import opened TreeUtils

  const NOT_FOUND: string := "Employee not found"
  const CYCLE_REFUSED: string := "Cannot assign someone to report to their own subordinate!"

  /** A reply body. */
  datatype Body =
    | EmployeesBody(employees: seq<Employee>)
    | EmployeeBody(employee: Employee)
    | ErrorBody(error: string)
    | SuccessBody(success: bool)
    | TeamsBody(teams: seq<string>)

  /** What a handler returns: a plain object, sent with the library's
      default status for the route, or a `Response` with its own status. */
  datatype Reply = Plain(body: Body) | WithStatus(status: int, body: Body)

  /** The body of a POST: every field of an employee but the id. */
  datatype Draft = Draft(name: string, designation: string, team: string, managerId: Option<string>,
                         email: Option<string>, avatar: Option<string>)

  /** `{ id, ...attrs }` for a body without an `id` of its own. */
  function WithId(draft: Draft, id: string): (e: Employee)
    ensures e.id == id && e.name == draft.name && e.team == draft.team && e.managerId == draft.managerId
    ensures e.designation == draft.designation && e.email == draft.email && e.avatar == draft.avatar
  {
    Employee(id, draft.name, draft.designation, draft.team, draft.managerId, draft.email, draft.avatar)
  }

  // ---------------------------------------------------------------------
  // checkForCycle
  // ---------------------------------------------------------------------

  /** `.map(e => e.id)`. */
  function IdsOf(rs: seq<Employee>): (ids: seq<string>)
    ensures |ids| == |rs| && forall i | 0 <= i < |rs| :: ids[i] == rs[i].id
  {
    seq(|rs|, i requires 0 <= i < |rs| => rs[i].id)
  }

  /** The server's `getSubordinates(id)`: the ids of all direct reports of
      `id` first, in table order, then report by report what the recursive
      call returns for it. */
  function ServerSubordinates(employees: seq<Employee>, id: string): seq<string>
    requires Acyclic(employees)
    decreases DownRank(employees, id), 1
  {
    var reports := DirectReports(employees, id);
    ReportsRankLower(employees, id, reports);
    IdsOf(reports) + NestedSubordinates(employees, reports, DownRank(employees, id))
  }

  /** The recursive results for the reports `rs`, concatenated in order.
      `bound` is a rank above every report and only serves termination. */
  function NestedSubordinates(employees: seq<Employee>, rs: seq<Employee>, ghost bound: nat): seq<string>
    requires Acyclic(employees)
    requires forall r | r in rs :: r in employees && DownRank(employees, r.id) < bound
    decreases bound, 0, |rs|
  {
    if rs == [] then []
    else NestedSubordinates(employees, rs[..|rs| - 1], bound) + ServerSubordinates(employees, rs[|rs| - 1].id)
  }

  /** `getSubordinates` as written: start from the direct report ids and
      push the recursive result for each of them. */
  method GetSubordinateIds(employees: seq<Employee>, id: string) returns (allSubordinates: seq<string>)
    requires Acyclic(employees)
    ensures allSubordinates == ServerSubordinates(employees, id)
    decreases DownRank(employees, id), 1
  {
    var reports := DirectReports(employees, id);
    ReportsRankLower(employees, id, reports);
    var directReports := IdsOf(reports);
    allSubordinates := PushSubordinates(employees, reports, DownRank(employees, id), directReports);
  }

  /** The `forEach` over the direct reports `rs`: push each one's recursive
      result onto `start`. */
  method PushSubordinates(employees: seq<Employee>, rs: seq<Employee>, ghost bound: nat, start: seq<string>)
    returns (allSubordinates: seq<string>)
    requires Acyclic(employees)
    requires forall r | r in rs :: r in employees && DownRank(employees, r.id) < bound
    ensures allSubordinates == start + NestedSubordinates(employees, rs, bound)
    decreases bound, 0
  {
    allSubordinates := start;
    for k := 0 to |rs|
      invariant allSubordinates == start + NestedSubordinates(employees, rs[..k], bound)
    {
      var below := GetSubordinateIds(employees, rs[k].id);
      NestedSubordinatesStep(employees, rs, k, bound);
      allSubordinates := allSubordinates + below;
    }
    assert rs[..|rs|] == rs;
  }

  lemma NestedSubordinatesStep(employees: seq<Employee>, rs: seq<Employee>, k: nat, bound: nat)
    requires Acyclic(employees) && k < |rs|
    requires forall r | r in rs :: r in employees && DownRank(employees, r.id) < bound
    ensures NestedSubordinates(employees, rs[..k + 1], bound) ==
            NestedSubordinates(employees, rs[..k], bound) + ServerSubordinates(employees, rs[k].id)
  {
    assert rs[..k + 1][..k] == rs[..k];
  }

  /** The server walk reaches the same ids as the client's, in another order. */
  lemma {:induction false} ServerSubordinatesAreSubordinates(employees: seq<Employee>, id: string)
    requires Acyclic(employees)
    ensures forall s :: s in ServerSubordinates(employees, id) <==> s in SubordinateIds(employees, id)
    decreases DownRank(employees, id), 1
  {
    var reports := DirectReports(employees, id);
    ReportsRankLower(employees, id, reports);
    NestedSubordinatesAreSubtrees(employees, reports, DownRank(employees, id));
  }

  lemma {:induction false} NestedSubordinatesAreSubtrees(employees: seq<Employee>, rs: seq<Employee>, bound: nat)
    requires Acyclic(employees)
    requires forall r | r in rs :: r in employees && DownRank(employees, r.id) < bound
    ensures forall s :: s in IdsOf(rs) + NestedSubordinates(employees, rs, bound) <==>
                        s in Ids(SubtreeList(employees, rs, bound))
    decreases bound, 0, |rs|
  {
    if rs != [] {
      var prefix, last := rs[..|rs| - 1], rs[|rs| - 1];
      NestedSubordinatesAreSubtrees(employees, prefix, bound);
      ServerSubordinatesAreSubordinates(employees, last.id);
      assert IdsOf(rs) == IdsOf(prefix) + [last.id];
      var front := SubtreeList(employees, prefix, bound);
      var below := Subordinates(employees, last.id);
      IdsConcat(front, [last]);
      IdsConcat(front + [last], below);
    }
  }

  /** `checkForCycle(employees, employeeId, newManagerId)` as written:
      `newManagerId` is among the server walk's ids. */
  function CheckForCycle(employees: seq<Employee>, employeeId: string, newManagerId: string): bool
    requires Acyclic(employees)
  {
    newManagerId in ServerSubordinates(employees, employeeId)
  }

  /** The server check flags exactly the employees below `a`; unlike the
      client's check it does not flag `a` itself. */
  lemma CheckForCycleMeaning(employees: seq<Employee>, a: string, b: string)
    requires UniqueIds(employees) && Acyclic(employees)
    ensures CheckForCycle(employees, a, b) <==> Above(employees, a, b)
    ensures CheckForCycle(employees, a, b) <==> a != b && WouldCreateCycle(employees, a, b)
  {
    ServerSubordinatesAreSubordinates(employees, a);
    WouldCreateCycleMeaning(employees, a, b);
    if b in SubordinateIds(employees, a) {
      var x :| x in Subordinates(employees, a) && x.id == b;
      SubordinatesAreBelow(employees, a, x);
    }
    if Above(employees, a, b) {
      AboveRanksHigher(employees, a, b);
      var x :| x in employees && x.id == b;
      SubordinatesAreBelow(employees, a, x);
    }
  }

  /** The PATCH handler exactly as written, as a function of the table:
      the reply and the table afterwards. Only a truthy manager id walks
      the links, so only then must they be acyclic. */
  function PatchAsWritten(table: seq<Employee>, id: string, managerId: Option<string>): (Reply, seq<Employee>)
    requires Truthy(managerId) ==> Acyclic(table)
  {
    if Lookup(table, id).None? then (WithStatus(404, ErrorBody(NOT_FOUND)), table)
    else if Truthy(managerId) && CheckForCycle(table, id, managerId.value) then
      (WithStatus(400, ErrorBody(CYCLE_REFUSED)), table)
    else
      var updated := WithManager(table, id, managerId);
      WithManagerKeepsIds(table, id, managerId);
      (Plain(EmployeeBody(Lookup(updated, id).value)), updated)
  }

  /** Assigning an employee to themselves passes the server check on
      acyclic data, and the PATCH as written then stores a record that is
      its own manager. */
  lemma PatchAsWrittenAcceptsSelfManager(table: seq<Employee>, a: string)
    requires UniqueIds(table) && Acyclic(table) && a in Ids(table) && a != ""
    ensures !CheckForCycle(table, a, a)
    ensures PatchAsWritten(table, a, Some(a)).1 == WithManager(table, a, Some(a))
    ensures ManagerOf(PatchAsWritten(table, a, Some(a)).1, a) == Some(a)
    ensures !Acyclic(PatchAsWritten(table, a, Some(a)).1)
  {
    CheckForCycleMeaning(table, a, a);
    WithManagerChangesOnlyTarget(table, a, Some(a));
    ReparentKeepsAcyclicIff(table, a, a);
  }

  /** `splice(-1, 1)`: the list without its last record, if any. */
  function DropLast(table: seq<Employee>): (rest: seq<Employee>)
    ensures table == [] ==> rest == []
    ensures table != [] ==> rest + [table[|table| - 1]] == table
  {
    if table == [] then [] else table[..|table| - 1]
  }

  /** Dropping the last record keeps unique and numeric ids, and keeps the
      links acyclic. */
  lemma DropLastKeepsInvariants(table: seq<Employee>)
    ensures UniqueIds(table) ==> UniqueIds(DropLast(table))
    ensures NumericIds(table) ==> NumericIds(DropLast(table))
    ensures Acyclic(table) ==> Acyclic(DropLast(table))
  {
    var rest := DropLast(table);
    assert forall e | e in rest :: e in table;
    if Acyclic(table) {
      var level := Levels(table);
      assert Ids(rest) <= Ids(table);
      assert Ranked(rest, level);
    }
  }

  /** A record stored as its own manager makes the table cyclic, yet
      PATCH with a null manager is still served and clears the loop. */
  lemma NullPatchRepairsSelfManager(e: Employee)
    requires e.managerId == Some(e.id)
    ensures !Acyclic([e])
    ensures PatchAsWritten([e], e.id, None) ==
            (Plain(EmployeeBody(e.(managerId := None))), [e.(managerId := None)])
    ensures Acyclic(PatchAsWritten([e], e.id, None).1)
  {
    forall level: map<string, nat> ensures !Ranked([e], level) {
      assert e in [e] && e.id in Ids([e]);
    }
    var repaired := e.(managerId := None);
    assert WithManager([e], e.id, None) == [repaired];
    assert Ranked([repaired], map[e.id := 0]);
  }

  /** The check the PATCH handler evidently intends: refuse the employee
      itself as well as anyone below it. */
  function SafeCheckForCycle(employees: seq<Employee>, employeeId: string, newManagerId: string): bool
    requires Acyclic(employees)
  {
    employeeId == newManagerId || CheckForCycle(employees, employeeId, newManagerId)
  }

  /** The corrected check agrees with the client's and refuses exactly the
      reparents that would make the links cyclic. */
  lemma SafeCheckForCycleExact(employees: seq<Employee>, a: string, b: string)
    requires UniqueIds(employees) && Acyclic(employees) && a in Ids(employees)
    ensures SafeCheckForCycle(employees, a, b) == WouldCreateCycle(employees, a, b)
    ensures SafeCheckForCycle(employees, a, b) <==> !Acyclic(WithManager(employees, a, Some(b)))
  {
    CheckForCycleMeaning(employees, a, b);
    WouldCreateCycleExact(employees, a, b);
  }

  // ---------------------------------------------------------------------
  // New ids and the team list
  // ---------------------------------------------------------------------

  predicate NumericIds(table: seq<Employee>) {
    forall e | e in table :: IsNumeral(e.id)
  }

  /** `Math.max(...table.map(e => parseInt(e.id)))` for a non-empty table. */
  function MaxIdValue(table: seq<Employee>): (m: nat)
    requires table != [] && NumericIds(table)
    ensures forall e | e in table :: NumeralValue(e.id) <= m
    ensures exists e | e in table :: NumeralValue(e.id) == m
  {
    var last := table[|table| - 1];
    assert last in table;
    if |table| == 1 then NumeralValue(last.id)
    else
      var prefix := table[..|table| - 1];
      assert table == prefix + [last];
      var rest := MaxIdValue(prefix);
      if NumeralValue(last.id) > rest then NumeralValue(last.id) else rest
  }

  /** The id a POST assigns: one more than the largest id, written in decimal. */
  function NewId(table: seq<Employee>): string
    requires table != [] && NumericIds(table)
  {
    Numeral(MaxIdValue(table) + 1)
  }

  /** The new id is a numeral that reads back above every existing id, so
      it differs from all of them. */
  lemma NewIdIsFresh(table: seq<Employee>)
    requires table != [] && NumericIds(table)
    ensures IsNumeral(NewId(table))
    ensures forall e | e in table :: NumeralValue(e.id) < NumeralValue(NewId(table))
    ensures NewId(table) !in Ids(table)
  {
  }

  /** `[...new Set(table.map(e => e.team))]`. */
  function TeamsPresent(table: seq<Employee>): seq<string> {
    Distinct(TeamColumn(table))
  }

  /** Each team of the table is listed, once, and nothing else is. */
  lemma TeamsPresentOnce(table: seq<Employee>)
    ensures forall t :: t in TeamsPresent(table) <==> exists e | e in table :: e.team == t
    ensures forall i, j | 0 <= i < j < |TeamsPresent(table)| :: TeamsPresent(table)[i] != TeamsPresent(table)[j]
  {
    var column := TeamColumn(table);
    forall t | t in column ensures exists e | e in table :: e.team == t {
      var i :| 0 <= i < |column| && column[i] == t;
      assert table[i] in table;
    }
    forall t | exists e | e in table :: e.team == t ensures t in column {
      var e :| e in table && e.team == t;
      var i :| 0 <= i < |table| && table[i] == e;
      assert column[i] == t;
    }
  }

  /** Teams are listed in the order their first member appears in the table. */
  lemma TeamsInFirstOccurrenceOrder(table: seq<Employee>, i: int, j: int, p: int, q: int)
    requires 0 <= i < j < |TeamsPresent(table)|
    requires FirstAt(TeamColumn(table), TeamsPresent(table)[i], p)
    requires FirstAt(TeamColumn(table), TeamsPresent(table)[j], q)
    ensures p < q
  {
    DistinctKeepsFirstOccurrenceOrder(TeamColumn(table), i, j, p, q);
  }

  // ---------------------------------------------------------------------
  // The server
  // ---------------------------------------------------------------------

  /** The server's employee table and its route handlers. */
  class Server {
    var table: seq<Employee>

    /** Ids are unique decimal numerals, as in the seed data. */
    predicate Valid()
      reads this
    {
      UniqueIds(table) && NumericIds(table)
    }

    constructor (seed: seq<Employee>)
      requires UniqueIds(seed) && NumericIds(seed)
      ensures table == seed && Valid()
    {
      table := seed;
    }

    /** GET /employees: every record, in table order, so the record
        GET /employees/:id serves for a known id is among them. */
    method ListEmployees() returns (reply: Reply)
      ensures reply == Plain(EmployeesBody(table))
      ensures forall id | id in Ids(table) :: Lookup(table, id).value in reply.body.employees
    {
      reply := Plain(EmployeesBody(table));
    }

    /** GET /employees/:id: the record, or 404 when there is none. */
    method GetEmployee(id: string) returns (reply: Reply)
      requires Valid()
      ensures id !in Ids(table) ==> reply == WithStatus(404, ErrorBody(NOT_FOUND))
      ensures id in Ids(table) ==>
        && reply.Plain? && reply.body.EmployeeBody?
        && reply.body.employee in table && reply.body.employee.id == id
    {
      var employee := Lookup(table, id);
      if employee.None? {
        return WithStatus(404, ErrorBody(NOT_FOUND));
      }
      reply := Plain(EmployeeBody(employee.value));
    }

    /** POST /employees: insert the body under a fresh id and return it. */
    method Post(draft: Draft) returns (reply: Reply)
      requires Valid() && table != []
      modifies this
      ensures Valid()
      ensures NewId(old(table)) !in Ids(old(table))
      ensures table == old(table) + [WithId(draft, NewId(old(table)))]
      ensures reply == Plain(EmployeeBody(WithId(draft, NewId(old(table)))))
    {
      var newId := Numeral(MaxIdValue(table) + 1);
      NewIdIsFresh(table);
      var employee := WithId(draft, newId);
      forall i, j | 0 <= i < j < |table + [employee]| ensures (table + [employee])[i].id != (table + [employee])[j].id {
        if j == |table| {
          assert table[i] in table;
        }
      }
      table := table + [employee];
      reply := Plain(EmployeeBody(employee));
    }

    /** PATCH /employees/:id with `{ managerId }`: 404 for an unknown id,
        400 when a truthy new manager is refused by the corrected check,
        otherwise the manager is replaced and the updated record returned.
        Only a truthy manager id walks the links; a null one is served on
        any table, and repairs a cycle through the employee. */
    method Patch(id: string, managerId: Option<string>) returns (reply: Reply)
      requires Valid() && (Truthy(managerId) ==> Acyclic(table))
      modifies this
      ensures Valid() && (old(Acyclic(table)) ==> Acyclic(table))
      ensures id !in Ids(old(table)) ==>
        reply == WithStatus(404, ErrorBody(NOT_FOUND)) && table == old(table)
      ensures id in Ids(old(table)) && Truthy(managerId) && SafeCheckForCycle(old(table), id, managerId.value) ==>
        reply == WithStatus(400, ErrorBody(CYCLE_REFUSED)) && table == old(table)
      ensures id in Ids(old(table)) && !(Truthy(managerId) && SafeCheckForCycle(old(table), id, managerId.value)) ==>
        && table == WithManager(old(table), id, managerId)
        && reply == Plain(EmployeeBody(Lookup(old(table), id).value.(managerId := managerId)))
    {
      var employee := Lookup(table, id);
      if employee.None? {
        return WithStatus(404, ErrorBody(NOT_FOUND));
      }
      if Truthy(managerId) {
        var subordinates := GetSubordinateIds(table, id);
        var wouldCreateCycle := id == managerId.value || managerId.value in subordinates;
        if wouldCreateCycle {
          return WithStatus(400, ErrorBody(CYCLE_REFUSED));
        }
      }
      ghost var before := table;
      if Acyclic(before) {
        PatchKeepsAcyclic(before, id, managerId);
      }
      table := WithManager(table, id, managerId);
      WithManagerKeepsIds(before, id, managerId);
      forall e | e in table ensures IsNumeral(e.id) {
        var i :| 0 <= i < |table| && table[i] == e;
        assert before[i] in before;
      }
      ghost var i :| 0 <= i < |before| && before[i] == employee.value;
      assert table[i] == before[i].(managerId := managerId) && table[i] in table;
      LookupFindsRecord(table, table[i]);
      reply := Plain(EmployeeBody(Lookup(table, id).value));
    }

    /** DELETE /employees/:id: `remove(id)` takes out the record with the
        id. For an id with no record the collection's `remove` looks up the
        index of nothing, -1, and `splice(-1, 1)` drops the last record.
        The reply is always 200 with `{ success: true }`. */
    method Delete(id: string) returns (reply: Reply)
      requires Valid()
      modifies this
      ensures Valid()
      ensures id in Ids(old(table)) ==> table == WithoutEmployee(old(table), id)
      ensures id !in Ids(old(table)) ==> table == DropLast(old(table))
      ensures old(Acyclic(table)) ==> Acyclic(table)
      ensures reply == WithStatus(200, SuccessBody(true))
    {
      ghost var before := table;
      if id in Ids(table) {
        table := WithoutEmployee(table, id);
        FilterKeepsUniqueIds(before, (e: Employee) => e.id != id);
        if Acyclic(before) {
          FilterKeepsAcyclic(before, (e: Employee) => e.id != id);
        }
      } else {
        table := DropLast(table);
        DropLastKeepsInvariants(before);
      }
      reply := WithStatus(200, SuccessBody(true));
    }

    /** GET /teams. */
    method Teams() returns (reply: Reply)
      ensures reply == Plain(TeamsBody(TeamsPresent(table)))
    {
      reply := Plain(TeamsBody(Distinct(TeamColumn(table))));
    }
  }

  /** A PATCH that the corrected check lets through keeps the links acyclic:
      a cleared manager, an empty one (no numeric id is empty) and a
      permitted new manager alike. */
  lemma PatchKeepsAcyclic(table: seq<Employee>, id: string, managerId: Option<string>)
    requires UniqueIds(table) && NumericIds(table) && Acyclic(table) && id in Ids(table)
    requires !(Truthy(managerId) && SafeCheckForCycle(table, id, managerId.value))
    ensures Acyclic(WithManager(table, id, managerId))
  {
    if managerId.None? {
      ClearManagerKeepsAcyclic(table, id);
    } else if Truthy(managerId) {
      SafeCheckForCycleExact(table, id, managerId.value);
    } else {
      var e :| e in table && e.id == id;
      assert IsNumeral(e.id);
      ReparentKeepsAcyclicIff(table, id, "");
    }
  }
}
