/** The manager graph over a flat employee list: lookup by id (as a
    JavaScript `Map` built from the list sees it), acyclicity of the
    `managerId` links, and the relation "a is above x" that the ancestor
    and subordinate walks follow. */
module Hierarchy {
  import opened Wrappers
  import opened EmployeeTypes

  function Ids(employees: seq<Employee>): set<string> {
    set e | e in employees :: e.id
  }

  /** No two records share an id. */
  predicate UniqueIds(employees: seq<Employee>) {
    forall i, j | 0 <= i < j < |employees| :: employees[i].id != employees[j].id
  }

  /** `new Map(employees.map(e => [e.id, e])).get(id)`: a later record with
      the same id overwrites an earlier one. */
  function Lookup(employees: seq<Employee>, id: string): (r: Option<Employee>)
    ensures r.Some? ==> r.value in employees && r.value.id == id
    ensures r.None? <==> id !in Ids(employees)
  {
    if employees == [] then None
    else
      var last := employees[|employees| - 1];
      assert employees == employees[..|employees| - 1] + [last];
      if last.id == id then Some(last) else Lookup(employees[..|employees| - 1], id)
  }

  /** With unique ids, looking up a record's id finds that record. */
  lemma {:induction false} LookupFindsRecord(employees: seq<Employee>, e: Employee)
    requires UniqueIds(employees) && e in employees
    ensures Lookup(employees, e.id) == Some(e)
  {
    var n := |employees|;
    var last := employees[n - 1];
    var prefix := employees[..n - 1];
    assert employees == prefix + [last];
    if last != e {
      assert e in prefix;
      var i :| 0 <= i < n - 1 && employees[i] == e;
      assert employees[i].id != employees[n - 1].id;
      LookupFindsRecord(prefix, e);
    }
  }

  /** The manager id recorded for `id`; `None` when there is no such record. */
  function ManagerOf(employees: seq<Employee>, id: string): Option<string> {
    match Lookup(employees, id)
    case None => None
    case Some(e) => e.managerId
  }

  /** `level` places every employee strictly below its manager whenever
      that manager is in the list. */
  ghost predicate Ranked(employees: seq<Employee>, level: map<string, nat>) {
    && Ids(employees) <= level.Keys
    && forall e | e in employees && e.managerId.Some? && e.managerId.value in Ids(employees) ::
         e.id in level && level[e.managerId.value] < level[e.id]
  }

  /** The `managerId` links have no cycle: the data invariant every
      recursive walk of the sources relies on to terminate. */
  ghost predicate Acyclic(employees: seq<Employee>) {
    exists level :: Ranked(employees, level)
  }

  ghost function Levels(employees: seq<Employee>): (level: map<string, nat>)
    requires Acyclic(employees)
    ensures Ranked(employees, level)
  {
    var level :| Ranked(employees, level); level
  }

  /** Termination measure of walks towards the top. */
  ghost function UpRank(employees: seq<Employee>, id: string): nat
    requires Acyclic(employees)
  {
    if id in Ids(employees) then Levels(employees)[id] + 1 else 0
  }

  lemma ManagerRanksHigher(employees: seq<Employee>, id: string)
    requires Acyclic(employees) && ManagerOf(employees, id).Some?
    ensures id in Ids(employees)
    ensures UpRank(employees, ManagerOf(employees, id).value) < UpRank(employees, id)
  {
    var e := Lookup(employees, id).value;
    assert e in employees;
  }

  /** Termination measure of walks towards the reports: the number of
      employees placed strictly deeper. */
  ghost function DownRank(employees: seq<Employee>, id: string): nat
    requires Acyclic(employees)
  {
    if id in Ids(employees) then |Deeper(employees, id)| else |Ids(employees)|
  }

  ghost function Deeper(employees: seq<Employee>, id: string): set<string>
    requires Acyclic(employees) && id in Ids(employees)
  {
    set k | k in Ids(employees) && Levels(employees)[k] > Levels(employees)[id]
  }

  lemma ReportRanksLower(employees: seq<Employee>, id: string, r: Employee)
    requires Acyclic(employees) && r in employees && r.managerId == Some(id)
    ensures DownRank(employees, r.id) < DownRank(employees, id)
  {
    var ids := Ids(employees);
    assert r.id in ids;
    var below := Deeper(employees, r.id);
    if id in ids {
      var level := Levels(employees);
      assert level[id] < level[r.id];
      var above := Deeper(employees, id);
      assert r.id in above;
      assert below <= above - {r.id};
      assert |above - {r.id}| == |above| - 1;
      SubsetSize(below, above - {r.id});
    } else {
      var others := ids - {r.id};
      assert below <= others;
      assert |others| == |ids| - 1;
      SubsetSize(below, others);
    }
  }

  lemma {:induction false} SubsetSize<T>(a: set<T>, b: set<T>)
    requires a <= b
    ensures |a| <= |b|
  {
    if a != {} {
      var x :| x in a;
      SubsetSize(a - {x}, b - {x});
    }
  }

  /** The direct reports of `id`: `employees.filter(e => e.managerId === id)`. */
  function DirectReports(employees: seq<Employee>, id: string): (r: seq<Employee>)
    ensures forall x :: x in r <==> x in employees && x.managerId == Some(id)
  {
    Filter(employees, (e: Employee) => e.managerId == Some(id))
  }

  /** `a` is reached from `x` by following one or more manager links. */
  ghost predicate Above(employees: seq<Employee>, a: string, x: string)
    requires Acyclic(employees)
    decreases UpRank(employees, x)
  {
    match ManagerOf(employees, x)
    case None => false
    case Some(m) =>
      ManagerRanksHigher(employees, x);
      m == a || Above(employees, a, m)
  }

  /** Everything above `x` ranks strictly higher; in particular no one is above itself. */
  lemma {:induction false} AboveRanksHigher(employees: seq<Employee>, a: string, x: string)
    requires Acyclic(employees) && Above(employees, a, x)
    ensures x in Ids(employees)
    ensures UpRank(employees, a) < UpRank(employees, x)
    ensures a != x
    decreases UpRank(employees, x)
  {
    ManagerRanksHigher(employees, x);
    var m := ManagerOf(employees, x).value;
    if m != a {
      AboveRanksHigher(employees, a, m);
    }
  }

  /** "Above" is transitive. */
  lemma {:induction false} AboveTransitive(employees: seq<Employee>, b: string, a: string, x: string)
    requires Acyclic(employees) && Above(employees, a, x) && Above(employees, b, a)
    ensures Above(employees, b, x)
    decreases UpRank(employees, x)
  {
    ManagerRanksHigher(employees, x);
    var m := ManagerOf(employees, x).value;
    if m != a {
      AboveTransitive(employees, b, a, m);
    }
  }

  /** Two employees above the same `x` are on one chain: one is above the other. */
  lemma {:induction false} AboveIsChain(employees: seq<Employee>, a: string, b: string, x: string)
    requires Acyclic(employees) && Above(employees, a, x) && Above(employees, b, x) && a != b
    ensures Above(employees, a, b) || Above(employees, b, a)
    decreases UpRank(employees, x)
  {
    ManagerRanksHigher(employees, x);
    var m := ManagerOf(employees, x).value;
    if m != a && m != b {
      AboveIsChain(employees, a, b, m);
    }
  }

  /** `employees.map(e => e.id === id ? { ...e, managerId } : e)`. */
  function WithManager(employees: seq<Employee>, id: string, managerId: Option<string>): (r: seq<Employee>)
    ensures |r| == |employees|
  {
    seq(|employees|, i requires 0 <= i < |employees| =>
      if employees[i].id == id then employees[i].(managerId := managerId) else employees[i])
  }

  /** Reassigning a manager changes no id, keeps each record in its
      place, and keeps ids unique. */
  lemma WithManagerKeepsIds(employees: seq<Employee>, id: string, managerId: Option<string>)
    ensures forall i | 0 <= i < |employees| :: WithManager(employees, id, managerId)[i].id == employees[i].id
    ensures Ids(WithManager(employees, id, managerId)) == Ids(employees)
    ensures UniqueIds(employees) ==> UniqueIds(WithManager(employees, id, managerId))
  {
    var updated := WithManager(employees, id, managerId);
    forall x | x in Ids(employees) ensures x in Ids(updated) {
      var i :| 0 <= i < |employees| && employees[i].id == x;
      assert updated[i] in updated;
    }
    forall x | x in Ids(updated) ensures x in Ids(employees) {
      var i :| 0 <= i < |updated| && updated[i].id == x;
      assert employees[i] in employees;
    }
  }

  /** In any ranking of the reparented list, `a` still ranks below
      everything that was below it. */
  lemma {:induction false} BelowStaysBelow(employees: seq<Employee>, a: string, b: string,
                                           level: map<string, nat>, x: string)
    requires UniqueIds(employees) && Acyclic(employees) && a in Ids(employees)
    requires Ranked(WithManager(employees, a, Some(b)), level)
    requires Above(employees, a, x)
    ensures a in level && x in level && level[a] < level[x]
    decreases UpRank(employees, x)
  {
    var updated := WithManager(employees, a, Some(b));
    WithManagerKeepsIds(employees, a, Some(b));
    AboveRanksHigher(employees, a, x);
    var e := Lookup(employees, x).value;
    var i :| 0 <= i < |employees| && employees[i] == e;
    assert updated[i] == e && e in updated;
    var m := e.managerId.value;
    if m != a {
      BelowStaysBelow(employees, a, b, level, m);
      AboveRanksHigher(employees, a, m);
    }
  }

  /** Reparenting `a` under `b` keeps the links acyclic exactly when `b` is
      neither `a` itself nor anyone below `a`. */
  lemma ReparentKeepsAcyclicIff(employees: seq<Employee>, a: string, b: string)
    requires UniqueIds(employees) && Acyclic(employees) && a in Ids(employees)
    ensures Acyclic(WithManager(employees, a, Some(b))) <==> a != b && !Above(employees, a, b)
  {
    var updated := WithManager(employees, a, Some(b));
    WithManagerKeepsIds(employees, a, Some(b));
    var i :| 0 <= i < |employees| && employees[i].id == a;
    assert updated[i].managerId == Some(b) && updated[i] in updated;
    if a == b || Above(employees, a, b) {
      if level :| Ranked(updated, level) {
        if a != b {
          BelowStaysBelow(employees, a, b, level, b);
        }
        assert false;
      }
    } else {
      ReparentRanking(employees, a, b);
    }
  }

  /** `a` and everything below it move down by `shift` levels. */
  ghost function ShiftedLevels(employees: seq<Employee>, a: string, shift: nat): map<string, nat>
    requires Acyclic(employees)
  {
    map k | k in Ids(employees) ::
      if k == a || Above(employees, a, k) then Levels(employees)[k] + shift else Levels(employees)[k]
  }

  /** One record of the reparented list keeps the shifted levels' ordering. */
  lemma ShiftedLevelsRankRecord(employees: seq<Employee>, a: string, b: string, i: int)
    requires UniqueIds(employees) && Acyclic(employees) && a in Ids(employees)
    requires b in Ids(employees) && a != b && !Above(employees, a, b)
    requires 0 <= i < |employees|
    requires employees[i].id != a && employees[i].managerId.Some?
    requires employees[i].managerId.value in Ids(employees)
    ensures var level' := ShiftedLevels(employees, a, Levels(employees)[b] + 1);
      employees[i].id in level' && level'[employees[i].managerId.value] < level'[employees[i].id]
  {
    var e := employees[i];
    assert e in employees;
    LookupFindsRecord(employees, e);
    var m := e.managerId.value;
    if Above(employees, a, e.id) {
      assert m == a || Above(employees, a, m);
    } else {
      assert m != a && !Above(employees, a, m);
    }
  }

  /** A ranking of the reparented list when `b` is not `a` and not below `a`:
      `a` and everything below it move down by `b`'s level plus one. */
  lemma ReparentRanking(employees: seq<Employee>, a: string, b: string)
    requires UniqueIds(employees) && Acyclic(employees) && a in Ids(employees)
    requires a != b && !Above(employees, a, b)
    ensures Acyclic(WithManager(employees, a, Some(b)))
  {
    var updated := WithManager(employees, a, Some(b));
    WithManagerKeepsIds(employees, a, Some(b));
    var level := Levels(employees);
    if b !in Ids(employees) {
      assert Ranked(updated, level);
    } else {
      var level' := ShiftedLevels(employees, a, level[b] + 1);
      forall e' | e' in updated && e'.managerId.Some? && e'.managerId.value in Ids(updated)
        ensures e'.id in level' && level'[e'.managerId.value] < level'[e'.id]
      {
        var i :| 0 <= i < |updated| && updated[i] == e';
        if employees[i].id != a {
          ShiftedLevelsRankRecord(employees, a, b, i);
        }
      }
      assert Ranked(updated, level');
    }
  }

  /** Filtering a list with unique ids keeps the ids unique. */
  lemma {:induction false} FilterKeepsUniqueIds(employees: seq<Employee>, p: Employee -> bool)
    requires UniqueIds(employees)
    ensures UniqueIds(Filter(employees, p))
  {
    if employees != [] {
      var prefix, last := employees[..|employees| - 1], employees[|employees| - 1];
      assert UniqueIds(prefix);
      FilterKeepsUniqueIds(prefix, p);
      var kept := Filter(prefix, p);
      if p(last) {
        forall e | e in kept ensures e.id != last.id {
          var i :| 0 <= i < |prefix| && prefix[i] == e;
          assert employees[i] == e;
        }
      }
    }
  }

  /** With unique ids each record occurs at most once. */
  lemma {:induction false} UniqueIdsCount(employees: seq<Employee>, x: Employee)
    requires UniqueIds(employees)
    ensures multiset(employees)[x] == if x in employees then 1 else 0
  {
    if employees != [] {
      var prefix, last := employees[..|employees| - 1], employees[|employees| - 1];
      assert employees == prefix + [last];
      assert UniqueIds(prefix);
      UniqueIdsCount(prefix, x);
    }
  }

  lemma IdsConcat(a: seq<Employee>, b: seq<Employee>)
    ensures Ids(a + b) == Ids(a) + Ids(b)
  {
    forall x | x in Ids(a + b) ensures x in Ids(a) + Ids(b) {
      var e :| e in a + b && e.id == x;
    }
    forall x | x in Ids(a) + Ids(b) ensures x in Ids(a + b) {
      var e :| (e in a || e in b) && e.id == x;
      assert e in a + b;
    }
  }

  /** Dropping records from the list never creates a cycle: the old
      levels still rank what is left. */
  lemma FilterKeepsAcyclic(employees: seq<Employee>, p: Employee -> bool)
    requires Acyclic(employees)
    ensures Acyclic(Filter(employees, p))
  {
    var kept := Filter(employees, p);
    var level := Levels(employees);
    assert Ids(kept) <= Ids(employees);
    assert Ranked(kept, level);
  }

  /** Clearing a manager link never creates a cycle. */
  lemma ClearManagerKeepsAcyclic(employees: seq<Employee>, id: string)
    requires Acyclic(employees)
    ensures Acyclic(WithManager(employees, id, None))
  {
    var updated := WithManager(employees, id, None);
    var level := Levels(employees);
    WithManagerKeepsIds(employees, id, None);
    forall e | e in updated && e.managerId.Some? && e.managerId.value in Ids(updated)
      ensures e.id in level && level[e.managerId.value] < level[e.id]
    {
      var i :| 0 <= i < |updated| && updated[i] == e;
      assert employees[i] == e && employees[i] in employees;
    }
    assert Ranked(updated, level);
  }

  /** `prev.filter(emp => emp.id !== employeeId)`. */
  function WithoutEmployee(employees: seq<Employee>, id: string): (r: seq<Employee>)
  {
    Filter(employees, (e: Employee) => e.id != id)
  }

  /** Deleting removes every record with the id and keeps every other one,
      in order; it changes nothing when the id has no record. */
  lemma WithoutEmployeeRemovesOnlyId(employees: seq<Employee>, id: string)
    ensures forall e :: e in WithoutEmployee(employees, id) <==> e in employees && e.id != id
    ensures Ids(WithoutEmployee(employees, id)) == Ids(employees) - {id}
    ensures SubList(WithoutEmployee(employees, id), employees)
    ensures id !in Ids(employees) ==> WithoutEmployee(employees, id) == employees
  {
    var p := (e: Employee) => e.id != id;
    FilterIsSubList(employees, p);
    var r := WithoutEmployee(employees, id);
    forall x | x in Ids(employees) - {id} ensures x in Ids(r) {
      var e :| e in employees && e.id == x;
      assert e in r;
    }
  }

  /** Reparenting changes only the manager of the records with the id:
      length, order, ids and every other field stay, and with unique ids
      the new manager is what a lookup of that id now reports while every
      other id keeps its manager. */
  lemma WithManagerChangesOnlyTarget(employees: seq<Employee>, id: string, managerId: Option<string>)
    ensures var r := WithManager(employees, id, managerId);
      && |r| == |employees|
      && (forall i | 0 <= i < |r| :: r[i].(managerId := employees[i].managerId) == employees[i])
      && (forall i | 0 <= i < |r| :: r[i].managerId == if employees[i].id == id then managerId else employees[i].managerId)
      && (UniqueIds(employees) && id in Ids(employees) ==> ManagerOf(r, id) == managerId)
      && (UniqueIds(employees) ==> forall other | other != id :: ManagerOf(r, other) == ManagerOf(employees, other))
  {
    var r := WithManager(employees, id, managerId);
    WithManagerKeepsIds(employees, id, managerId);
    if UniqueIds(employees) {
      if id in Ids(employees) {
        var i :| 0 <= i < |employees| && employees[i].id == id;
        assert r[i] in r;
        LookupFindsRecord(r, r[i]);
      }
      forall other | other != id ensures ManagerOf(r, other) == ManagerOf(employees, other) {
        if other in Ids(employees) {
          var i :| 0 <= i < |employees| && employees[i].id == other;
          assert employees[i] in employees && r[i] in r && r[i] == employees[i];
          LookupFindsRecord(r, r[i]);
          LookupFindsRecord(employees, employees[i]);
        }
      }
    }
  }
}
