/** The tree utilities of the org chart: the forest built from the flat
    list, its team-scoped variant, text search, the ancestor path, the
    transitive subordinates, the reparent cycle check and subtree counting. */
module TreeUtils {
  import opened Wrappers
  import opened EmployeeTypes
  import opened Hierarchy
  import opened Text

  // ---------------------------------------------------------------------
  // Subordinates
  // ---------------------------------------------------------------------

  /** The subtrees hanging under the records `rs`, one after the other: each
      record followed by its own subordinates. `bound` is a rank above every
      record of `rs` and only serves termination. */
  function SubtreeList(employees: seq<Employee>, rs: seq<Employee>, ghost bound: nat): seq<Employee>
    requires Acyclic(employees)
    requires forall r | r in rs :: r in employees && DownRank(employees, r.id) < bound
    decreases bound, 0, |rs|
  {
    if rs == [] then []
    else
      var last := rs[|rs| - 1];
      SubtreeList(employees, rs[..|rs| - 1], bound) + [last] + Subordinates(employees, last.id)
  }

  /** `getSubordinates`: each direct report of `id`, in list order, followed
      by its own subordinates (a pre-order walk). */
  function Subordinates(employees: seq<Employee>, id: string): seq<Employee>
    requires Acyclic(employees)
    decreases DownRank(employees, id), 1
  {
    var reports := DirectReports(employees, id);
    ReportsRankLower(employees, id, reports);
    SubtreeList(employees, reports, DownRank(employees, id))
  }

  lemma ReportsRankLower(employees: seq<Employee>, id: string, reports: seq<Employee>)
    requires Acyclic(employees) && reports == DirectReports(employees, id)
    ensures forall r | r in reports :: r in employees && DownRank(employees, r.id) < DownRank(employees, id)
  {
    forall r | r in reports ensures DownRank(employees, r.id) < DownRank(employees, id) {
      ReportRanksLower(employees, id, r);
    }
  }

  /** `getSubordinates` as written: a loop over the direct reports that
      pushes each report and then the result of the recursive call. */
  method GetSubordinates(employees: seq<Employee>, employeeId: string) returns (subordinates: seq<Employee>)
    requires Acyclic(employees)
    ensures subordinates == Subordinates(employees, employeeId)
    decreases DownRank(employees, employeeId)
  {
    subordinates := [];
    var directReports := DirectReports(employees, employeeId);
    ReportsRankLower(employees, employeeId, directReports);
    ghost var bound := DownRank(employees, employeeId);
    for k := 0 to |directReports|
      invariant subordinates == SubtreeList(employees, directReports[..k], bound)
    {
      var report := directReports[k];
      var below := GetSubordinates(employees, report.id);
      assert directReports[..k + 1][..k] == directReports[..k];
      subordinates := subordinates + [report] + below;
    }
    assert directReports[..|directReports|] == directReports;
  }

  /** `r`'s subtree contains `x`: `x` is `r` or below it. */
  ghost predicate Covers(employees: seq<Employee>, r: Employee, x: Employee)
    requires Acyclic(employees)
  {
    r == x || Above(employees, r.id, x.id)
  }

  /** Some record of `rs` covers `x`. */
  ghost predicate Covered(employees: seq<Employee>, rs: seq<Employee>, x: Employee)
    requires Acyclic(employees)
  {
    exists r | r in rs :: Covers(employees, r, x)
  }

  /** No record of `rs` is above another one. */
  ghost predicate Independent(employees: seq<Employee>, rs: seq<Employee>)
    requires Acyclic(employees)
  {
    forall r1, r2 | r1 in rs && r2 in rs :: !Above(employees, r1.id, r2.id)
  }

  /** Two records with the same manager are not above one another. */
  lemma NotAboveSibling(employees: seq<Employee>, a: string, r1: Employee, r2: Employee)
    requires UniqueIds(employees) && Acyclic(employees)
    requires r1 in employees && r2 in employees
    requires r1.managerId == Some(a) && r2.managerId == Some(a)
    ensures !Above(employees, r1.id, r2.id)
  {
    LookupFindsRecord(employees, r1);
    LookupFindsRecord(employees, r2);
    if Above(employees, r1.id, r2.id) {
      assert Above(employees, a, r1.id);
      if a == r1.id {
        AboveRanksHigher(employees, a, a);
      } else {
        AboveTransitive(employees, r1.id, a, r1.id);
        AboveRanksHigher(employees, r1.id, r1.id);
      }
    }
  }

  /** Two independent records never cover the same employee. */
  lemma CoverUnique(employees: seq<Employee>, r1: Employee, r2: Employee, x: Employee)
    requires UniqueIds(employees) && Acyclic(employees)
    requires r1 in employees && r2 in employees && r1 != r2
    requires !Above(employees, r1.id, r2.id) && !Above(employees, r2.id, r1.id)
    ensures !(Covers(employees, r1, x) && Covers(employees, r2, x))
  {
    assert r1.id != r2.id by {
      var i :| 0 <= i < |employees| && employees[i] == r1;
      var j :| 0 <= j < |employees| && employees[j] == r2;
      assert i != j;
    }
    if Covers(employees, r1, x) && Covers(employees, r2, x) && r1 != x && r2 != x {
      AboveIsChain(employees, r1.id, r2.id, x.id);
    }
  }

  /** The direct reports of `a` cover exactly the employees below `a`. */
  lemma {:induction false} CoveredByReports(employees: seq<Employee>, a: string, x: Employee)
    requires UniqueIds(employees) && Acyclic(employees) && x in employees
    ensures Covered(employees, DirectReports(employees, a), x) <==> Above(employees, a, x.id)
    decreases UpRank(employees, x.id)
  {
    var reports := DirectReports(employees, a);
    LookupFindsRecord(employees, x);
    if Covered(employees, reports, x) {
      var r :| r in reports && Covers(employees, r, x);
      LookupFindsRecord(employees, r);
      assert Above(employees, a, r.id);
      if r != x {
        AboveTransitive(employees, a, r.id, x.id);
      }
    }
    if Above(employees, a, x.id) {
      var m := x.managerId.value;
      if m == a {
        assert Covers(employees, x, x);
      } else {
        ManagerRanksHigher(employees, x.id);
        AboveRanksHigher(employees, a, m);
        var y := Lookup(employees, m).value;
        CoveredByReports(employees, a, y);
        var r :| r in reports && Covers(employees, r, y);
        assert Covers(employees, r, x);
      }
    }
  }

  /** Covering by `prefix + [last]` is covering by `prefix` or by `last`. */
  lemma CoveredStep(employees: seq<Employee>, rs: seq<Employee>, x: Employee)
    requires Acyclic(employees) && rs != []
    ensures Covered(employees, rs, x) <==>
            Covered(employees, rs[..|rs| - 1], x) || Covers(employees, rs[|rs| - 1], x)
  {
    var prefix, last := rs[..|rs| - 1], rs[|rs| - 1];
    assert rs == prefix + [last];
    if Covered(employees, rs, x) {
      var r :| r in rs && Covers(employees, r, x);
      if r != last {
        assert r in prefix;
      }
    }
    if Covered(employees, prefix, x) {
      var r :| r in prefix && Covers(employees, r, x);
      assert r in rs;
    }
  }

  /** The last record of an independent list with unique ids covers nothing
      the earlier ones cover, and covers `x` in at most one way. */
  lemma LastCoversAlone(employees: seq<Employee>, rs: seq<Employee>, x: Employee)
    requires UniqueIds(employees) && Acyclic(employees) && rs != []
    requires forall r | r in rs :: r in employees
    requires UniqueIds(rs) && Independent(employees, rs)
    ensures Covered(employees, rs[..|rs| - 1], x) ==> !Covers(employees, rs[|rs| - 1], x)
    ensures !(rs[|rs| - 1] == x && Above(employees, x.id, x.id))
  {
    var prefix, last := rs[..|rs| - 1], rs[|rs| - 1];
    if Covered(employees, prefix, x) {
      var r :| r in prefix && Covers(employees, r, x);
      var i :| 0 <= i < |prefix| && prefix[i] == r;
      assert rs[i].id != rs[|rs| - 1].id;
      CoverUnique(employees, r, last, x);
    }
    if Above(employees, x.id, x.id) {
      AboveRanksHigher(employees, x.id, x.id);
    }
  }

  /** Each employee below the records `rs` occurs exactly once in their
      subtree list, and nothing else occurs in it. */
  lemma {:induction false} SubtreeListCount(employees: seq<Employee>, rs: seq<Employee>, bound: nat, x: Employee)
    requires UniqueIds(employees) && Acyclic(employees)
    requires forall r | r in rs :: r in employees && DownRank(employees, r.id) < bound
    requires UniqueIds(rs) && Independent(employees, rs)
    ensures multiset(SubtreeList(employees, rs, bound))[x] ==
            if x in employees && Covered(employees, rs, x) then 1 else 0
    decreases bound, 0, |rs|
  {
    if rs != [] {
      var prefix, last := rs[..|rs| - 1], rs[|rs| - 1];
      PrefixStaysIndependent(employees, rs, bound);
      SubtreeListCount(employees, prefix, bound, x);
      SubordinatesCount(employees, last.id, x);
      CoveredStep(employees, rs, x);
      LastCoversAlone(employees, rs, x);
      MultisetAround(SubtreeList(employees, prefix, bound), last, Subordinates(employees, last.id), x);
    }
  }

  /** Dropping the last record keeps the ranks below `bound`, unique ids and independence. */
  lemma PrefixStaysIndependent(employees: seq<Employee>, rs: seq<Employee>, bound: nat)
    requires Acyclic(employees) && rs != []
    requires forall r | r in rs :: r in employees && DownRank(employees, r.id) < bound
    requires UniqueIds(rs) && Independent(employees, rs)
    ensures forall r | r in rs[..|rs| - 1] :: r in employees && DownRank(employees, r.id) < bound
    ensures UniqueIds(rs[..|rs| - 1]) && Independent(employees, rs[..|rs| - 1])
  {
    assert forall r | r in rs[..|rs| - 1] :: r in rs;
  }

  lemma MultisetAround<T>(before: seq<T>, t: T, after: seq<T>, x: T)
    ensures multiset(before + [t] + after)[x] == multiset(before)[x] + (if t == x then 1 else 0) + multiset(after)[x]
  {
  }

  /** `getSubordinates(a)` lists each employee below `a` exactly once and
      nothing else. */
  lemma {:induction false} SubordinatesCount(employees: seq<Employee>, a: string, x: Employee)
    requires UniqueIds(employees) && Acyclic(employees)
    ensures multiset(Subordinates(employees, a))[x] ==
            if x in employees && Above(employees, a, x.id) then 1 else 0
    decreases DownRank(employees, a), 1
  {
    var reports := DirectReports(employees, a);
    ReportsRankLower(employees, a, reports);
    FilterKeepsUniqueIds(employees, (e: Employee) => e.managerId == Some(a));
    forall r1, r2 | r1 in reports && r2 in reports ensures !Above(employees, r1.id, r2.id) {
      NotAboveSibling(employees, a, r1, r2);
    }
    SubtreeListCount(employees, reports, DownRank(employees, a), x);
    if x in employees {
      CoveredByReports(employees, a, x);
    }
  }

  /** An employee is among `a`'s subordinates exactly when `a` is above it. */
  lemma SubordinatesAreBelow(employees: seq<Employee>, a: string, x: Employee)
    requires UniqueIds(employees) && Acyclic(employees)
    ensures x in Subordinates(employees, a) <==> x in employees && Above(employees, a, x.id)
  {
    SubordinatesCount(employees, a, x);
  }

  // ---------------------------------------------------------------------
  // The forest
  // ---------------------------------------------------------------------

  /** A record that `buildEmployeeTree` places at the top: no manager, or a
      manager id that names no record (a dangling reference). */
  predicate IsRoot(employees: seq<Employee>, e: Employee) {
    e.managerId.None? || e.managerId.value !in Ids(employees)
  }

  /** The roots among the records of `s`, in list order. */
  function RootsAmong(employees: seq<Employee>, s: seq<Employee>): (r: seq<Employee>)
    ensures forall x :: x in r <==> x in s && IsRoot(employees, x)
  {
    Filter(s, (e: Employee) => IsRoot(employees, e))
  }

  function Roots(employees: seq<Employee>): (r: seq<Employee>)
    ensures forall x :: x in r <==> x in employees && IsRoot(employees, x)
  {
    RootsAmong(employees, employees)
  }

  /** The children lists the linking loop fills: every id mapped to its
      direct reports in list order. */
  function ReportsMap(employees: seq<Employee>): map<string, seq<Employee>> {
    map id | id in Ids(employees) :: DirectReports(employees, id)
  }

  /** The record whose node the id map holds for `x`'s id: the last record
      with that id, since a later `set` overwrites an earlier one. */
  function NodeRecord(employees: seq<Employee>, x: Employee): Employee {
    match Lookup(employees, x.id)
    case Some(r) => r
    case None => x
  }

  /** The records shown at the nodes pushed for the records `rs`, in order. */
  function Resolved(employees: seq<Employee>, rs: seq<Employee>): (shown: seq<Employee>)
    ensures |shown| == |rs|
  {
    seq(|rs|, i requires 0 <= i < |rs| => NodeRecord(employees, rs[i]))
  }

  lemma ResolvedAppend(employees: seq<Employee>, a: seq<Employee>, b: seq<Employee>)
    ensures Resolved(employees, a + b) == Resolved(employees, a) + Resolved(employees, b)
  {
  }

  /** With unique ids every record's node shows that record. */
  lemma ResolvedUnique(employees: seq<Employee>, rs: seq<Employee>)
    requires UniqueIds(employees) && forall x | x in rs :: x in employees
    ensures Resolved(employees, rs) == rs
  {
    forall i | 0 <= i < |rs| ensures Resolved(employees, rs)[i] == rs[i] {
      LookupFindsRecord(employees, rs[i]);
    }
  }

  /** The tree node pushed for `e` once every child has been pushed onto
      its parent's `children`: the node the id map holds for `e.id`. */
  function Grow(employees: seq<Employee>, links: map<string, seq<Employee>>, e: Employee): TreeNode
    requires Acyclic(employees) && links == ReportsMap(employees) && e in employees
    decreases DownRank(employees, e.id), 1
  {
    var reports := links[e.id];
    ReportsRankLower(employees, e.id, reports);
    TreeNode(NodeRecord(employees, e), GrowAll(employees, links, reports, DownRank(employees, e.id)))
  }

  /** The tree nodes of the records `rs`, in order. */
  function GrowAll(employees: seq<Employee>, links: map<string, seq<Employee>>, rs: seq<Employee>,
                   ghost bound: nat): (ts: seq<TreeNode>)
    requires Acyclic(employees) && links == ReportsMap(employees)
    requires forall r | r in rs :: r in employees && DownRank(employees, r.id) < bound
    ensures |ts| == |rs|
    decreases bound, 0, |rs|
  {
    if rs == [] then []
    else
      var last := rs[|rs| - 1];
      GrowAll(employees, links, rs[..|rs| - 1], bound) + [Grow(employees, links, last)]
  }

  lemma DownRankBound(employees: seq<Employee>, id: string)
    requires Acyclic(employees)
    ensures DownRank(employees, id) <= |Ids(employees)|
  {
    if id in Ids(employees) {
      SubsetSize(Deeper(employees, id), Ids(employees));
    }
  }

  lemma RootsRankBelow(employees: seq<Employee>)
    requires Acyclic(employees)
    ensures forall r | r in Roots(employees) :: r in employees && DownRank(employees, r.id) < |Ids(employees)| + 1
  {
    forall r | r in Roots(employees) ensures DownRank(employees, r.id) < |Ids(employees)| + 1 {
      DownRankBound(employees, r.id);
    }
  }

  /** What `buildEmployeeTree` returns: the roots' trees, in list order. */
  function EmployeeForest(employees: seq<Employee>): seq<TreeNode>
    requires Acyclic(employees)
  {
    RootsRankBelow(employees);
    GrowAll(employees, ReportsMap(employees), Roots(employees), |Ids(employees)| + 1)
  }

  /** The children lists after the first `k` employees have been linked. */
  function PartialReportsMap(employees: seq<Employee>, k: nat): (links: map<string, seq<Employee>>)
    requires k <= |employees|
    ensures links.Keys == Ids(employees)
  {
    map id | id in Ids(employees) :: DirectReports(employees[..k], id)
  }

  /** Linking employee `k` appends it to its manager's list, if that manager
      has a record, and changes no other list. */
  lemma PartialReportsMapStep(employees: seq<Employee>, k: nat)
    requires k < |employees|
    ensures var e := employees[k];
      PartialReportsMap(employees, k + 1) ==
        if e.managerId.Some? && e.managerId.value in Ids(employees) then
          PartialReportsMap(employees, k)[e.managerId.value := PartialReportsMap(employees, k)[e.managerId.value] + [e]]
        else PartialReportsMap(employees, k)
  {
    var prefix := employees[..k + 1];
    assert prefix[..k] == employees[..k];
    forall id | id in Ids(employees)
      ensures PartialReportsMap(employees, k + 1)[id] ==
              PartialReportsMap(employees, k)[id] + if employees[k].managerId == Some(id) then [employees[k]] else []
    {
      assert DirectReports(prefix, id) == Filter(prefix, (e: Employee) => e.managerId == Some(id));
    }
  }

  lemma RootsAmongStep(employees: seq<Employee>, k: nat)
    requires k < |employees|
    ensures IsRoot(employees, employees[k]) ==>
            RootsAmong(employees, employees[..k + 1]) == RootsAmong(employees, employees[..k]) + [employees[k]]
    ensures !IsRoot(employees, employees[k]) ==>
            RootsAmong(employees, employees[..k + 1]) == RootsAmong(employees, employees[..k])
  {
    assert employees[..k + 1][..k] == employees[..k];
  }

  /** The first loop of `buildEmployeeTree`: an empty children list for every id. */
  method EmptyChildLists(employees: seq<Employee>) returns (children: map<string, seq<Employee>>)
    ensures children == PartialReportsMap(employees, 0)
  {
    children := map[];
    for k := 0 to |employees|
      invariant children.Keys == Ids(employees[..k])
      invariant forall id | id in children :: children[id] == []
    {
      assert employees[..k + 1] == employees[..k] + [employees[k]];
      children := children[employees[k].id := []];
    }
    assert employees[..|employees|] == employees;
  }

  /** The second loop of `buildEmployeeTree`: each employee is pushed onto
      its manager's list, or onto the roots when it has no manager or the
      manager is not found. */
  method LinkEmployees(employees: seq<Employee>, children0: map<string, seq<Employee>>)
    returns (children: map<string, seq<Employee>>, rootEmployees: seq<Employee>)
    requires children0 == PartialReportsMap(employees, 0)
    ensures children == ReportsMap(employees)
    ensures rootEmployees == Roots(employees)
  {
    children := children0;
    rootEmployees := [];
    for k := 0 to |employees|
      invariant children == PartialReportsMap(employees, k)
      invariant rootEmployees == RootsAmong(employees, employees[..k])
    {
      var emp := employees[k];
      PartialReportsMapStep(employees, k);
      RootsAmongStep(employees, k);
      if emp.managerId.None? {
        rootEmployees := rootEmployees + [emp];
      } else if emp.managerId.value in children {
        var m := emp.managerId.value;
        children := children[m := children[m] + [emp]];
      } else {
        rootEmployees := rootEmployees + [emp];
      }
    }
    assert employees[..|employees|] == employees;
  }

  /** `buildEmployeeTree`: one loop creates an empty children list per id,
      a second loop links every employee, and the roots' trees are returned. */
  method BuildEmployeeTree(employees: seq<Employee>) returns (roots: seq<TreeNode>)
    requires Acyclic(employees)
    ensures roots == EmployeeForest(employees)
  {
    var children := EmptyChildLists(employees);
    var rootEmployees;
    children, rootEmployees := LinkEmployees(employees, children);
    RootsRankBelow(employees);
    roots := GrowAll(employees, children, rootEmployees, |Ids(employees)| + 1);
  }

  /** The employees at the top of the trees `ts`, in order. */
  function Employees(ts: seq<TreeNode>): (es: seq<Employee>)
    ensures |es| == |ts|
  {
    seq(|ts|, i requires 0 <= i < |ts| => ts[i].employee)
  }

  /** Growing a list of records gives one node per record, in order, each
      showing the record the id map holds for its id. */
  lemma {:induction false} GrowAllKeepsOrder(employees: seq<Employee>, links: map<string, seq<Employee>>,
                                            rs: seq<Employee>, bound: nat)
    requires Acyclic(employees) && links == ReportsMap(employees)
    requires forall r | r in rs :: r in employees && DownRank(employees, r.id) < bound
    ensures Employees(GrowAll(employees, links, rs, bound)) == Resolved(employees, rs)
  {
    if rs != [] {
      GrowAllKeepsOrder(employees, links, rs[..|rs| - 1], bound);
      assert rs == rs[..|rs| - 1] + [rs[|rs| - 1]];
      ResolvedAppend(employees, rs[..|rs| - 1], [rs[|rs| - 1]]);
    }
  }

  /** Every node shows the record the id map holds for its id, and its
      children are the nodes of its id's direct reports, in list order, all
      the way down. */
  ghost predicate Linked(employees: seq<Employee>, t: TreeNode)
    decreases t
  {
    && t.employee in employees
    && t.employee == NodeRecord(employees, t.employee)
    && Employees(t.children) == Resolved(employees, DirectReports(employees, t.employee.id))
    && forall c | c in t.children :: Linked(employees, c)
  }

  lemma {:induction false} GrowIsLinked(employees: seq<Employee>, links: map<string, seq<Employee>>, e: Employee)
    requires Acyclic(employees) && links == ReportsMap(employees) && e in employees
    ensures Linked(employees, Grow(employees, links, e))
    decreases DownRank(employees, e.id), 1
  {
    var reports := links[e.id];
    ReportsRankLower(employees, e.id, reports);
    GrowAllKeepsOrder(employees, links, reports, DownRank(employees, e.id));
    GrowAllIsLinked(employees, links, reports, DownRank(employees, e.id));
    assert e.id in Ids(employees);
    var shown := NodeRecord(employees, e);
    assert shown in employees && shown.id == e.id;
  }

  lemma {:induction false} GrowAllIsLinked(employees: seq<Employee>, links: map<string, seq<Employee>>,
                                          rs: seq<Employee>, bound: nat)
    requires Acyclic(employees) && links == ReportsMap(employees)
    requires forall r | r in rs :: r in employees && DownRank(employees, r.id) < bound
    ensures forall t | t in GrowAll(employees, links, rs, bound) :: Linked(employees, t)
    decreases bound, 0, |rs|
  {
    if rs != [] {
      GrowAllIsLinked(employees, links, rs[..|rs| - 1], bound);
      GrowIsLinked(employees, links, rs[|rs| - 1]);
    }
  }

  /** The pre-order of the tree grown from `e` shows the nodes of `e`
      followed by `getSubordinates(e.id)`. */
  lemma {:induction false} FlattenGrow(employees: seq<Employee>, links: map<string, seq<Employee>>, e: Employee)
    requires Acyclic(employees) && links == ReportsMap(employees) && e in employees
    ensures Flatten(Grow(employees, links, e)) == Resolved(employees, [e] + Subordinates(employees, e.id))
    decreases DownRank(employees, e.id), 1
  {
    var reports := links[e.id];
    ReportsRankLower(employees, e.id, reports);
    FlattenGrowAll(employees, links, reports, DownRank(employees, e.id));
    ResolvedAppend(employees, [e], Subordinates(employees, e.id));
  }

  lemma {:induction false} FlattenGrowAll(employees: seq<Employee>, links: map<string, seq<Employee>>,
                                         rs: seq<Employee>, bound: nat)
    requires Acyclic(employees) && links == ReportsMap(employees)
    requires forall r | r in rs :: r in employees && DownRank(employees, r.id) < bound
    ensures FlattenAll(GrowAll(employees, links, rs, bound)) == Resolved(employees, SubtreeList(employees, rs, bound))
    decreases bound, 0, |rs|
  {
    if rs != [] {
      var prefix, last := rs[..|rs| - 1], rs[|rs| - 1];
      FlattenGrowAll(employees, links, prefix, bound);
      FlattenGrow(employees, links, last);
      FlattenGrowAllStep(employees, links, rs, bound);
    }
  }

  /** The step of `FlattenGrowAll`: the claim for all but the last record
      and the claim for the last record give the claim for all of them. */
  lemma FlattenGrowAllStep(employees: seq<Employee>, links: map<string, seq<Employee>>,
                           rs: seq<Employee>, bound: nat)
    requires Acyclic(employees) && links == ReportsMap(employees) && rs != []
    requires forall r | r in rs :: r in employees && DownRank(employees, r.id) < bound
    requires FlattenAll(GrowAll(employees, links, rs[..|rs| - 1], bound)) ==
             Resolved(employees, SubtreeList(employees, rs[..|rs| - 1], bound))
    requires Flatten(Grow(employees, links, rs[|rs| - 1])) ==
             Resolved(employees, [rs[|rs| - 1]] + Subordinates(employees, rs[|rs| - 1].id))
    ensures FlattenAll(GrowAll(employees, links, rs, bound)) == Resolved(employees, SubtreeList(employees, rs, bound))
  {
    var prefix, last := rs[..|rs| - 1], rs[|rs| - 1];
    var front, node := GrowAll(employees, links, prefix, bound), Grow(employees, links, last);
    var below := SubtreeList(employees, prefix, bound);
    assert GrowAll(employees, links, rs, bound) == front + [node];
    FlattenAllSnoc(front, node);
    assert SubtreeList(employees, rs, bound) == below + [last] + Subordinates(employees, last.id);
    ResolvedAround(employees, below, last, Subordinates(employees, last.id));
  }

  lemma ResolvedAround(employees: seq<Employee>, before: seq<Employee>, x: Employee, after: seq<Employee>)
    ensures Resolved(employees, before + [x] + after) == Resolved(employees, before) + Resolved(employees, [x] + after)
  {
    assert before + [x] + after == before + ([x] + after);
    ResolvedAppend(employees, before, [x] + after);
  }

  lemma FlattenAllSnoc(ts: seq<TreeNode>, t: TreeNode)
    ensures FlattenAll(ts + [t]) == FlattenAll(ts) + Flatten(t)
  {
    assert (ts + [t])[..|ts|] == ts;
  }

  /** Nothing with a record is above a root. */
  lemma NothingAboveRoot(employees: seq<Employee>, r: Employee, a: string)
    requires UniqueIds(employees) && Acyclic(employees)
    requires r in employees && IsRoot(employees, r) && a in Ids(employees)
    ensures !Above(employees, a, r.id)
  {
    LookupFindsRecord(employees, r);
    if r.managerId.Some? {
      assert ManagerOf(employees, r.managerId.value).None?;
    }
  }

  /** Every employee is covered by some root: the top of its manager chain. */
  lemma {:induction false} RootCovers(employees: seq<Employee>, x: Employee)
    requires UniqueIds(employees) && Acyclic(employees) && x in employees
    ensures Covered(employees, Roots(employees), x)
    decreases UpRank(employees, x.id)
  {
    if IsRoot(employees, x) {
      assert Covers(employees, x, x);
    } else {
      var m := x.managerId.value;
      LookupFindsRecord(employees, x);
      ManagerRanksHigher(employees, x.id);
      var y := Lookup(employees, m).value;
      RootCovers(employees, y);
      var r :| r in Roots(employees) && Covers(employees, r, y);
      assert Covers(employees, r, x);
    }
  }

  /** `buildEmployeeTree` places every employee exactly once: as a root or
      in exactly one parent's children. */
  lemma ForestPlacesEachEmployeeOnce(employees: seq<Employee>)
    requires UniqueIds(employees) && Acyclic(employees)
    ensures multiset(FlattenAll(EmployeeForest(employees))) == multiset(employees)
  {
    var roots := Roots(employees);
    var bound := |Ids(employees)| + 1;
    RootsRankBelow(employees);
    FlattenGrowAll(employees, ReportsMap(employees), roots, bound);
    FilterKeepsUniqueIds(employees, (e: Employee) => IsRoot(employees, e));
    forall r1, r2 | r1 in roots && r2 in roots ensures !Above(employees, r1.id, r2.id) {
      NothingAboveRoot(employees, r2, r1.id);
    }
    var flat := SubtreeList(employees, roots, bound);
    forall x | x in flat ensures x in employees {
      SubtreeListCount(employees, roots, bound, x);
    }
    ResolvedUnique(employees, flat);
    forall x ensures multiset(FlattenAll(EmployeeForest(employees)))[x] == multiset(employees)[x] {
      SubtreeListCount(employees, roots, bound, x);
      UniqueIdsCount(employees, x);
      if x in employees {
        RootCovers(employees, x);
      }
    }
  }

  /** The roots of the forest are the nodes of the records without a
      manager or with a manager id that has no record, in list order; below
      them every node holds its id's direct reports in list order. With
      unique ids every node shows its own record. */
  lemma ForestShape(employees: seq<Employee>)
    requires Acyclic(employees)
    ensures Employees(EmployeeForest(employees)) == Resolved(employees, Roots(employees))
    ensures UniqueIds(employees) ==> Employees(EmployeeForest(employees)) == Roots(employees)
    ensures forall t | t in EmployeeForest(employees) :: Linked(employees, t)
  {
    RootsRankBelow(employees);
    GrowAllKeepsOrder(employees, ReportsMap(employees), Roots(employees), |Ids(employees)| + 1);
    GrowAllIsLinked(employees, ReportsMap(employees), Roots(employees), |Ids(employees)| + 1);
    if UniqueIds(employees) {
      ResolvedUnique(employees, Roots(employees));
    }
  }

  /** Two top-level records sharing an id: both root pushes take the one
      node the id map holds, the later record's, so the forest shows the
      later record twice and the earlier one nowhere. */
  lemma DuplicateIdShowsLaterRecord(first: Employee, later: Employee)
    requires first.id == later.id && first.managerId.None? && later.managerId.None?
    ensures Acyclic([first, later])
    ensures EmployeeForest([first, later]) == [TreeNode(later, []), TreeNode(later, [])]
  {
    var employees := [first, later];
    DuplicateIdNodes(first, later);
    var links := ReportsMap(employees);
    var bound := |Ids(employees)| + 1;
    RootsRankBelow(employees);
    assert employees[..1] == [first];
    assert GrowAll(employees, links, [first], bound) == [TreeNode(later, [])];
    assert EmployeeForest(employees) == GrowAll(employees, links, employees, bound);
  }

  lemma DuplicateIdNodes(first: Employee, later: Employee)
    requires first.id == later.id && first.managerId.None? && later.managerId.None?
    ensures Acyclic([first, later]) && Roots([first, later]) == [first, later]
    ensures Grow([first, later], ReportsMap([first, later]), first) == TreeNode(later, [])
    ensures Grow([first, later], ReportsMap([first, later]), later) == TreeNode(later, [])
  {
    var employees := [first, later];
    assert Ranked(employees, map[first.id := 0]);
    FilterIsSubList(employees, (e: Employee) => IsRoot(employees, e));
    FilterNone(employees, (e: Employee) => e.managerId == Some(first.id));
    assert Lookup(employees, first.id) == Some(later);
    assert ReportsMap(employees)[first.id] == [];
  }

  // ---------------------------------------------------------------------
  // Team forest
  // ---------------------------------------------------------------------

  /** `team`'s members, in list order. */
  function TeamMembers(employees: seq<Employee>, team: string): (r: seq<Employee>)
    ensures forall x :: x in r <==> x in employees && x.team == team
  {
    Filter(employees, (e: Employee) => e.team == team)
  }

  /** A member with its manager kept when it is truthy and in `teamIds`,
      and cleared to `None` otherwise. */
  function Scoped(e: Employee, teamIds: set<string>): Employee {
    e.(managerId := if Truthy(e.managerId) && e.managerId.value in teamIds then e.managerId else None)
  }

  /** The team-scoped records that `buildTeamTree` hands to `buildEmployeeTree`. */
  function TeamScoped(employees: seq<Employee>, team: string): (r: seq<Employee>)
    ensures |r| == |TeamMembers(employees, team)|
  {
    var members := TeamMembers(employees, team);
    var teamIds := Ids(members);
    seq(|members|, i requires 0 <= i < |members| => Scoped(members[i], teamIds))
  }

  lemma TeamScopedIds(employees: seq<Employee>, team: string)
    ensures Ids(TeamScoped(employees, team)) == Ids(TeamMembers(employees, team))
  {
    var members := TeamMembers(employees, team);
    var r := TeamScoped(employees, team);
    forall id | id in Ids(members) ensures id in Ids(r) {
      var i :| 0 <= i < |members| && members[i].id == id;
      assert r[i] in r;
    }
    forall id | id in Ids(r) ensures id in Ids(members) {
      var i :| 0 <= i < |r| && r[i].id == id;
      assert members[i] in members;
    }
  }

  /** The team records are exactly the team's members with only the manager
      adjusted: a manager inside the team is kept and any other one cleared,
      so no manager reference dangles. */
  lemma TeamScopedMembers(employees: seq<Employee>, team: string)
    ensures var r := TeamScoped(employees, team);
      && (forall x | x in r :: x.team == team)
      && (forall x | x in r :: x.managerId.None? || x.managerId.value in Ids(r))
      && (forall e | e in employees && e.team == team :: Scoped(e, Ids(r)) in r)
      && (forall x | x in r :: exists e | e in employees && e.team == team :: x == Scoped(e, Ids(r)))
  {
    var members := TeamMembers(employees, team);
    var r := TeamScoped(employees, team);
    TeamScopedIds(employees, team);
    forall x | x in r
      ensures x.team == team && (x.managerId.None? || x.managerId.value in Ids(r))
      ensures exists e | e in employees && e.team == team :: x == Scoped(e, Ids(r))
    {
      var i :| 0 <= i < |r| && r[i] == x;
      assert members[i] in members;
    }
    forall e | e in employees && e.team == team ensures Scoped(e, Ids(r)) in r {
      var i :| 0 <= i < |members| && members[i] == e;
      assert r[i] in r;
    }
  }

  /** Scoping to a team keeps ids unique and keeps the links acyclic: the
      same levels rank the team records. */
  lemma TeamScopedKeepsInvariants(employees: seq<Employee>, team: string)
    ensures UniqueIds(employees) ==> UniqueIds(TeamScoped(employees, team))
    ensures Acyclic(employees) ==> Acyclic(TeamScoped(employees, team))
  {
    TeamScopedIds(employees, team);
    if UniqueIds(employees) {
      FilterKeepsUniqueIds(employees, (e: Employee) => e.team == team);
      assert UniqueIds(TeamMembers(employees, team));
    }
    if Acyclic(employees) {
      TeamScopedRanked(employees, team);
    }
  }

  /** The company's levels still rank the team-scoped records. */
  lemma TeamScopedRanked(employees: seq<Employee>, team: string)
    requires Acyclic(employees)
    ensures Ranked(TeamScoped(employees, team), Levels(employees))
  {
    var members := TeamMembers(employees, team);
    var r := TeamScoped(employees, team);
    var level := Levels(employees);
    TeamScopedIds(employees, team);
    forall x | x in r && x.managerId.Some? && x.managerId.value in Ids(r)
      ensures x.id in level && level[x.managerId.value] < level[x.id]
    {
      var i :| 0 <= i < |r| && r[i] == x;
      TeamScopedRecordRanked(employees, team, i);
    }
    assert Ids(r) <= Ids(employees) by {
      forall id | id in Ids(r) ensures id in Ids(employees) {
        var i :| 0 <= i < |r| && r[i].id == id;
        assert members[i] in employees;
      }
    }
  }

  /** A kept manager link of a team-scoped record is a link of the company. */
  lemma TeamScopedRecordRanked(employees: seq<Employee>, team: string, i: int)
    requires Acyclic(employees)
    requires 0 <= i < |TeamScoped(employees, team)|
    requires TeamScoped(employees, team)[i].managerId.Some?
    ensures var x := TeamScoped(employees, team)[i];
      x.id in Levels(employees) && Levels(employees)[x.managerId.value] < Levels(employees)[x.id]
  {
    var members := TeamMembers(employees, team);
    var x := TeamScoped(employees, team)[i];
    TeamScopedIds(employees, team);
    assert members[i] in employees;
    var j :| 0 <= j < |members| && members[j].id == x.managerId.value;
    assert members[j] in employees;
  }

  /** `buildTeamTree`: the forest of the team-scoped records. */
  method BuildTeamTree(employees: seq<Employee>, team: string) returns (roots: seq<TreeNode>)
    requires Acyclic(employees)
    ensures Acyclic(TeamScoped(employees, team))
    ensures roots == EmployeeForest(TeamScoped(employees, team))
  {
    var modifiedEmployees := TeamScoped(employees, team);
    TeamScopedKeepsInvariants(employees, team);
    roots := BuildEmployeeTree(modifiedEmployees);
  }

  /** The team forest holds each team member exactly once, every one of them
      from the team, and its roots are the members whose manager is not a
      team member. */
  lemma TeamForestHoldsTeam(employees: seq<Employee>, team: string)
    requires UniqueIds(employees) && Acyclic(employees)
    ensures Acyclic(TeamScoped(employees, team))
    ensures multiset(FlattenAll(EmployeeForest(TeamScoped(employees, team)))) == multiset(TeamScoped(employees, team))
    ensures forall x | x in FlattenAll(EmployeeForest(TeamScoped(employees, team))) :: x.team == team
    ensures forall x | x in Roots(TeamScoped(employees, team)) :: x.managerId.None?
  {
    var r := TeamScoped(employees, team);
    TeamScopedKeepsInvariants(employees, team);
    TeamScopedMembers(employees, team);
    ForestPlacesEachEmployeeOnce(r);
    var flat := FlattenAll(EmployeeForest(r));
    forall x | x in flat ensures x.team == team {
      assert multiset(flat)[x] > 0;
      assert x in multiset(r);
    }
  }

  // ---------------------------------------------------------------------
  // Search
  // ---------------------------------------------------------------------

  /** The record's name, designation or team, lower-cased, contains `lowerQuery`. */
  predicate MatchesQuery(e: Employee, lowerQuery: string) {
    Includes(Lower(e.name), lowerQuery) ||
    Includes(Lower(e.designation), lowerQuery) ||
    Includes(Lower(e.team), lowerQuery)
  }

  /** `searchEmployees`: the whole list for a blank query, else the records
      matching the lower-cased (untrimmed) query, in list order. */
  function SearchEmployees(employees: seq<Employee>, query: string): (r: seq<Employee>)
  {
    if IsBlank(query) then employees
    else Filter(employees, (e: Employee) => MatchesQuery(e, Lower(query)))
  }

  /** Search returns the input for a blank query, and otherwise keeps a
      record exactly when it matches, without reordering. */
  lemma SearchIsOrderedFilter(employees: seq<Employee>, query: string)
    ensures IsBlank(query) ==> SearchEmployees(employees, query) == employees
    ensures !IsBlank(query) ==>
      forall e :: e in SearchEmployees(employees, query) <==> e in employees && MatchesQuery(e, Lower(query))
    ensures SubList(SearchEmployees(employees, query), employees)
  {
    FilterIsSubList(employees, (e: Employee) => MatchesQuery(e, Lower(query)));
    if IsBlank(query) {
      FilterIsSubList(employees, (e: Employee) => true);
      assert Filter(employees, (e: Employee) => true) == employees;
    }
  }

  /** Searching a search result again with the same query changes nothing. */
  lemma SearchIdempotent(employees: seq<Employee>, query: string)
    ensures SearchEmployees(SearchEmployees(employees, query), query) == SearchEmployees(employees, query)
  {
    if !IsBlank(query) {
      var p := (e: Employee) => MatchesQuery(e, Lower(query));
      FilterIsSubList(Filter(employees, p), p);
    }
  }

  /** Queries that differ only in letter case find the same records. */
  lemma SearchIgnoresCase(employees: seq<Employee>, q1: string, q2: string)
    requires Lower(q1) == Lower(q2)
    ensures SearchEmployees(employees, q1) == SearchEmployees(employees, q2)
  {
    assert |q1| == |q2|;
    forall i | 0 <= i < |q1| ensures IsWhitespace(q1[i]) <==> IsWhitespace(q2[i]) {
      assert LowerChar(q1[i]) == LowerChar(q2[i]);
    }
    assert IsBlank(q1) <==> IsBlank(q2);
  }

  // ---------------------------------------------------------------------
  // Ancestor path
  // ---------------------------------------------------------------------

  /** Termination measure of the ancestor walk: the current id is falsy, or
      its rank towards the top plus one. */
  ghost function WalkRank(employees: seq<Employee>, current: Option<string>): nat
    requires Acyclic(employees)
  {
    if Truthy(current) then UpRank(employees, current.value) + 1 else 0
  }

  /** `getAncestorPath`: the ids from the top of the chain down to `id`.
      The walk stops at the first falsy manager id; an id without a record
      is still included, as the walk adds each id before looking it up. */
  function AncestorPath(employees: seq<Employee>, id: string): seq<string>
    requires Acyclic(employees)
    decreases WalkRank(employees, Some(id))
  {
    if id == "" then []
    else
      var manager := ManagerOf(employees, id);
      if !Truthy(manager) then [id]
      else
        ManagerRanksHigher(employees, id);
        AncestorPath(employees, manager.value) + [id]
  }

  /** The path ends with `id` (it is empty only for the falsy `""`), holds
      no falsy id, links each id to the next as its manager, starts at an
      id without a truthy manager, and is `[id]` exactly for such an id. */
  lemma {:induction false} AncestorPathShape(employees: seq<Employee>, id: string)
    requires Acyclic(employees)
    ensures var path := AncestorPath(employees, id);
      && (id == "" ==> path == [])
      && (id != "" ==> |path| >= 1 && path[|path| - 1] == id)
      && (forall i | 0 <= i < |path| :: path[i] != "")
      && (forall i | 0 <= i < |path| - 1 :: ManagerOf(employees, path[i + 1]) == Some(path[i]))
      && (|path| >= 1 ==> !Truthy(ManagerOf(employees, path[0])))
      && (id != "" ==> (path == [id] <==> !Truthy(ManagerOf(employees, id))))
    decreases WalkRank(employees, Some(id))
  {
    if id != "" && Truthy(ManagerOf(employees, id)) {
      var m := ManagerOf(employees, id).value;
      ManagerRanksHigher(employees, id);
      AncestorPathShape(employees, m);
      var upper := AncestorPath(employees, m);
      var path := upper + [id];
      assert AncestorPath(employees, id) == path;
      forall i | 0 <= i < |path| - 1 ensures ManagerOf(employees, path[i + 1]) == Some(path[i]) {
        if i < |upper| - 1 {
          assert path[i] == upper[i] && path[i + 1] == upper[i + 1];
        }
      }
    }
  }

  /** Every id of `path` is above every later one. */
  ghost predicate IsChain(employees: seq<Employee>, path: seq<string>)
    requires Acyclic(employees)
  {
    forall i, j | 0 <= i < j < |path| :: Above(employees, path[i], path[j])
  }

  /** Every id on the path is above every later one, so the path has no
      repeated id. */
  lemma {:induction false} AncestorPathIsChain(employees: seq<Employee>, id: string)
    requires Acyclic(employees)
    ensures IsChain(employees, AncestorPath(employees, id))
    ensures forall i, j | 0 <= i < j < |AncestorPath(employees, id)| ::
      AncestorPath(employees, id)[i] != AncestorPath(employees, id)[j]
    decreases WalkRank(employees, Some(id))
  {
    var path := AncestorPath(employees, id);
    if id != "" && Truthy(ManagerOf(employees, id)) {
      var m := ManagerOf(employees, id).value;
      ManagerRanksHigher(employees, id);
      AncestorPathIsChain(employees, m);
      var upper := AncestorPath(employees, m);
      assert IsChain(employees, upper);
      assert path == upper + [id];
      forall i, j | 0 <= i < j < |path| ensures Above(employees, path[i], path[j]) {
        if j == |path| - 1 {
          assert upper[|upper| - 1] == m && path[i] == upper[i];
          if i < |upper| - 1 {
            assert Above(employees, upper[i], upper[|upper| - 1]);
          }
          assert path[i] == m || Above(employees, path[i], m);
        } else {
          assert path[i] == upper[i] && path[j] == upper[j];
        }
      }
    }
    forall i, j | 0 <= i < j < |path| ensures path[i] != path[j] {
      AboveRanksHigher(employees, path[i], path[j]);
    }
  }

  /** The part of the path still to be walked from `current`. */
  function RemainingPath(employees: seq<Employee>, current: Option<string>): seq<string>
    requires Acyclic(employees)
  {
    if Truthy(current) then AncestorPath(employees, current.value) else []
  }

  lemma AncestorPathStep(employees: seq<Employee>, id: string)
    requires Acyclic(employees) && id != ""
    ensures AncestorPath(employees, id) == RemainingPath(employees, ManagerOf(employees, id)) + [id]
  {
  }

  /** `getAncestorPath` as written: a while loop over the current id that
      puts it in front of the path and moves to its manager. */
  method GetAncestorPath(employees: seq<Employee>, employeeId: string) returns (path: seq<string>)
    requires Acyclic(employees)
    ensures path == AncestorPath(employees, employeeId)
  {
    path := [];
    var currentId: Option<string> := Some(employeeId);
    while Truthy(currentId)
      invariant RemainingPath(employees, currentId) + path == AncestorPath(employees, employeeId)
      decreases WalkRank(employees, currentId)
    {
      var id := currentId.value;
      WalkStep(employees, id, path, AncestorPath(employees, employeeId));
      path := [id] + path;
      var employee := Lookup(employees, id);
      currentId := if employee.Some? then employee.value.managerId else None;
      assert currentId == ManagerOf(employees, id);
    }
  }

  /** One turn of the walk: moving `id` to the front of the path and going
      on from its manager leaves the same whole path, at a lower rank. */
  lemma WalkStep(employees: seq<Employee>, id: string, path: seq<string>, whole: seq<string>)
    requires Acyclic(employees) && id != ""
    requires RemainingPath(employees, Some(id)) + path == whole
    ensures RemainingPath(employees, ManagerOf(employees, id)) + ([id] + path) == whole
    ensures WalkRank(employees, ManagerOf(employees, id)) < WalkRank(employees, Some(id))
  {
    AncestorPathStep(employees, id);
    var rest := RemainingPath(employees, ManagerOf(employees, id));
    assert (rest + [id]) + path == rest + ([id] + path);
    if Truthy(ManagerOf(employees, id)) {
      ManagerRanksHigher(employees, id);
    }
  }

  // ---------------------------------------------------------------------
  // Cycle check
  // ---------------------------------------------------------------------

  /** The ids of `getSubordinates(id)`, as a set. */
  function SubordinateIds(employees: seq<Employee>, id: string): set<string>
    requires Acyclic(employees)
  {
    set e | e in Subordinates(employees, id) :: e.id
  }

  /** `wouldCreateCycle`: moving `employeeId` under `newManagerId` is refused
      when the two are the same or the new manager is a subordinate. */
  function WouldCreateCycle(employees: seq<Employee>, employeeId: string, newManagerId: string): bool
    requires Acyclic(employees)
  {
    if employeeId == newManagerId then true
    else newManagerId in SubordinateIds(employees, employeeId)
  }

  /** The check flags exactly self-assignment and assignment below oneself. */
  lemma WouldCreateCycleMeaning(employees: seq<Employee>, a: string, b: string)
    requires UniqueIds(employees) && Acyclic(employees)
    ensures WouldCreateCycle(employees, a, b) <==> a == b || Above(employees, a, b)
  {
    if a != b {
      if b in SubordinateIds(employees, a) {
        var x :| x in Subordinates(employees, a) && x.id == b;
        SubordinatesAreBelow(employees, a, x);
      }
      if Above(employees, a, b) {
        AboveRanksHigher(employees, a, b);
        var x :| x in employees && x.id == b;
        SubordinatesAreBelow(employees, a, x);
      }
    }
  }

  /** For an employee with a record, the check flags a reparent exactly when
      performing it would make the manager links cyclic. */
  lemma WouldCreateCycleExact(employees: seq<Employee>, a: string, b: string)
    requires UniqueIds(employees) && Acyclic(employees) && a in Ids(employees)
    ensures WouldCreateCycle(employees, a, b) <==> !Acyclic(WithManager(employees, a, Some(b)))
  {
    WouldCreateCycleMeaning(employees, a, b);
    ReparentKeepsAcyclicIff(employees, a, b);
  }

  // ---------------------------------------------------------------------
  // Subtree size
  // ---------------------------------------------------------------------

  /** `countSubordinates`: a loop over the children adding one plus each
      child's own count. */
  method CountSubordinates(node: TreeNode) returns (count: nat)
    ensures count == |Flatten(node)| - 1
    decreases node
  {
    count := 0;
    for k := 0 to |node.children|
      invariant count == |FlattenAll(node.children[..k])|
    {
      var child := node.children[k];
      var below := CountSubordinates(child);
      assert node.children[..k + 1][..k] == node.children[..k];
      count := count + 1 + below;
    }
    assert node.children[..|node.children|] == node.children;
  }
}
