/** The records of the org chart: employees, the tree nodes built from
    them, and the fixed list of teams. */
module EmployeeTypes {
  import opened Wrappers

  /** An employee record. `managerId == None` marks a top-level employee;
      otherwise it names another employee's `id`. `email` and `avatar`
      are optional. */
  datatype Employee = Employee(
    id: string,
    name: string,
    designation: string,
    team: string,
    managerId: Option<string>,
    email: Option<string>,
    avatar: Option<string>)

  /** An employee together with its ordered direct reports, as tree nodes. */
  datatype TreeNode = TreeNode(employee: Employee, children: seq<TreeNode>)

  /** The six teams of the organisation. */
  datatype Team = Engineering | Product | Sales | Marketing | Operations | Finance

  function TeamName(t: Team): string {
    match t
    case Engineering => "Engineering"
    case Product => "Product"
    case Sales => "Sales"
    case Marketing => "Marketing"
    case Operations => "Operations"
    case Finance => "Finance"
  }

  /** The teams in the order the filter lists them. */
  const TEAMS: seq<Team> := [Engineering, Product, Sales, Marketing, Operations, Finance]

  /** TEAMS lists every team exactly once, and distinct teams have distinct names. */
  lemma TeamsListsEachTeamOnce()
    ensures |TEAMS| == 6
    ensures forall t: Team :: t in TEAMS
    ensures forall i, j | 0 <= i < j < |TEAMS| :: TEAMS[i] != TEAMS[j]
    ensures forall t, u: Team :: TeamName(t) == TeamName(u) ==> t == u
  {
    forall t: Team ensures t in TEAMS {
      match t
      case Engineering => assert TEAMS[0] == t;
      case Product => assert TEAMS[1] == t;
      case Sales => assert TEAMS[2] == t;
      case Marketing => assert TEAMS[3] == t;
      case Operations => assert TEAMS[4] == t;
      case Finance => assert TEAMS[5] == t;
    }
  }

  /** The employees of a tree in pre-order: the node, then each child's subtree in order. */
  function Flatten(t: TreeNode): seq<Employee>
    decreases t
  {
    [t.employee] + FlattenAll(t.children)
  }

  /** The pre-order lists of the trees of a forest, one after the other. */
  function FlattenAll(ts: seq<TreeNode>): seq<Employee>
    decreases ts
  {
    if ts == [] then [] else FlattenAll(ts[..|ts| - 1]) + Flatten(ts[|ts| - 1])
  }

  /** The team of each employee, in order: `employees.map(e => e.team)`.
      A team occurs in it exactly when some employee belongs to it. */
  function TeamColumn(employees: seq<Employee>): (teams: seq<string>)
    ensures |teams| == |employees| && forall i | 0 <= i < |employees| :: teams[i] == employees[i].team
    ensures forall t :: t in teams <==> exists e | e in employees :: e.team == t
  {
    seq(|employees|, i requires 0 <= i < |employees| => employees[i].team)
  }
}
