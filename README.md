# Organization chart — a verified model

The organization chart shows a company's reporting lines as a draggable
tree built from a flat list of employee records. Each record carries an
`id` and a nullable `managerId`. This project models the logic behind
that view, in Dafny:

- the tree utilities: building the forest, the team forest, search, the
  ancestor path, the subordinate walk, the cycle check and the subtree
  count;
- the chart's drag-to-reparent procedure over its `activeEmployee` and
  `error` state;
- the connector lines a node draws down to its children, from measured
  rectangles;
- the client store's transitions, with each network exchange given as an
  input;
- the mock REST server's table and route handlers, with its own cycle
  check;
- the employee list page's filter and per-team counts, the team filter's
  value mapping and options, the avatar's initials and colour, and the
  GitHub Pages redirect.

The hierarchy invariant is `Hierarchy.Acyclic`: some ranking places every
employee strictly below the manager its record names. Walks up and down
the hierarchy terminate because of it. Where the code looks records up
through a `Map`, the model looks them up the same way, so the last record
with an id wins: a tree node for an id shows that record. The lemmas that
count each employee once assume unique ids (`Hierarchy.UniqueIds`).

Files and modules:

- `wrappers.dfy` (Wrappers): `Option`, JavaScript truthiness of a string,
  `filter`, order-preserving sub-lists, `[...new Set(xs)]`.
- `text.dfy` (Text): ASCII case mapping, `includes`, `trim`-blankness,
  `split`/`join` on one character, decimal numerals.
- `employee_types.dfy` (EmployeeTypes): `Employee`, `TreeNode`, `Team`,
  `TEAMS`, and the pre-order flattening of trees.
- `hierarchy.dfy` (Hierarchy): lookup by id, acyclicity, the "above"
  relation, and the manager-update and delete list operations.
- `tree_utils.dfy` (TreeUtils): `treeUtils.ts`.
- `org_chart.dfy` (OrgChart): `OrgChart.tsx`.
- `employee_nodes.dfy` (EmployeeNodes): `EmployeeNodes.tsx`.
- `employee_store.dfy` (EmployeeStore): `useEmployees.ts`.
- `mirage.dfy` (MockServer): `mirage.ts`.
- `count_record.dfy` (CountRecord): the `Record<string, number>` of team
  counts, as an insertion-ordered association list.
- `employee_list_page.dfy` (EmployeeListPage): `EmployeeListPage.tsx`.
- `team_filter.dfy` (TeamFilter): `TeamFilter.tsx`.
- `avatar.dfy` (Avatar): `Avatar.tsx`.
- `redirect.dfy` (Redirect): `useGitHubPagesRedirect.ts`.

Where the design and the code disagree, the model follows the code. The
design says the server re-validates cycle safety on PATCH. The server's
check does not refuse making an employee their own manager (see
"## Findings").

## Model

| member | source | states |
|---|---|---|
| Wrappers.Filter | src/utils/treeUtils.ts:90-95 | `filter` keeps exactly the elements that satisfy the predicate, and never more elements than the input has |
| Wrappers.FilterIsSubList | src/pages/EmployeeListPage.tsx:21-30 | a `filter` result is an order-preserving sub-list of its input; a predicate true of every element returns the input unchanged |
| Wrappers.Distinct | src/server/mirage.ts:84 | `[...new Set(xs)]` holds exactly the elements of `xs`, each once |
| Wrappers.DistinctKeepsFirstOccurrenceOrder | src/server/mirage.ts:84 | the set keeps elements in the order of their first occurrence in `xs` |
| EmployeeTypes.TeamsListsEachTeamOnce | src/types/employeeTypes.ts:29-44 | TEAMS has six entries, lists every Team, has no duplicates, and distinct teams have distinct names |
| EmployeeTypes.TeamColumn | src/server/mirage.ts:84 | `employees.map(e => e.team)` has one entry per employee, and a team occurs in it exactly when some employee belongs to it |
| Text.Lower | src/utils/treeUtils.ts:88 | `toLowerCase` keeps the length, leaves no upper-case letter, and keeps every character that is not one |
| Text.Upper | src/shared/Avatar/Avatar.tsx:42 | `toUpperCase` keeps the length, leaves no lower-case letter, and keeps every character that is not one |
| Text.CaseFolding | src/utils/treeUtils.ts:88 | lower-casing and upper-casing are idempotent, and each undoes the other up to case: `Lower(Upper(s)) == Lower(s)` |
| Text.IncludesIffOccurs | src/utils/treeUtils.ts:92-94 | `s.includes(t)` holds exactly when `t` occurs at some position of `s` |
| Text.IncludesEmpty | src/pages/EmployeeListPage.tsx:23-25 | the empty query is included in every string |
| Text.Split | src/shared/Avatar/Avatar.tsx:39 | `split` gives at least one part, no part contains the separator, and joining the parts with it gives back the string |
| Text.Numeral | src/server/mirage.ts:36 | `String(n)` is a non-empty string of digits that `parseInt` reads back as `n` |
| Hierarchy.Lookup | src/utils/treeUtils.ts:106-113 | a found record is in the list and has the id; nothing is found exactly when no record has the id |
| Hierarchy.LookupFindsRecord | src/utils/treeUtils.ts:106 | with unique ids, looking up a record's id finds that record |
| Hierarchy.ManagerRanksHigher | src/utils/treeUtils.ts:111-115 | each step up the manager chain strictly lowers the rank, so the upward walk terminates on acyclic data |
| Hierarchy.ReportRanksLower | src/utils/treeUtils.ts:128-133 | a direct report has strictly fewer employees deeper than it, so the downward recursion terminates |
| Hierarchy.DirectReports | src/utils/treeUtils.ts:128 | the direct reports are exactly the records whose `managerId` is the id |
| Hierarchy.AboveRanksHigher | src/types/employeeTypes.ts:13 | whoever is above an employee ranks strictly higher, so no one is above themselves |
| Hierarchy.WithManager | src/hooks/useEmployees.ts:47-51 | the `map` that sets one id's manager keeps the length; its meaning is stated by `Hierarchy.WithManagerKeepsIds` and `Hierarchy.WithManagerChangesOnlyTarget` |
| Hierarchy.WithManagerKeepsIds | src/hooks/useEmployees.ts:47-51 | changing a manager keeps every record's id in place, the id set, and the uniqueness of ids |
| Hierarchy.WithManagerChangesOnlyTarget | src/hooks/useEmployees.ts:47-51 | the same length and order; each record differs at most in `managerId`; exactly the records with the id get the new manager; every other employee's manager is unchanged |
| Hierarchy.ReparentKeepsAcyclicIff | src/utils/treeUtils.ts:141-153 | moving `a` under `b` keeps the links acyclic exactly when `a != b` and `a` is not above `b` |
| Hierarchy.FilterKeepsUniqueIds | src/hooks/useEmployees.ts:101 | filtering records keeps ids unique |
| Hierarchy.FilterKeepsAcyclic | src/server/mirage.ts:78 | removing records keeps the links acyclic |
| Hierarchy.ClearManagerKeepsAcyclic | src/server/mirage.ts:72 | clearing a manager keeps the links acyclic |
| Hierarchy.WithoutEmployee | src/hooks/useEmployees.ts:101 | the `filter` by a different id; its meaning is stated by `Hierarchy.WithoutEmployeeRemovesOnlyId` |
| Hierarchy.WithoutEmployeeRemovesOnlyId | src/hooks/useEmployees.ts:101 | deleting keeps exactly the records with another id, in order; the id set loses just that id; an absent id changes nothing |
| TreeUtils.GetSubordinates | src/utils/treeUtils.ts:123-136 | the loop returns the pre-order list: each direct report in list order, followed by its own subordinates |
| TreeUtils.SubordinatesCount | src/utils/treeUtils.ts:123-136 | with unique ids, each employee below `a` occurs exactly once and no other record occurs |
| TreeUtils.SubordinatesAreBelow | src/utils/treeUtils.ts:123-136 | a record is among `a`'s subordinates exactly when `a` is above it |
| TreeUtils.Roots | src/utils/treeUtils.ts:36-48 | the roots are exactly the records with no manager or whose manager id names no record |
| TreeUtils.PartialReportsMapStep | src/utils/treeUtils.ts:40-44 | linking employee `k` appends it to its manager's children when the manager has a record, and changes no other list |
| TreeUtils.RootsAmongStep | src/utils/treeUtils.ts:36-48 | linking employee `k` appends it to the roots exactly when it has no manager or a dangling one |
| TreeUtils.EmployeeForest | src/utils/treeUtils.ts:18-53 | the forest `buildEmployeeTree` returns; its shape is stated by `TreeUtils.ForestShape` and `TreeUtils.ForestPlacesEachEmployeeOnce` |
| TreeUtils.BuildEmployeeTree | src/utils/treeUtils.ts:18-53 | the two loops return the roots' trees in list order, each child list being the direct reports pushed in list order, and every node showing the last record with its id |
| TreeUtils.GrowAllKeepsOrder | src/utils/treeUtils.ts:33-44 | the trees of a list of records have at their tops, in the same order, the records the id map holds for them |
| TreeUtils.FlattenGrow | src/utils/treeUtils.ts:33-50 | the pre-order of an employee's tree is the employee followed by its subordinates as listed by the subordinate walk, each shown as the record the id map holds |
| TreeUtils.RootCovers | src/utils/treeUtils.ts:36-48 | every employee lies in the tree of some root, so none is dropped |
| TreeUtils.ForestPlacesEachEmployeeOnce | src/utils/treeUtils.ts:23-50 | with unique ids, the forest holds every input employee exactly once |
| TreeUtils.ForestShape | src/utils/treeUtils.ts:33-50 | the trees' tops are the roots in list order, and every node's children are exactly its direct reports in list order, each node showing the last record with its id; with unique ids the tops are the root records themselves |
| TreeUtils.DuplicateIdShowsLaterRecord | src/utils/treeUtils.ts:18-53 | two root records with the same id give two nodes that both show the later record, as the shared `employeeMap` node does |
| TreeUtils.TeamMembers | src/utils/treeUtils.ts:64 | the members are exactly the records of the team |
| TreeUtils.TeamScoped | src/utils/treeUtils.ts:64-74 | one scoped record per team member; its meaning is stated by `TreeUtils.TeamScopedMembers` |
| TreeUtils.TeamScopedMembers | src/utils/treeUtils.ts:64-74 | every scoped record is of the team; a kept manager is a team member; each team record appears with its manager kept when truthy and in the team, otherwise cleared; nothing else appears |
| TreeUtils.TeamScopedKeepsInvariants | src/utils/treeUtils.ts:69-74 | scoping to a team keeps ids unique and the links acyclic |
| TreeUtils.BuildTeamTree | src/utils/treeUtils.ts:59-77 | the team tree is the forest of the team-scoped records |
| TreeUtils.TeamForestHoldsTeam | src/utils/treeUtils.ts:59-77 | the team forest holds every team member exactly once, only team members, and its roots have no manager |
| TreeUtils.SearchEmployees | src/utils/treeUtils.ts:82-96 | `searchEmployees`; its meaning is stated by `TreeUtils.SearchIsOrderedFilter`, `TreeUtils.SearchIdempotent` and `TreeUtils.SearchIgnoresCase` |
| TreeUtils.SearchIsOrderedFilter | src/utils/treeUtils.ts:82-96 | a blank query returns the input; otherwise a record is kept exactly when its lower-cased name, designation or team contains the lower-cased query; the result is an order-preserving sub-list |
| TreeUtils.SearchIdempotent | src/utils/treeUtils.ts:82-96 | searching a result again with the same query changes nothing |
| TreeUtils.SearchIgnoresCase | src/utils/treeUtils.ts:88 | queries equal up to letter case find the same records |
| TreeUtils.AncestorPath | src/utils/treeUtils.ts:102-118 | the list of ids from the top manager down to the id; its shape is stated by `TreeUtils.AncestorPathShape` and `TreeUtils.AncestorPathIsChain` |
| TreeUtils.AncestorPathShape | src/utils/treeUtils.ts:102-118 | an empty id gives `[]`; otherwise the path ends with the id, holds no empty id, each entry is the manager of the next, the first entry has no truthy manager, and the path is `[id]` exactly when the id has no truthy manager |
| TreeUtils.AncestorPathIsChain | src/utils/treeUtils.ts:109-117 | each entry of the path is above every later one, so no id repeats |
| TreeUtils.GetAncestorPath | src/utils/treeUtils.ts:102-118 | the `unshift` loop returns the ancestor path |
| TreeUtils.WouldCreateCycle | src/utils/treeUtils.ts:141-153 | `wouldCreateCycle`; its meaning is stated by `TreeUtils.WouldCreateCycleMeaning` and `TreeUtils.WouldCreateCycleExact` |
| TreeUtils.WouldCreateCycleMeaning | src/utils/treeUtils.ts:141-153 | the check is true exactly for self-assignment or a new manager below the employee |
| TreeUtils.WouldCreateCycleExact | src/utils/treeUtils.ts:141-153 | the check is true exactly when the reassignment would make the links cyclic |
| TreeUtils.CountSubordinates | src/utils/treeUtils.ts:158-166 | the count is the size of the node's subtree minus one |
| OrgChart.ChartForest | src/components/OrgChart/OrgChart.tsx:36-41 | the tree the chart draws; `OrgChart.SelectTree` computes it and `OrgChart.ChartEmptyIffNoOne` says when it is empty |
| OrgChart.SelectTree | src/components/OrgChart/OrgChart.tsx:36-41 | the chart shows the team forest for a truthy selected team, else the whole company's forest |
| OrgChart.ChartEmptyIffNoOne | src/components/OrgChart/OrgChart.tsx:89-111 | the tree is empty, and the empty state shows, exactly when there are no employees, or no member of the selected team |
| OrgChart.EmptyStateExplains | src/components/OrgChart/OrgChart.tsx:89-111 | when the chart is empty, a truthy team's message names the team and no employee belongs to it; with no team the list is empty and the generic message shows |
| OrgChart.DropTargetId | src/components/OrgChart/OrgChart.tsx:68 | the raw over-id is the target id with at most one leading `drop-` |
| OrgChart.DropTargetOfDroppable | src/components/EmployeeNodes/EmployeeNodes.tsx:34-35 | reading back a node's droppable id gives that node's id |
| OrgChart.Decide | src/components/OrgChart/OrgChart.tsx:59-79 | what a drag end decides before any update; its guarantees are stated by `OrgChart.DecisionKeepsAcyclic` and `OrgChart.DragController.HandleDragEnd` |
| OrgChart.DecisionKeepsAcyclic | src/components/OrgChart/OrgChart.tsx:70-79 | a reassignment the chart lets through keeps the links acyclic, and one it rejects as a cycle would break them |
| OrgChart.DragController.constructor | src/components/OrgChart/OrgChart.tsx:33-34 | no active employee and no error |
| OrgChart.DragController.HandleDragStart | src/components/OrgChart/OrgChart.tsx:52-57 | the dragged node becomes active and the error is cleared |
| OrgChart.DragController.HandleDragEnd | src/components/OrgChart/OrgChart.tsx:59-86 | the active node is always reset; no target or a drop on self changes nothing else; a cycle sets the fixed message and makes no call; otherwise exactly one call `(draggedId, targetId)`, and a failure sets its message; each error schedules one clear |
| OrgChart.DragController.ClearTimerFires | src/components/OrgChart/OrgChart.tsx:74 | a pending clear resets the error and nothing else |
| OrgChart.SampleDrops | src/components/OrgChart/OrgChart.tsx:66-79 | on the test's sample team (Alice over Bob, Carol alone), dropping Alice on Bob's node is a cycle, Carol on Bob's is a reassignment to Bob, and Bob on his own node is ignored |
| EmployeeNodes.MinOf | src/components/EmployeeNodes/EmployeeNodes.tsx:101 | `Math.min` of a non-empty list is one of its elements and no larger than any |
| EmployeeNodes.MaxOf | src/components/EmployeeNodes/EmployeeNodes.tsx:102 | `Math.max` of a non-empty list is one of its elements and no smaller than any |
| EmployeeNodes.ConnectorLines | src/components/EmployeeNodes/EmployeeNodes.tsx:64-110 | the lines drawn for at least one child; their geometry is stated by `EmployeeNodes.ConnectorLinesShape` |
| EmployeeNodes.ConnectorLinesShape | src/components/EmployeeNodes/EmployeeNodes.tsx:64-110 | 2 lines for one child, n + 2 for n ≥ 2; the trunk runs down from the parent's bottom centre by 36; each child's line runs down from the bar to that child's top centre, in child order; the bar lies at the trunk's end and spans the leftmost to the rightmost child centre |
| EmployeeNodes.Max | src/components/EmployeeNodes/EmployeeNodes.tsx:119-120 | `Math.max(a, b)` is one of them and at least both |
| EmployeeNodes.Connectors.constructor | src/components/EmployeeNodes/EmployeeNodes.tsx:20 | the line list starts empty |
| EmployeeNodes.Connectors.CalculateLines | src/components/EmployeeNodes/EmployeeNodes.tsx:47-125 | a missing element or no child node gives no lines; otherwise the lines are the connector lines, and an existing SVG gets `max(1, clientWidth)` by `max(1, clientHeight)` |
| EmployeeNodes.SubordinateCount | src/components/EmployeeNodes/EmployeeNodes.tsx:158-165 | the badge count is the number of nodes below the node |
| EmployeeNodes.ChildrenCount | src/components/EmployeeNodes/EmployeeNodes.tsx:162 | the reduce over the children counts every node of their subtrees |
| EmployeeStore.Store.constructor | src/hooks/useEmployees.ts:5-9 | no employees, loading, no error, empty query, no team |
| EmployeeStore.Store.FetchEmployees | src/hooks/useEmployees.ts:15-27 | success replaces the list and clears the error; failure keeps the list and sets the error; loading ends either way |
| EmployeeStore.Store.UpdateEmployeeManager | src/hooks/useEmployees.ts:29-61 | success gives exactly the records with the id the new manager and returns the reply's employee; a refusal or a throw keeps the list, sets the server's `error` field or the fallback, and rejects |
| EmployeeStore.Store.CreateEmployee | src/hooks/useEmployees.ts:63-88 | success appends the reply's employee at the end; otherwise the list stays, the error is set and the call rejects |
| EmployeeStore.Store.DeleteEmployee | src/hooks/useEmployees.ts:90-109 | success removes every record with the id; otherwise the list stays, the error is set and the call rejects |
| EmployeeStore.Store.SetSearchQuery | src/hooks/useEmployees.ts:8 | only the search query changes |
| EmployeeStore.Store.SetSelectedTeam | src/hooks/useEmployees.ts:9 | only the selected team changes |
| MockServer.WithId | src/server/mirage.ts:38-41 | the new record has the generated id and the body's name, designation, team, managerId, email and avatar |
| MockServer.GetSubordinateIds | src/server/mirage.ts:96-107 | the server's walk lists the direct report ids first, then each report's own walk |
| MockServer.PushSubordinates | src/server/mirage.ts:101-104 | the `forEach` appends, after the ids already collected, each report's own walk in list order |
| MockServer.ServerSubordinatesAreSubordinates | src/server/mirage.ts:96-107 | the server's walk reaches the same ids as the client's `getSubordinates` |
| MockServer.CheckForCycle | src/server/mirage.ts:91-111 | `checkForCycle`; its meaning is stated by `MockServer.CheckForCycleMeaning` |
| MockServer.CheckForCycleMeaning | src/server/mirage.ts:91-111 | `checkForCycle` is true exactly when the new manager is below the employee; it agrees with the client check except on self-assignment |
| MockServer.PatchAsWritten | src/server/mirage.ts:47-74 | the PATCH handler as written; `MockServer.PatchAsWrittenAcceptsSelfManager` and `MockServer.NullPatchRepairsSelfManager` state what it does |
| MockServer.NullPatchRepairsSelfManager | src/server/mirage.ts:47-74 | on a table whose one record manages itself, a null manager is served without the cycle walk, clears the manager, and leaves the table acyclic |
| MockServer.PatchAsWrittenAcceptsSelfManager | src/server/mirage.ts:47-74 | as written, PATCH with an employee's own id as manager passes the check and stores a record that manages itself, breaking acyclicity |
| MockServer.SafeCheckForCycle | src/server/mirage.ts:56-70 | the corrected check; its meaning is stated by `MockServer.SafeCheckForCycleExact` |
| MockServer.SafeCheckForCycleExact | src/server/mirage.ts:56-70 | the corrected check equals the client's and refuses exactly the reparents that would make the links cyclic |
| MockServer.MaxIdValue | src/server/mirage.ts:36 | `Math.max` of the parsed ids bounds every id and is attained |
| MockServer.NewId | src/server/mirage.ts:36 | `String(max + 1)`; its freshness is stated by `MockServer.NewIdIsFresh` |
| MockServer.NewIdIsFresh | src/server/mirage.ts:36 | the new id is a numeral above every existing id, so no record has it |
| MockServer.TeamsPresent | src/server/mirage.ts:82-86 | `[...new Set(teams)]`; its meaning is stated by `MockServer.TeamsPresentOnce` and `MockServer.TeamsInFirstOccurrenceOrder` |
| MockServer.TeamsPresentOnce | src/server/mirage.ts:82-86 | every team present in the table is listed, once, and nothing else |
| MockServer.TeamsInFirstOccurrenceOrder | src/server/mirage.ts:84 | teams are listed in the order their first member appears |
| MockServer.Server.constructor | src/server/mirage.ts:7-11 | the table is the seed |
| MockServer.Server.ListEmployees | src/server/mirage.ts:18-21 | the reply lists the whole table, so every record that GET `/employees/:id` serves is in it |
| MockServer.Server.GetEmployee | src/server/mirage.ts:23-32 | an unknown id gets 404 "Employee not found"; a known one gets its record |
| MockServer.Server.Post | src/server/mirage.ts:34-45 | the table gains the body under the fresh id at the end, ids stay unique numerals, and the new record is returned |
| MockServer.Server.Patch | src/server/mirage.ts:47-74 | an unknown id gets 404 with no change; a truthy manager the check refuses gets 400 with no change; otherwise only that record's manager changes and it is returned; acyclic links stay acyclic, and only a truthy manager needs them acyclic to begin with |
| MockServer.Server.Delete | src/server/mirage.ts:76-80 | a known id's record is removed; an unknown id drops the last record, as `splice(-1, 1)` does; acyclicity and unique ids are kept, and the reply is always 200 `{ success: true }` |
| MockServer.DropLast | src/server/mirage.ts:78 | dropping the last record leaves the front of the table, and nothing from an empty one |
| MockServer.DropLastKeepsInvariants | src/server/mirage.ts:76-80 | dropping the last record keeps ids unique and numeric and the links acyclic |
| MockServer.Server.Teams | src/server/mirage.ts:82-86 | the reply lists the distinct teams present |
| MockServer.PatchKeepsAcyclic | src/server/mirage.ts:56-73 | a null, empty or permitted manager keeps the links acyclic |
| CountRecord.IncrementEffect | src/pages/EmployeeListPage.tsx:36 | a new key goes at the end; only that key's count grows, by one; the sum grows by one |
| CountRecord.Tally | src/pages/EmployeeListPage.tsx:33-39 | the counts after the `forEach`; its meaning is stated by `CountRecord.TallyMeaning` |
| CountRecord.TallyMeaning | src/pages/EmployeeListPage.tsx:33-39 | after counting, the keys are the distinct teams, each count is the team's number of occurrences, and the counts sum to the list's length |
| EmployeeListPage.FilteredEmployees | src/pages/EmployeeListPage.tsx:20-31 | the page's filtered list; its meaning is stated by `EmployeeListPage.FilteredEmployeesMeaning` |
| EmployeeListPage.FilteredEmployeesMeaning | src/pages/EmployeeListPage.tsx:20-31 | an employee is kept exactly when the lower-cased query is in the lower-cased name, email (a missing one read as empty) or designation, and no team or its team is selected; the result is an order-preserving sub-list; an empty query with no team keeps everyone |
| EmployeeListPage.EmployeeCounts | src/pages/EmployeeListPage.tsx:33-39 | the loop's counts hold each team present once, with its number of employees, summing to the list's length |
| EmployeeListPage.PagePrecedence | src/pages/EmployeeListPage.tsx:41-47 | loading shows first, then a truthy error, then the list |
| EmployeeListPage.FilterShowsPageCounts | src/components/SidebarContainer/TeamFilter/TeamFilter.tsx:26-29 | the filter's total for the page's counts is the number of employees, and each team shows its number of employees |
| TeamFilter.HandleChange | src/components/SidebarContainer/TeamFilter/TeamFilter.tsx:18-24 | the empty choice means no team; any other choice is passed on unchanged |
| TeamFilter.SelectValue | src/components/SidebarContainer/TeamFilter/TeamFilter.tsx:41 | no team shows as the empty value, a team as itself |
| TeamFilter.SelectRoundTrip | src/components/SidebarContainer/TeamFilter/TeamFilter.tsx:18-41 | the shown value fed back gives the selected team, no team included, except an empty team name; every choice is shown back as itself |
| TeamFilter.TotalEmployees | src/components/SidebarContainer/TeamFilter/TeamFilter.tsx:26-29 | there is a total exactly when counts are given, and it is the sum of the counts |
| TeamFilter.FilterOptions | src/components/SidebarContainer/TeamFilter/TeamFilter.tsx:44-51 | "All Teams" with the total, then each team of TEAMS in order with its count, or 0 when it has none, shown only when counts are given |
| TeamFilter.OptionsSelectEachTeamOnce | src/components/SidebarContainer/TeamFilter/TeamFilter.tsx:44-51 | the first option clears the team, the others select their teams, and no two options share a value |
| Avatar.Initials | src/shared/Avatar/Avatar.tsx:37-44 | at most two characters, none of them a lower-case letter |
| Avatar.FirstCharsOfSplit | src/shared/Avatar/Avatar.tsx:38-41 | the first characters of the space-separated parts are the word-start characters of the name, empty parts adding nothing |
| Avatar.InitialsAreWordStarts | src/shared/Avatar/Avatar.tsx:37-44 | the initials are the first two word starts, upper-cased |
| Avatar.ToInt32 | src/shared/Avatar/Avatar.tsx:31 | the 32-bit value lies in the signed range and equals the input modulo 2^32 |
| Avatar.ColorFromName | src/shared/Avatar/Avatar.tsx:18-35 | the colour is one of the eight palette entries; the empty name gets "#3b82f6" |
| Avatar.Hash | src/shared/Avatar/Avatar.tsx:30-32 | the hash loop's value; `Avatar.HashIsPoly31ModWord` and `Avatar.HashBound` state what it is |
| Avatar.HashIsPoly31ModWord | src/shared/Avatar/Avatar.tsx:30-32 | the hash equals the multiplier-31 polynomial hash of the name modulo 2^32 |
| Avatar.HashBound | src/shared/Avatar/Avatar.tsx:30-32 | the hash's magnitude is at most `|name| * 0x8011_0000`, exact in a double for names under four million characters |
| Redirect.ReplaceAnd | src/hooks/useGitHubPagesRedirect.ts:19 | `replace(/~and~/g, '&')`; its meaning is stated by `Redirect.ReplaceAndLeavesNoToken`, `Redirect.ReplaceAndKeepsPlainText` and `Redirect.ReplaceAndIdempotent` |
| Redirect.ReplaceAndNoTokenAtStart | src/hooks/useGitHubPagesRedirect.ts:19 | the replaced query never begins with `~and~` |
| Redirect.ReplaceAndLeavesNoToken | src/hooks/useGitHubPagesRedirect.ts:19 | after the replacement no `~and~` remains |
| Redirect.ReplaceAndKeepsPlainText | src/hooks/useGitHubPagesRedirect.ts:19 | a query without `~and~` is unchanged |
| Redirect.ReplaceAndIdempotent | src/hooks/useGitHubPagesRedirect.ts:19 | replacing twice is replacing once |
| Redirect.FullPath | src/hooks/useGitHubPagesRedirect.ts:18-20 | the path starts with `/` and ends with the hash |
| Redirect.FullPathParts | src/hooks/useGitHubPagesRedirect.ts:17-20 | with a query, the path is `/`, the redirect path, `?`, and the query with every `~and~` turned into `&`, then the hash |
| Redirect.Browser.RunRedirect | src/hooks/useGitHubPagesRedirect.ts:12-26 | nothing happens unless `p` is non-empty; then the URL is reset to the pathname, and after that the router replaces the entry with the full path |

## Left out

- JSX markup, CSS classes, the DnD-kit sensors, the drag overlay and collision detection: user interface, and a library the model cannot see.
- `fetch`, JSON parsing and promises: each store operation takes the way its request settled as an input (`FetchResponse`, `UpdateResponse`, `CreateResponse`, `DeleteResponse`). The request contents are not modelled.
- The store's `setLoading(true)` before the fetch settles: only the state after settling is stated.
- The three-second `setTimeout` that clears the chart's error: `pendingClears` counts the scheduled clears, and `ClearTimerFires` is one of them firing. Timing and ordering between timers are not modelled.
- ResizeObserver, the resize listeners, the layout effects and `querySelectorAll`: the measured rectangles, the client size and whether the SVG exists are inputs. Coordinates are Dafny `real`, not IEEE doubles. The SVG attributes are recorded as the size written.
- miragejs `createServer`, its response timing, the namespace and the seed generator: the server is a table of records with the seed as an input. The db collection's own `find`/`update`/`remove` are modelled over that list; miragejs itself is not part of this model. `remove` of an id no record has is modelled as removing the last record (`splice(-1, 1)` after an `indexOf` that finds nothing). A reply without an explicit status is `Plain`.
- MockServer.Server.Post: requires a non-empty table of numeric ids (`Math.max()` of nothing and `parseInt` of a non-numeral give NaN). A request body is a `Draft` without an `id`, because a body's own `id` would override the generated one. The contract does not state acyclicity, because the body's `managerId` is not checked and can name the new id or a missing record.
- MockServer.Server.Patch: only `managerId` is modelled in the PATCH body; other attributes are left out. The model's `None` is a `managerId` of `null`, which clears the manager; a body without a `managerId` key, for which `update(id, attrs)` leaves the manager unchanged, is not modelled.
- MockServer.Server.Patch: uses the corrected cycle check (see "## Findings"). The as-written handler is `MockServer.PatchAsWritten`.
- `console.warn` for a dangling manager: logging.
- Case mapping covers the ASCII letters only; `toLowerCase`/`toUpperCase` beyond them is not modelled.
- Strings are sequences of characters, each taken as one UTF-16 code unit: `charCodeAt` and `part[0]` on characters outside the Basic Multilingual Plane are not modelled.
- Avatar.ColorFromName: the hash's subtraction and addition are exact integers, not doubles. `Avatar.HashBound` shows the two agree for names shorter than about four million characters.
- TreeUtils.BuildEmployeeTree: requires acyclic manager links. On cyclic data the source still returns the roots' trees and silently leaves out every employee on or under a cycle; tree nodes are values here, so a cyclic node graph cannot be expressed.
- TreeUtils.GetAncestorPath, TreeUtils.GetSubordinates and MockServer.GetSubordinateIds: require acyclic links, because the source loops or recurses without end on a cycle.
- MockServer.Server.Patch and MockServer.PatchAsWritten: a truthy `managerId` requires acyclic links, because `checkForCycle`'s walk recurses without end on a cycle; a null or empty one does not run the walk and needs nothing.
- TreeUtils.BuildTeamTree, OrgChart.SelectTree and OrgChart.DragController.HandleDragEnd: require acyclic links, because they rely on the walks above.
- EmployeeNodes.SubordinateCount: the `!n || !n.children` guard is not modelled, because a tree node always has a children list here.
- Object identity and aliasing: tree nodes are immutable values. Where the source pushes the one node object it holds for an id more than once (duplicate ids), the model has equal values, each showing the last record with that id; later mutation of a shared node is not modelled.
- `URLSearchParams` decoding and `window.location`: `p`, `q`, the pathname and the hash are inputs. The 404 page that encodes them is not part of this model.
- EmployeeList (clipboard and a two-second timer) and TeamBadge (a colour lookup in markup): user interface with no logic to verify.
- `Object.values` order for integer-like keys: the counts are an insertion-ordered list. Only the sum and lookups by team are used, and neither depends on that order.
- The chart test that expects `('emp-1', 'emp-2')` replaces `wouldCreateCycle` with a stub. With the real check that drop is a cycle, and `OrgChart.SampleDrops` states what the unstubbed code decides.

## Findings

| source | as written | input that shows it | evidently intended | confidence | as-written member | corrected member |
|---|---|---|---|---|---|---|
| src/server/mirage.ts:91-111 | `checkForCycle` flags only ids below the employee, so the PATCH handler accepts an employee as their own manager | PATCH `/employees/1` with `{ managerId: "1" }` on acyclic data: the reply is the record, now reporting to itself | refuse self-assignment as well, as the client's `wouldCreateCycle` does and as the handler's 400 message promises | not executed | MockServer.PatchAsWrittenAcceptsSelfManager | MockServer.SafeCheckForCycleExact |
