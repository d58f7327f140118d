/** The assignment view of `src/components/tasks/TaskAssignment.jsx`: the
    normalisation of task rows, the preselection and toggling of user ids, the
    guard in front of the assign request, and the task and user filters. */
module Assignment {
  import opened Common
  import opened Seqs
  import opened Text

  /** An entry of a task's assigned-users array; only its id is read. */
  datatype AssignedUser = AssignedUser(id: int, name: string, extra: map<string, string>)

  /** What `assignedusers` holds once decoded: an array of users, or any other value. */
  datatype AssignedUsers = UserArray(users: seq<AssignedUser>) | NotArray

  /** A task row as the task endpoint returns it. */
  datatype TaskRow = TaskRow(
    id: int,
    title: string,
    assignedtome: JsValue,
    createdbyme: JsValue,
    assignedusers: Field<AssignedUsers>,
    extra: map<string, string>)

  /** `{ ...task, assignedToMe, createdByMe, assignedUsers }`: the row, kept
      whole, with the three derived fields beside it. */
  datatype Task = Task(row: TaskRow, assignedToMe: bool, createdByMe: bool, assignedUsers: AssignedUsers)

  /** A user as the users endpoint returns it. */
  datatype User = User(id: int, name: string, email: string, taskCount: int)

  datatype AssignRequest = AssignRequest(taskId: int, userIds: seq<int>)

  /** The parts of the component state that the modelled handlers read or write. */
  datatype AssignState = AssignState(
    selectedTask: Option<Task>,
    selectedUsers: seq<int>,
    openAssignDialog: bool,
    loading: bool,
    snackbar: Snackbar)

  // ---------------------------------------------------------------------------
  // Normalisation

  function FormatTask(row: TaskRow, parse: string -> AssignedUsers): Task
  {
    Task(row, Truthy(row.assignedtome), Truthy(row.createdbyme), Decode(row.assignedusers, parse))
  }

  /** `formattedTasks`: every row kept whole and in place, the two flags coerced
      to booleans, and `assignedusers` decoded a second time only when it arrives
      as text. */
  function FormattedTasks(rows: seq<TaskRow>, parse: string -> AssignedUsers): (r: seq<Task>)
    ensures |r| == |rows|
    ensures forall i | 0 <= i < |rows| ::
      && r[i].row == rows[i]
      && r[i].assignedToMe == Truthy(rows[i].assignedtome)
      && r[i].createdByMe == Truthy(rows[i].createdbyme)
      && r[i].assignedUsers == if rows[i].assignedusers.Encoded? then parse(rows[i].assignedusers.text)
                               else rows[i].assignedusers.value
  {
    if rows == [] then [] else [FormatTask(rows[0], parse)] + FormattedTasks(rows[1..], parse)
  }

  // ---------------------------------------------------------------------------
  // Selection

  /** The ids of an array of users, in the same order. */
  function UserIds(users: seq<AssignedUser>): seq<int>
  {
    Map(users, (u: AssignedUser) => u.id)
  }

  /** `openAssignmentDialog(task)`: select the task and preselect exactly the ids
      of its assigned users when they form an array, none otherwise. */
  function OpenAssignmentDialog(s: AssignState, task: Task): (s': AssignState)
    ensures s'.selectedTask == Some(task) && s'.openAssignDialog
    ensures task.assignedUsers.NotArray? ==> s'.selectedUsers == []
    ensures task.assignedUsers.UserArray? ==>
      && |s'.selectedUsers| == |task.assignedUsers.users|
      && forall i | 0 <= i < |s'.selectedUsers| :: s'.selectedUsers[i] == task.assignedUsers.users[i].id
    ensures s'.loading == s.loading && s'.snackbar == s.snackbar
  {
    var ids := match task.assignedUsers
      case UserArray(users) => UserIds(users)
      case NotArray => [];
    s.(selectedTask := Some(task), selectedUsers := ids, openAssignDialog := true)
  }

  /** `handleUserSelection(id)`: drop every occurrence of a selected id, keeping
      the others in order; append an unselected one at the end. */
  function ToggleUser(prev: seq<int>, id: int): (r: seq<int>)
    ensures id in prev ==>
      && id !in r
      && IsSubseq(r, prev)
      && forall x | x in prev && x != id :: multiset(r)[x] == multiset(prev)[x]
    ensures id !in prev ==> r == prev + [id]
    ensures NoDup(prev) ==> NoDup(r)
  {
    if id in prev then
      FilterNoDup(prev, x => x != id);
      FilterCounts(prev, x => x != id);
      Filter(prev, x => x != id)
    else
      prev + [id]
  }

  /** Toggling the same id twice restores the selected set, and restores the
      selection exactly when the id was not selected to begin with. */
  lemma {:induction false} ToggleTwice(prev: seq<int>, id: int)
    ensures forall x :: x in ToggleUser(ToggleUser(prev, id), id) <==> x in prev
    ensures id !in prev ==> ToggleUser(ToggleUser(prev, id), id) == prev
  {
    if id !in prev {
      var notId := (x: int) => x != id;
      FilterAppend(prev, [id], notId);
      FilterKeepsAll(prev, notId);
      assert Filter([id], notId) == [];
    }
  }

  // ---------------------------------------------------------------------------
  // Assigning

  /** `assignTaskToUsers` up to the request: with no task selected or no user
      selected it returns at once, issuing nothing and changing nothing;
      otherwise it starts loading and posts the task id with the selected ids. */
  function StartAssign(s: AssignState): (result: (AssignState, Option<AssignRequest>))
    ensures result.1.None? <==> s.selectedTask.None? || s.selectedUsers == []
    ensures result.1.None? ==> result.0 == s
    ensures result.1.Some? ==>
      && result.1.value == AssignRequest(s.selectedTask.value.row.id, s.selectedUsers)
      && result.0 == s.(loading := true)
  {
    if s.selectedTask.None? || |s.selectedUsers| == 0 then (s, None)
    else (s.(loading := true), Some(AssignRequest(s.selectedTask.value.row.id, s.selectedUsers)))
  }

  /** The rest of `assignTaskToUsers` once the request has been answered: on
      success the dialog closes; either way a message is shown and loading ends. */
  function FinishAssign(s: AssignState, succeeded: bool): (s': AssignState)
    ensures !s'.loading
    ensures s'.openAssignDialog == (s.openAssignDialog && !succeeded)
    ensures s'.snackbar == if succeeded then ShowSnackbar("Usuarios asignados con éxito", Success)
                           else ShowSnackbar("Error al asignar usuarios", Error)
    ensures s'.selectedTask == s.selectedTask && s'.selectedUsers == s.selectedUsers
  {
    if succeeded then
      s.(openAssignDialog := false, snackbar := ShowSnackbar("Usuarios asignados con éxito", Success), loading := false)
    else
      s.(snackbar := ShowSnackbar("Error al asignar usuarios", Error), loading := false)
  }

  /** Opening the dialog on a task with assigned users makes the assign action
      post exactly their ids; on a task without an array it posts nothing until
      a user is toggled. */
  lemma OpenThenAssign(s: AssignState, task: Task)
    ensures task.assignedUsers.UserArray? && task.assignedUsers.users != [] ==>
      StartAssign(OpenAssignmentDialog(s, task)).1 == Some(AssignRequest(task.row.id, UserIds(task.assignedUsers.users)))
    ensures task.assignedUsers.NotArray? ==> StartAssign(OpenAssignmentDialog(s, task)).1.None?
  {
  }

  // ---------------------------------------------------------------------------
  // Filters

  /** The search term as `getFilteredTasks` uses it: trimmed, then lowercased. */
  function TaskSearchTerm(raw: string): string
  {
    Lower(Trim(raw))
  }

  predicate TitleMatches(t: Task, term: string)
  {
    Contains(Lower(t.row.title), term)
  }

  /** The `switch (tabValue)`: 1 assigned to me, 2 created by me, anything else all. */
  predicate InTab(t: Task, tab: int)
  {
    if tab == 1 then t.assignedToMe else if tab == 2 then t.createdByMe else true
  }

  /** `getFilteredTasks`: an empty term keeps every task; otherwise only titles
      containing it, in order; then the tab. */
  function FilteredTasks(tasks: seq<Task>, raw: string, tab: int): (r: seq<Task>)
    ensures IsSubseq(r, tasks)
    ensures forall t | t in r :: (TaskSearchTerm(raw) == "" || TitleMatches(t, TaskSearchTerm(raw))) && InTab(t, tab)
    ensures forall t | t in tasks && (TaskSearchTerm(raw) == "" || TitleMatches(t, TaskSearchTerm(raw))) && InTab(t, tab) ::
      t in r
    ensures forall t | t in tasks ::
      multiset(r)[t] == if (TaskSearchTerm(raw) == "" || TitleMatches(t, TaskSearchTerm(raw))) && InTab(t, tab)
                        then multiset(tasks)[t] else 0
  {
    var term := TaskSearchTerm(raw);
    var titled := (t: Task) => TitleMatches(t, term);
    var inTab := (t: Task) => InTab(t, tab);
    FilterCounts(tasks, titled);
    var found := if term != "" then Filter(tasks, titled) else tasks;
    SubseqRefl(tasks);
    var r := Filter(found, inTab);
    SubseqTrans(r, found, tasks);
    FilterCounts(found, inTab);
    r
  }

  /** A term made only of whitespace filters nothing out: on the "all" tab the
      whole list comes back. */
  lemma BlankSearchKeepsAll(tasks: seq<Task>, raw: string, tab: int)
    requires AllSpace(raw)
    requires tab != 1 && tab != 2
    ensures FilteredTasks(tasks, raw, tab) == tasks
  {
    TrimEmptyIffAllSpace(raw);
    FilterKeepsAll(tasks, t => InTab(t, tab));
  }

  /** Surrounding whitespace in the term never changes the result. */
  lemma SearchIgnoresSurroundingSpace(tasks: seq<Task>, raw: string, tab: int)
    ensures FilteredTasks(tasks, Trim(raw), tab) == FilteredTasks(tasks, raw, tab)
  {
    TrimIdempotent(raw);
  }

  /** Formatting commutes with filtering when the task-side test reads only
      what formatting derives from the row-side test. */
  lemma {:induction false} FormatCommutesWithFilter(rows: seq<TaskRow>, parse: string -> AssignedUsers,
                                                    keep: Task -> bool, keepRow: TaskRow -> bool)
    requires forall r | r in rows :: keep(FormatTask(r, parse)) == keepRow(r)
    ensures Filter(FormattedTasks(rows, parse), keep) == FormattedTasks(Filter(rows, keepRow), parse)
  {
    if rows != [] {
      assert forall r | r in rows[1..] :: r in rows;
      FormatCommutesWithFilter(rows[1..], parse, keep, keepRow);
      var formatted := FormattedTasks(rows, parse);
      assert formatted[1..] == FormattedTasks(rows[1..], parse);
      var rest := Filter(rows[1..], keepRow);
      if keepRow(rows[0]) {
        assert ([rows[0]] + rest)[1..] == rest;
      }
    }
  }

  /** On tab 1 the formatted list shows exactly the rows whose `assignedtome`
      flag is truthy, and on tab 2 those whose `createdbyme` flag is, whatever
      the flags' wire type. */
  lemma FlagTabsSelectTruthyRows(rows: seq<TaskRow>, parse: string -> AssignedUsers)
    ensures Filter(FormattedTasks(rows, parse), t => InTab(t, 1))
         == FormattedTasks(Filter(rows, (r: TaskRow) => Truthy(r.assignedtome)), parse)
    ensures Filter(FormattedTasks(rows, parse), t => InTab(t, 2))
         == FormattedTasks(Filter(rows, (r: TaskRow) => Truthy(r.createdbyme)), parse)
  {
    FormatCommutesWithFilter(rows, parse, t => InTab(t, 1), (r: TaskRow) => Truthy(r.assignedtome));
    FormatCommutesWithFilter(rows, parse, t => InTab(t, 2), (r: TaskRow) => Truthy(r.createdbyme));
  }

  /** `filteredUsers`: the users whose lowercased name contains the lowercased term, in order. */
  function FilteredUsers(users: seq<User>, term: string): (r: seq<User>)
    ensures IsSubseq(r, users)
    ensures forall u | u in r :: Contains(Lower(u.name), Lower(term))
    ensures forall u | u in users && Contains(Lower(u.name), Lower(term)) :: u in r
    ensures forall u | u in users :: multiset(r)[u] == if Contains(Lower(u.name), Lower(term)) then multiset(users)[u] else 0
  {
    var named := (u: User) => Contains(Lower(u.name), Lower(term));
    FilterCounts(users, named);
    Filter(users, named)
  }

  /** The empty user search lists every user. */
  lemma EmptyUserSearchKeepsAll(users: seq<User>)
    ensures FilteredUsers(users, "") == users
  {
    assert Lower("") == "";
    forall u | u in users ensures Contains(Lower(u.name), Lower("")) {
      ContainsEmpty(Lower(u.name));
    }
    FilterKeepsAll(users, (u: User) => Contains(Lower(u.name), Lower("")));
  }
}
