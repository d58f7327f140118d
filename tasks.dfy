/** The task list of `src/components/tasks/Tasks.jsx`: the three push-event
    handlers, the bounded notification list, the local update after a soft
    delete, the search-and-tab view and the status chip. Every handler is a
    function from the component's state to its next state. */
module Tasks {
  import opened Common
  import opened Seqs
  import opened Text

  /** A task as the list holds it. Fields the list never reads travel in `extra`. */
  datatype Task = Task(
    id: int,
    title: string,
    description: Option<string>,
    status: string,
    extra: map<string, string>)

  /** The payload of TaskCreatedEvent, TaskUpdatedEvent and TaskDeletedEvent. */
  datatype TaskEvent = TaskEvent(task: Task)

  datatype Notification = Notification(message: string, severity: Severity, timestamp: int)

  /** The parts of the component state that the modelled handlers read or write. */
  datatype TasksState = TasksState(
    tasks: seq<Task>,
    notifications: seq<Notification>,
    snackbar: Snackbar,
    taskToDelete: Option<Task>,
    openDeleteDialog: bool)

  const MaxNotifications: nat := 10
  const DeletedStatus: string := "Eliminada"

  function Min(a: int, b: int): int
  {
    if a < b then a else b
  }

  // ---------------------------------------------------------------------------
  // Notifications

  /** `[n, ...prev].slice(0, 10)`: newest first, at most ten kept. */
  function AddNotification(prev: seq<Notification>, n: Notification): (r: seq<Notification>)
    ensures |r| == Min(|prev| + 1, MaxNotifications)
    ensures r[0] == n
    ensures r[1..] == prev[..|r| - 1]
  {
    ([n] + prev)[..Min(|prev| + 1, MaxNotifications)]
  }

  /** The list after `addNotification` is called once for each of `ns`, in order. */
  function PushAll(prev: seq<Notification>, ns: seq<Notification>): seq<Notification>
    decreases |ns|
  {
    if ns == [] then prev else PushAll(AddNotification(prev, ns[0]), ns[1..])
  }

  function Reversed<T>(s: seq<T>): (r: seq<T>)
    ensures |r| == |s|
    ensures forall i | 0 <= i < |s| :: r[i] == s[|s| - 1 - i]
  {
    if s == [] then [] else Reversed(s[1..]) + [s[0]]
  }

  lemma TruncatedTail<T>(x: seq<T>, y: seq<T>, k: nat, m: nat)
    requires k <= |y| && m <= |x| + k
    ensures (x + y[..k])[..m] == (x + y)[..m]
  {
    assert forall i | 0 <= i < m :: (x + y[..k])[i] == (x + y)[i];
  }

  /** Pushing a series of notifications onto a list of at most ten keeps the
      newest ten of everything seen, most recent first. */
  lemma {:induction false} PushAllKeepsNewest(prev: seq<Notification>, ns: seq<Notification>)
    requires |prev| <= MaxNotifications
    ensures PushAll(prev, ns) == (Reversed(ns) + prev)[..Min(|ns| + |prev|, MaxNotifications)]
    decreases |ns|
  {
    if ns == [] {
      assert Reversed(ns) + prev == prev;
    } else {
      var a := AddNotification(prev, ns[0]);
      PushAllKeepsNewest(a, ns[1..]);
      var rest := Reversed(ns[1..]);
      assert Reversed(ns) == rest + [ns[0]];
      assert a == ([ns[0]] + prev)[..|a|];
      TruncatedTail(rest, [ns[0]] + prev, |a|, Min(|ns| + |prev|, MaxNotifications));
      assert rest + ([ns[0]] + prev) == Reversed(ns) + prev;
    }
  }

  /** Once ten or more notifications have arrived, the list is exactly the last
      ten of them, newest first; everything older is gone. */
  lemma LastTenSurvive(prev: seq<Notification>, ns: seq<Notification>)
    requires |prev| <= MaxNotifications
    requires |ns| >= MaxNotifications
    ensures |PushAll(prev, ns)| == MaxNotifications
    ensures forall i | 0 <= i < MaxNotifications :: PushAll(prev, ns)[i] == ns[|ns| - 1 - i]
  {
    PushAllKeepsNewest(prev, ns);
  }

  /** `addNotification`: record the notification and show it in the snackbar. */
  function Notify(s: TasksState, n: Notification): (s': TasksState)
    ensures s'.notifications == AddNotification(s.notifications, n)
    ensures s'.notifications[0] == n && |s'.notifications| <= MaxNotifications
    ensures s'.snackbar == Snackbar(true, n.message, n.severity)
    ensures s'.tasks == s.tasks && s'.taskToDelete == s.taskToDelete && s'.openDeleteDialog == s.openDeleteDialog
  {
    s.(notifications := AddNotification(s.notifications, n),
       snackbar := ShowSnackbar(n.message, n.severity))
  }

  function Quoted(title: string): string
  {
    "\"" + title + "\""
  }

  // ---------------------------------------------------------------------------
  // Task-list updates

  /** `prev.map(task => task.id === updated.id ? updated : task)`. */
  function ReplaceTask(tasks: seq<Task>, updated: Task): (r: seq<Task>)
    ensures |r| == |tasks|
    ensures forall i | 0 <= i < |tasks| :: r[i] == if tasks[i].id == updated.id then updated else tasks[i]
  {
    if tasks == [] then []
    else [if tasks[0].id == updated.id then updated else tasks[0]] + ReplaceTask(tasks[1..], updated)
  }

  /** `prev.map(task => task.id === id ? { ...task, status: "Eliminada" } : task)`. */
  function MarkDeleted(tasks: seq<Task>, id: int): (r: seq<Task>)
    ensures |r| == |tasks|
    ensures forall i | 0 <= i < |tasks| :: r[i] == if tasks[i].id == id then tasks[i].(status := DeletedStatus) else tasks[i]
  {
    if tasks == [] then []
    else [if tasks[0].id == id then tasks[0].(status := DeletedStatus) else tasks[0]] + MarkDeleted(tasks[1..], id)
  }

  /** `handleTaskCreated`: append the pushed task and announce it. */
  function OnTaskCreated(s: TasksState, e: TaskEvent, now: int): (s': TasksState)
    ensures |s'.tasks| == |s.tasks| + 1
    ensures s'.tasks[..|s.tasks|] == s.tasks && s'.tasks[|s.tasks|] == e.task
    ensures s'.notifications == AddNotification(s.notifications, Notification("Nueva tarea creada: " + Quoted(e.task.title), Success, now))
    ensures s'.snackbar == ShowSnackbar("Nueva tarea creada: " + Quoted(e.task.title), Success)
    ensures s'.taskToDelete == s.taskToDelete && s'.openDeleteDialog == s.openDeleteDialog
  {
    var s1 := s.(tasks := s.tasks + [e.task]);
    assert s1.tasks[..|s.tasks|] == s.tasks;
    Notify(s1, Notification("Nueva tarea creada: " + Quoted(e.task.title), Success, now))
  }

  /** `handleTaskUpdated`: every entry with the pushed task's id becomes the pushed task. */
  function OnTaskUpdated(s: TasksState, e: TaskEvent, now: int): (s': TasksState)
    ensures s'.tasks == ReplaceTask(s.tasks, e.task)
    ensures s'.notifications == AddNotification(s.notifications, Notification("Tarea actualizada: " + Quoted(e.task.title), Info, now))
    ensures s'.snackbar == ShowSnackbar("Tarea actualizada: " + Quoted(e.task.title), Info)
    ensures s'.taskToDelete == s.taskToDelete && s'.openDeleteDialog == s.openDeleteDialog
  {
    Notify(s.(tasks := ReplaceTask(s.tasks, e.task)), Notification("Tarea actualizada: " + Quoted(e.task.title), Info, now))
  }

  /** `handleTaskDeleted`: entries with the pushed task's id are soft-marked, not removed. */
  function OnTaskDeleted(s: TasksState, e: TaskEvent, now: int): (s': TasksState)
    ensures s'.tasks == MarkDeleted(s.tasks, e.task.id)
    ensures s'.notifications == AddNotification(s.notifications, Notification("Tarea eliminada: " + Quoted(e.task.title), Warning, now))
    ensures s'.snackbar == ShowSnackbar("Tarea eliminada: " + Quoted(e.task.title), Warning)
    ensures s'.taskToDelete == s.taskToDelete && s'.openDeleteDialog == s.openDeleteDialog
  {
    Notify(s.(tasks := MarkDeleted(s.tasks, e.task.id)), Notification("Tarea eliminada: " + Quoted(e.task.title), Warning, now))
  }

  /** `confirmDeleteTask`: remember the task and open the confirmation dialog. */
  function ConfirmDeleteTask(s: TasksState, t: Task): (s': TasksState)
    ensures s'.taskToDelete == Some(t) && s'.openDeleteDialog
    ensures s'.tasks == s.tasks && s'.notifications == s.notifications && s'.snackbar == s.snackbar
  {
    s.(taskToDelete := Some(t), openDeleteDialog := true)
  }

  /** `deleteTask` once the soft-delete request has succeeded: with no task chosen
      it returns before anything happens; otherwise the chosen task is marked
      locally, the dialog closes and a success message is shown. */
  function DeleteTaskSucceeded(s: TasksState): (s': TasksState)
    ensures s.taskToDelete.None? ==> s' == s
    ensures s.taskToDelete.Some? ==>
      && s'.tasks == MarkDeleted(s.tasks, s.taskToDelete.value.id)
      && !s'.openDeleteDialog
      && s'.snackbar == ShowSnackbar("Tarea desactivada con éxito", Success)
      && s'.notifications == s.notifications
      && s'.taskToDelete == s.taskToDelete
  {
    match s.taskToDelete
    case None => s
    case Some(t) =>
      s.(tasks := MarkDeleted(s.tasks, t.id),
         openDeleteDialog := false,
         snackbar := ShowSnackbar("Tarea desactivada con éxito", Success))
  }

  /** Confirming a task and then succeeding marks exactly the entries with its id. */
  lemma ConfirmThenDelete(s: TasksState, t: Task)
    ensures DeleteTaskSucceeded(ConfirmDeleteTask(s, t)).tasks == MarkDeleted(s.tasks, t.id)
  {
  }

  /** Applying the same update twice is the same as applying it once. */
  lemma {:induction false} ReplaceTaskIdempotent(tasks: seq<Task>, updated: Task)
    ensures ReplaceTask(ReplaceTask(tasks, updated), updated) == ReplaceTask(tasks, updated)
  {
    var once := ReplaceTask(tasks, updated);
    assert forall i | 0 <= i < |tasks| :: ReplaceTask(once, updated)[i] == once[i];
  }

  /** Marking the same id twice is the same as marking it once. */
  lemma {:induction false} MarkDeletedIdempotent(tasks: seq<Task>, id: int)
    ensures MarkDeleted(MarkDeleted(tasks, id), id) == MarkDeleted(tasks, id)
  {
    var once := MarkDeleted(tasks, id);
    assert forall i | 0 <= i < |tasks| :: MarkDeleted(once, id)[i] == once[i];
  }

  // ---------------------------------------------------------------------------
  // Search and tabs

  /** The title, or a present description, contains the lowercased search term. */
  predicate MatchesSearch(t: Task, term: string)
  {
    || Contains(Lower(t.title), Lower(term))
    || (Present(t.description) && Contains(Lower(t.description.value), Lower(term)))
  }

  /** The first `filter` of `getFilteredTasks`. */
  function SearchTasks(tasks: seq<Task>, term: string): (r: seq<Task>)
    ensures IsSubseq(r, tasks)
    ensures forall t | t in r :: MatchesSearch(t, term)
    ensures forall t | t in tasks && MatchesSearch(t, term) :: t in r
    ensures forall t | t in tasks :: multiset(r)[t] == if MatchesSearch(t, term) then multiset(tasks)[t] else 0
  {
    var matches := (t: Task) => MatchesSearch(t, term);
    FilterCounts(tasks, matches);
    Filter(tasks, matches)
  }

  /** The status, lowercased, is `lowered`. */
  predicate HasStatus(t: Task, lowered: string)
  {
    Lower(t.status) == lowered
  }

  /** The `switch (tabValue)` of `getFilteredTasks`: 1 pending, 2 completed,
      3 deleted, anything else every task that is not deleted. */
  predicate InTab(t: Task, tab: int)
  {
    if tab == 1 then !HasStatus(t, "completada") && !HasStatus(t, "eliminada")
    else if tab == 2 then HasStatus(t, "completada")
    else if tab == 3 then HasStatus(t, "eliminada")
    else !HasStatus(t, "eliminada")
  }

  /** `getFilteredTasks`: the tasks that match the search and belong to the tab, in list order. */
  function FilteredTasks(tasks: seq<Task>, term: string, tab: int): (r: seq<Task>)
    ensures IsSubseq(r, tasks)
    ensures forall t | t in r :: MatchesSearch(t, term) && InTab(t, tab)
    ensures forall t | t in tasks && MatchesSearch(t, term) && InTab(t, tab) :: t in r
    ensures forall t | t in tasks ::
      multiset(r)[t] == if MatchesSearch(t, term) && InTab(t, tab) then multiset(tasks)[t] else 0
  {
    var found := SearchTasks(tasks, term);
    var inTab := (t: Task) => InTab(t, tab);
    var r := Filter(found, inTab);
    SubseqTrans(r, found, tasks);
    FilterCounts(found, inTab);
    r
  }

  /** The empty search term matches every task. */
  lemma EmptySearchKeepsAll(tasks: seq<Task>)
    ensures SearchTasks(tasks, "") == tasks
  {
    forall t | t in tasks ensures MatchesSearch(t, "") {
      ContainsEmpty(Lower(t.title));
    }
    FilterKeepsAll(tasks, t => MatchesSearch(t, ""));
  }

  /** Tab 0 (every non-deleted match) and tab 3 (every deleted match) split the
      search matches between them, each match going to exactly one. */
  lemma DefaultAndDeletedPartition(tasks: seq<Task>, term: string)
    ensures multiset(FilteredTasks(tasks, term, 0)) + multiset(FilteredTasks(tasks, term, 3))
         == multiset(SearchTasks(tasks, term))
    ensures forall t | t in FilteredTasks(tasks, term, 0) :: t !in FilteredTasks(tasks, term, 3)
  {
    var found := SearchTasks(tasks, term);
    var all := (t: Task) => true;
    FilterPartition(found, t => InTab(t, 0), t => InTab(t, 3), all);
    FilterKeepsAll(found, all);
  }

  /** Tabs 1 (pending) and 2 (completed) share no task, and together they hold
      exactly what tab 0 holds. */
  lemma PendingAndCompletedSplitDefault(tasks: seq<Task>, term: string)
    ensures multiset(FilteredTasks(tasks, term, 1)) + multiset(FilteredTasks(tasks, term, 2))
         == multiset(FilteredTasks(tasks, term, 0))
    ensures forall t | t in FilteredTasks(tasks, term, 1) :: t !in FilteredTasks(tasks, term, 2)
  {
    var found := SearchTasks(tasks, term);
    FilterPartition(found, t => InTab(t, 1), t => InTab(t, 2), t => InTab(t, 0));
  }

  lemma LowerDeletedStatus()
    ensures Lower(DeletedStatus) == "eliminada"
  {
  }

  /** After a delete event (or a successful soft delete) no task with that id is
      shown on the default tab. */
  lemma DeletedLeavesDefaultTab(tasks: seq<Task>, id: int, term: string)
    ensures forall t | t in FilteredTasks(MarkDeleted(tasks, id), term, 0) :: t.id != id
  {
    LowerDeletedStatus();
    var marked := MarkDeleted(tasks, id);
    assert forall t | t in marked && t.id == id :: HasStatus(t, "eliminada") by {
      forall t | t in marked && t.id == id ensures HasStatus(t, "eliminada") {
        var i :| 0 <= i < |marked| && marked[i] == t;
        assert tasks[i].id == id;
      }
    }
  }

  /** ... and every marked task that matches the search is shown on the deleted tab. */
  lemma DeletedShowsOnDeletedTab(tasks: seq<Task>, id: int, term: string)
    ensures forall i | 0 <= i < |tasks| && tasks[i].id == id && MatchesSearch(tasks[i], term) ::
      MarkDeleted(tasks, id)[i] in FilteredTasks(MarkDeleted(tasks, id), term, 3)
  {
    LowerDeletedStatus();
    var marked := MarkDeleted(tasks, id);
    forall i | 0 <= i < |tasks| && tasks[i].id == id && MatchesSearch(tasks[i], term)
      ensures marked[i] in FilteredTasks(marked, term, 3)
    {
      assert marked[i] in marked;
      assert MatchesSearch(marked[i], term);
    }
  }

  // ---------------------------------------------------------------------------
  // Status chip

  datatype ChipColor = ChipWarning | ChipInfo | ChipSuccess | ChipError | ChipDefault

  datatype Chip = Chip(caption: string, color: ChipColor)

  /** The lowercased statuses the chip knows, and the label each one shows. */
  const KnownStatuses: seq<string> := ["pendiente", "en progreso", "completada", "eliminada"]
  const CanonicalLabels: seq<string> := ["Pendiente", "En progreso", "Completada", "Eliminada"]
  const KnownColors: seq<ChipColor> := [ChipWarning, ChipInfo, ChipSuccess, ChipError]

  /** `StatusChip`: `status?.toLowerCase()` selects a canonical label; any other
      status is shown as it is, and a missing or empty one as "Desconocido". */
  function StatusChip(status: Option<string>): (chip: Chip)
    ensures forall k | 0 <= k < |KnownStatuses| ::
      status.Some? && Lower(status.value) == KnownStatuses[k] ==> chip == Chip(CanonicalLabels[k], KnownColors[k])
    ensures chip.color == ChipDefault <==> status.None? || Lower(status.value) !in KnownStatuses
    ensures chip.color == ChipDefault ==> chip.caption == if Present(status) then status.value else "Desconocido"
  {
    var key := if status.Some? then Lower(status.value) else "";
    if status.Some? && key == "pendiente" then Chip("Pendiente", ChipWarning)
    else if status.Some? && key == "en progreso" then Chip("En progreso", ChipInfo)
    else if status.Some? && key == "completada" then Chip("Completada", ChipSuccess)
    else if status.Some? && key == "eliminada" then Chip("Eliminada", ChipError)
    else Chip(if Present(status) then status.value else "Desconocido", ChipDefault)
  }

  /** Each canonical label lowercases to the status key that selects it. */
  lemma LowerOfLabels()
    ensures forall k | 0 <= k < |CanonicalLabels| :: Lower(CanonicalLabels[k]) == KnownStatuses[k]
  {
    assert Lower("Pendiente") == "pendiente";
    assert Lower("En progreso") == "en progreso";
    assert Lower("Completada") == "completada";
    LowerDeletedStatus();
  }

  /** Statuses that differ only in letter case show the same chip when known. */
  lemma StatusChipIgnoresCase(a: string, b: string)
    requires Lower(a) == Lower(b)
    ensures StatusChip(Some(a)).color == StatusChip(Some(b)).color
    ensures Lower(a) in KnownStatuses ==> StatusChip(Some(a)) == StatusChip(Some(b))
  {
  }

  /** A chip's label, read back as a status, shows the same label again. */
  lemma StatusLabelIsFixedPoint(status: Option<string>)
    ensures StatusChip(Some(StatusChip(status).caption)).caption == StatusChip(status).caption
  {
    LowerOfLabels();
    var chip := StatusChip(status);
    assert Lower("Desconocido") == "desconocido";
  }

  /** A task marked by a delete shows the "Eliminada" chip. */
  lemma MarkedTaskShowsDeletedChip(tasks: seq<Task>, id: int, i: nat)
    requires i < |tasks| && tasks[i].id == id
    ensures StatusChip(Some(MarkDeleted(tasks, id)[i].status)) == Chip("Eliminada", ChipError)
  {
    LowerDeletedStatus();
  }
}
