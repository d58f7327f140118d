/** The history view of `src/components/tasks/TaskHistory.jsx`: normalising the
    fetched events, extracting the users that appear in them, the five-way
    filter, the icon colour of an action, and grouping events by task. */
module History {
  import opened Common
  import opened Seqs
  import opened Text

  /** The `user` object of a history event; `name` and `email` may be absent. */
  datatype HistUser = HistUser(id: int, name: Option<string>, email: Option<string>, extra: map<string, string>)

  /** The `task` object of a history event; only `title` is read. */
  datatype HistTask = HistTask(title: Option<string>, extra: map<string, string>)

  /** A history event as the endpoint returns it: `user` and `task` either
      already objects (or null) or JSON text that decodes to one. */
  datatype RawEvent = RawEvent(
    id: int,
    taskId: int,
    action: Option<string>,
    details: Option<string>,
    timestamp: int,
    user: Field<Option<HistUser>>,
    task: Field<Option<HistTask>>,
    extra: map<string, string>)

  /** A history event once `user` and `task` are decoded. */
  datatype Event = Event(
    id: int,
    taskId: int,
    action: Option<string>,
    details: Option<string>,
    timestamp: int,
    user: Option<HistUser>,
    task: Option<HistTask>,
    extra: map<string, string>)

  /** `{ id, name, email }` as the user filter lists it. */
  datatype UserSummary = UserSummary(id: int, name: Option<string>, email: Option<string>)

  /** The parts of the component state that `fetchTaskHistory` writes. */
  datatype HistoryState = HistoryState(taskHistory: seq<Event>, users: seq<UserSummary>, loading: bool)

  // ---------------------------------------------------------------------------
  // Normalisation

  function NormalizeEvent(e: RawEvent, parseUser: string -> Option<HistUser>, parseTask: string -> Option<HistTask>): Event
  {
    Event(e.id, e.taskId, e.action, e.details, e.timestamp,
          Decode(e.user, parseUser), Decode(e.task, parseTask), e.extra)
  }

  /** `formattedData`: one event per row, in place, every field copied, and
      `user` and `task` decoded only when they arrive as text. */
  function Normalize(rows: seq<RawEvent>, parseUser: string -> Option<HistUser>, parseTask: string -> Option<HistTask>)
    : (r: seq<Event>)
    ensures |r| == |rows|
    ensures forall i | 0 <= i < |rows| ::
      && r[i].id == rows[i].id && r[i].taskId == rows[i].taskId
      && r[i].action == rows[i].action && r[i].details == rows[i].details
      && r[i].timestamp == rows[i].timestamp && r[i].extra == rows[i].extra
      && r[i].user == (if rows[i].user.Encoded? then parseUser(rows[i].user.text) else rows[i].user.value)
      && r[i].task == (if rows[i].task.Encoded? then parseTask(rows[i].task.text) else rows[i].task.value)
  {
    if rows == [] then []
    else [NormalizeEvent(rows[0], parseUser, parseTask)] + Normalize(rows[1..], parseUser, parseTask)
  }

  /** The history as the server would send it with `user` and `task` serialised as text. */
  function Serialize(events: seq<Event>, showUser: Option<HistUser> -> string, showTask: Option<HistTask> -> string)
    : (rows: seq<RawEvent>)
    ensures |rows| == |events|
    ensures forall i | 0 <= i < |events| ::
      rows[i] == RawEvent(events[i].id, events[i].taskId, events[i].action, events[i].details, events[i].timestamp,
                          Encoded(showUser(events[i].user)), Encoded(showTask(events[i].task)), events[i].extra)
  {
    if events == [] then []
    else
      var e := events[0];
      [RawEvent(e.id, e.taskId, e.action, e.details, e.timestamp, Encoded(showUser(e.user)), Encoded(showTask(e.task)), e.extra)]
      + Serialize(events[1..], showUser, showTask)
  }

  /** With a parser that inverts the serialiser, text-encoded history normalises
      back to exactly the events that were sent. */
  lemma NormalizeRoundTrip(events: seq<Event>,
                           showUser: Option<HistUser> -> string, parseUser: string -> Option<HistUser>,
                           showTask: Option<HistTask> -> string, parseTask: string -> Option<HistTask>)
    requires forall u :: parseUser(showUser(u)) == u
    requires forall t :: parseTask(showTask(t)) == t
    ensures Normalize(Serialize(events, showUser, showTask), parseUser, parseTask) == events
  {
  }

  // ---------------------------------------------------------------------------
  // Users

  function Summary(u: HistUser): UserSummary
  {
    UserSummary(u.id, u.name, u.email)
  }

  predicate AllHaveUsers(events: seq<Event>)
  {
    forall i | 0 <= i < |events| :: events[i].user.Some?
  }

  /** `formattedData.map((item) => item.user.id)`. */
  function UserIdsOf(events: seq<Event>): (ids: seq<int>)
    requires AllHaveUsers(events)
    ensures |ids| == |events|
    ensures forall i | 0 <= i < |events| :: ids[i] == events[i].user.value.id
  {
    if events == [] then [] else [events[0].user.value.id] + UserIdsOf(events[1..])
  }

  /** `formattedData.find((item) => item.user.id === id).user`: the user of the
      first event carrying that id. */
  function FindUser(events: seq<Event>, id: int): (u: Option<HistUser>)
    requires AllHaveUsers(events)
    ensures u.Some? <==> id in UserIdsOf(events)
    ensures u.Some? ==> u.value == events[FirstIndex(UserIdsOf(events), id)].user.value
  {
    if events == [] then None
    else
      var ids := UserIdsOf(events);
      UserIdsTail(events);
      if events[0].user.value.id == id then
        assert ids[0] == id;
        Some(events[0].user.value)
      else
        var u := FindUser(events[1..], id);
        assert id in ids <==> id in ids[1..] by {
          assert ids == [ids[0]] + ids[1..];
        }
        if u.Some? then
          var m := FirstIndex(ids[1..], id);
          assert FirstIndex(ids, id) == 1 + m;
          assert events[1..][m] == events[m + 1];
          u
        else
          u
  }

  lemma UserIdsTail(events: seq<Event>)
    requires AllHaveUsers(events) && events != []
    ensures AllHaveUsers(events[1..])
    ensures UserIdsOf(events[1..]) == UserIdsOf(events)[1..]
  {
  }

  function Summaries(events: seq<Event>, ids: seq<int>): (r: seq<UserSummary>)
    requires AllHaveUsers(events)
    requires forall x | x in ids :: x in UserIdsOf(events)
    ensures |r| == |ids|
    ensures forall i | 0 <= i < |ids| :: r[i] == Summary(events[FirstIndex(UserIdsOf(events), ids[i])].user.value)
  {
    if ids == [] then [] else [Summary(FindUser(events, ids[0]).value)] + Summaries(events, ids[1..])
  }

  function SummaryIds(users: seq<UserSummary>): seq<int>
  {
    Map(users, (u: UserSummary) => u.id)
  }

  /** `uniqueUsers`: `None` when some event has no user, where reading
      `item.user.id` throws; otherwise each user id once, in the order of its
      first event, with the id, name and e-mail of that first event. */
  function UniqueUsers(events: seq<Event>): (r: Option<seq<UserSummary>>)
    ensures r.None? <==> !AllHaveUsers(events)
    ensures r.Some? ==>
      var ids := UserIdsOf(events);
      && NoDup(SummaryIds(r.value))
      && (forall x | x in ids :: x in SummaryIds(r.value))
      && (forall x | x in SummaryIds(r.value) :: x in ids)
      && (forall i, j | 0 <= i < j < |r.value| :: FirstIndex(ids, r.value[i].id) < FirstIndex(ids, r.value[j].id))
      && (forall i | 0 <= i < |r.value| :: r.value[i] == Summary(events[FirstIndex(ids, r.value[i].id)].user.value))
  {
    if !AllHaveUsers(events) then None
    else
      var distinct := Distinct(UserIdsOf(events));
      var r := Summaries(events, distinct);
      assert SummaryIds(r) == distinct;
      Some(r)
  }

  /** The state once the history request has answered: the history is shown
      even when extracting the users throws, in which case the user list keeps
      its previous value; loading ends either way. */
  function FetchHistorySucceeded(s: HistoryState, rows: seq<RawEvent>,
                                 parseUser: string -> Option<HistUser>, parseTask: string -> Option<HistTask>)
    : (s': HistoryState)
    ensures s'.taskHistory == Normalize(rows, parseUser, parseTask)
    ensures !s'.loading
    ensures AllHaveUsers(s'.taskHistory) ==> Some(s'.users) == UniqueUsers(s'.taskHistory)
    ensures !AllHaveUsers(s'.taskHistory) ==> s'.users == s.users
  {
    var history := Normalize(rows, parseUser, parseTask);
    match UniqueUsers(history)
    case Some(users) => HistoryState(history, users, false)
    case None => HistoryState(history, s.users, false)
  }

  // ---------------------------------------------------------------------------
  // Filtering

  /** The five filter controls; an unset date is `None`. */
  datatype HistoryFilter = HistoryFilter(
    searchTerm: string,
    filterType: string,
    filterUser: string,
    dateFrom: Option<int>,
    dateTo: Option<int>)

  /** The term occurs, ignoring case, in the details, the user's name or the
      task's title, each of which must be present and non-empty to match. */
  predicate MatchesSearch(e: Event, term: string)
  {
    || (Present(e.details) && Contains(Lower(e.details.value), Lower(term)))
    || (e.user.Some? && Present(e.user.value.name) && Contains(Lower(e.user.value.name.value), Lower(term)))
    || (e.task.Some? && Present(e.task.value.title) && Contains(Lower(e.task.value.title.value), Lower(term)))
  }

  predicate MatchesType(e: Event, filterType: string)
  {
    filterType == "all" || (Present(e.action) && Lower(e.action.value) == Lower(filterType))
  }

  predicate MatchesUser(e: Event, filterUser: string)
  {
    filterUser == "all" || (e.user.Some? && IntToString(e.user.value.id) == filterUser)
  }

  predicate MatchesDateFrom(e: Event, dateFrom: Option<int>)
  {
    dateFrom.None? || e.timestamp >= dateFrom.value
  }

  predicate MatchesDateTo(e: Event, dateTo: Option<int>)
  {
    dateTo.None? || e.timestamp <= dateTo.value
  }

  predicate Matches(e: Event, f: HistoryFilter)
  {
    && MatchesSearch(e, f.searchTerm)
    && MatchesType(e, f.filterType)
    && MatchesUser(e, f.filterUser)
    && MatchesDateFrom(e, f.dateFrom)
    && MatchesDateTo(e, f.dateTo)
  }

  /** `getFilteredHistory`: the events meeting all five criteria, in order. */
  function FilteredHistory(events: seq<Event>, f: HistoryFilter): (r: seq<Event>)
    ensures IsSubseq(r, events)
    ensures forall e | e in r :: e in events && Matches(e, f)
    ensures forall e | e in events && Matches(e, f) :: e in r
    ensures forall e | e in events :: multiset(r)[e] == if Matches(e, f) then multiset(events)[e] else 0
  {
    var matches := (e: Event) => Matches(e, f);
    FilterCounts(events, matches);
    Filter(events, matches)
  }

  /** An empty search term does not let everything through: it keeps exactly
      the events with non-empty details, a named user or a titled task. */
  lemma EmptySearchNeedsContent(e: Event)
    ensures MatchesSearch(e, "") <==>
      || Present(e.details)
      || (e.user.Some? && Present(e.user.value.name))
      || (e.task.Some? && Present(e.task.value.title))
  {
    assert Lower("") == "";
    if Present(e.details) {
      ContainsEmpty(Lower(e.details.value));
    }
    if e.user.Some? && Present(e.user.value.name) {
      ContainsEmpty(Lower(e.user.value.name.value));
    }
    if e.task.Some? && Present(e.task.value.title) {
      ContainsEmpty(Lower(e.task.value.title.value));
    }
  }

  /** The type filter ignores the case of the selected type, unless lowering
      it produces the sentinel "all". */
  lemma TypeFilterIgnoresCase(e: Event, filterType: string)
    requires filterType != "all" && Lower(filterType) != "all"
    ensures MatchesType(e, Lower(filterType)) == MatchesType(e, filterType)
  {
    LowerIdempotent(filterType);
  }

  /** The type filter ignores the case of the event's action: "Creada" and
      "creada" pass or fail the same selected type. */
  lemma ActionCaseIgnored(e: Event, a: string, b: string, filterType: string)
    requires Lower(a) == Lower(b)
    ensures MatchesType(e.(action := Some(a)), filterType) == MatchesType(e.(action := Some(b)), filterType)
  {
    assert Present(Some(a)) <==> Present(Some(b)) by {
      assert |Lower(a)| == |a| && |Lower(b)| == |b|;
    }
  }

  /** Selecting the id of a user in the user filter keeps exactly that user's events. */
  lemma UserFilterSelectsId(e: Event, id: int)
    ensures MatchesUser(e, IntToString(id)) <==> e.user.Some? && e.user.value.id == id
  {
    assert IntToString(id) != "all";
    if e.user.Some? && IntToString(e.user.value.id) == IntToString(id) {
      IntToStringInjective(e.user.value.id, id);
    }
  }

  /** Every user the user filter offers selects at least the event that user
      was taken from, whenever that event passes the other four criteria. */
  lemma OfferedUserHasEvents(events: seq<Event>, f: HistoryFilter, u: UserSummary)
    requires UniqueUsers(events).Some? && u in UniqueUsers(events).value
    requires f.filterUser == IntToString(u.id)
    ensures exists e | e in events :: e.user.Some? && e.user.value.id == u.id
    ensures forall e | e in events && e.user.Some? && e.user.value.id == u.id
                       && MatchesSearch(e, f.searchTerm) && MatchesType(e, f.filterType)
                       && MatchesDateFrom(e, f.dateFrom) && MatchesDateTo(e, f.dateTo) ::
      e in FilteredHistory(events, f)
  {
    var users := UniqueUsers(events).value;
    var i :| 0 <= i < |users| && users[i] == u;
    assert SummaryIds(users)[i] == u.id;
    var ids := UserIdsOf(events);
    var k := FirstIndex(ids, u.id);
    assert events[k].user.value.id == u.id;
    forall e | e in events && e.user.Some? && e.user.value.id == u.id
      ensures MatchesUser(e, f.filterUser)
    {
      UserFilterSelectsId(e, u.id);
    }
  }

  /** Set dates bound the kept events inclusively on both sides. */
  lemma DateBoundsInclusive(events: seq<Event>, f: HistoryFilter)
    requires f.dateFrom.Some? && f.dateTo.Some?
    ensures forall e | e in FilteredHistory(events, f) :: f.dateFrom.value <= e.timestamp <= f.dateTo.value
    ensures forall e | e in events && Matches(e, f.(dateFrom := None, dateTo := None))
                       && (e.timestamp == f.dateFrom.value || e.timestamp == f.dateTo.value)
                       && f.dateFrom.value <= f.dateTo.value ::
      e in FilteredHistory(events, f)
  {
  }

  // ---------------------------------------------------------------------------
  // Icon colour

  datatype IconColor = SuccessMain | PrimaryMain | ErrorMain | InfoMain | Grey500

  /** `getIconColor`: the colour of an action by its lowercased name; anything
      else, a missing action included, is grey. */
  function GetIconColor(action: Option<string>): (c: IconColor)
    ensures c == SuccessMain <==> action.Some? && (Lower(action.value) == "creada" || Lower(action.value) == "completada")
    ensures c == PrimaryMain <==> action.Some? && Lower(action.value) == "actualizada"
    ensures c == ErrorMain <==> action.Some? && Lower(action.value) == "eliminada"
    ensures c == InfoMain <==> action.Some? && Lower(action.value) == "asignada"
  {
    if action.None? then Grey500
    else
      var a := Lower(action.value);
      if a == "creada" then SuccessMain
      else if a == "actualizada" then PrimaryMain
      else if a == "eliminada" then ErrorMain
      else if a == "asignada" then InfoMain
      else if a == "completada" then SuccessMain
      else Grey500
  }

  /** The colour depends on the action only up to case. */
  lemma IconColorIgnoresCase(a: string)
    ensures GetIconColor(Some(Lower(a))) == GetIconColor(Some(a))
  {
    LowerIdempotent(a);
  }

  // ---------------------------------------------------------------------------
  // Grouping

  /** Timestamps never increase along `s`. */
  predicate NewestFirstOrder(s: seq<Event>)
  {
    forall i, j | 0 <= i < j < |s| :: s[i].timestamp >= s[j].timestamp
  }

  /** The test "happened at `t`". */
  function HappenedAt(t: int): Event -> bool
  {
    (e: Event) => e.timestamp == t
  }

  /** The events of `s` with timestamp `t`, in order. */
  function AtTime(s: seq<Event>, t: int): seq<Event>
  {
    Filter(s, HappenedAt(t))
  }

  /** Prepending an event no older than the head of a newest-first sequence keeps the order. */
  lemma PrependNewest(x: Event, s: seq<Event>)
    requires NewestFirstOrder(s)
    requires s == [] || s[0].timestamp <= x.timestamp
    ensures NewestFirstOrder([x] + s)
  {
    forall i, j | 0 <= i < j < |[x] + s| ensures ([x] + s)[i].timestamp >= ([x] + s)[j].timestamp {
      assert ([x] + s)[j] == s[j - 1];
      if i > 0 {
        assert ([x] + s)[i] == s[i - 1];
      }
    }
  }

  /** Places `e` before the first element that is not newer than it. */
  function InsertNewestFirst(e: Event, s: seq<Event>): (r: seq<Event>)
    requires NewestFirstOrder(s)
    ensures |r| == |s| + 1
    ensures r[0] == e || (s != [] && r[0] == s[0])
    ensures NewestFirstOrder(r)
  {
    if s == [] || s[0].timestamp <= e.timestamp then
      PrependNewest(e, s);
      [e] + s
    else
      var rest := InsertNewestFirst(e, s[1..]);
      PrependNewest(s[0], rest);
      [s[0]] + rest
  }

  /** Inserting adds exactly the inserted event. */
  lemma {:induction false} InsertPermutes(e: Event, s: seq<Event>)
    requires NewestFirstOrder(s)
    ensures multiset(InsertNewestFirst(e, s)) == multiset(s) + multiset{e}
  {
    if s != [] && s[0].timestamp > e.timestamp {
      var rest := InsertNewestFirst(e, s[1..]);
      assert multiset(rest) == multiset(s[1..]) + multiset{e} by {
        InsertPermutes(e, s[1..]);
      }
      assert InsertNewestFirst(e, s) == [s[0]] + rest;
      assert multiset(s) == multiset{s[0]} + multiset(s[1..]) by {
        assert s == [s[0]] + s[1..];
      }
    }
  }

  /** Events sharing a timestamp keep their order, with `e` placed before the
      others at its timestamp. */
  lemma {:induction false} InsertKeepsTies(e: Event, s: seq<Event>, t: int)
    requires NewestFirstOrder(s)
    ensures AtTime(InsertNewestFirst(e, s), t) == (if e.timestamp == t then [e] else []) + AtTime(s, t)
  {
    var p := HappenedAt(t);
    if s == [] || s[0].timestamp <= e.timestamp {
      FilterCons(e, s, p);
    } else {
      var rest := InsertNewestFirst(e, s[1..]);
      var mine := if e.timestamp == t then [e] else [];
      var head := if s[0].timestamp == t then [s[0]] else [];
      assert AtTime(rest, t) == mine + AtTime(s[1..], t) by {
        InsertKeepsTies(e, s[1..], t);
      }
      assert AtTime([s[0]] + rest, t) == head + AtTime(rest, t) by {
        FilterCons(s[0], rest, p);
      }
      assert AtTime(s, t) == head + AtTime(s[1..], t) by {
        assert s == [s[0]] + s[1..];
        FilterCons(s[0], s[1..], p);
      }
      assert InsertNewestFirst(e, s) == [s[0]] + rest;
      if e.timestamp == t {
        assert head == [];
      } else {
        assert mine == [];
      }
    }
  }

  /** `sort((a, b) => b.timestamp - a.timestamp)`: newest first, and, as the sort
      is stable, events with equal timestamps in their input order. */
  function NewestFirst(s: seq<Event>): (r: seq<Event>)
    ensures NewestFirstOrder(r)
    ensures |r| == |s|
  {
    if s == [] then [] else InsertNewestFirst(s[0], NewestFirst(s[1..]))
  }

  /** Sorting is a permutation. */
  lemma {:induction false} NewestFirstPermutes(s: seq<Event>)
    ensures multiset(NewestFirst(s)) == multiset(s)
  {
    if s != [] {
      var rest := NewestFirst(s[1..]);
      assert multiset(rest) == multiset(s[1..]) by {
        NewestFirstPermutes(s[1..]);
      }
      assert multiset(InsertNewestFirst(s[0], rest)) == multiset(rest) + multiset{s[0]} by {
        InsertPermutes(s[0], rest);
      }
      assert multiset(s) == multiset{s[0]} + multiset(s[1..]) by {
        assert s == [s[0]] + s[1..];
      }
      assert NewestFirst(s) == InsertNewestFirst(s[0], rest);
    }
  }

  /** Stability: at every timestamp the sorted sequence lists the same events
      in the same order as the input. */
  lemma {:induction false} NewestFirstStable(s: seq<Event>, t: int)
    ensures AtTime(NewestFirst(s), t) == AtTime(s, t)
  {
    if s != [] {
      NewestFirstStable(s[1..], t);
      InsertKeepsTies(s[0], NewestFirst(s[1..]), t);
      assert s == [s[0]] + s[1..];
      FilterCons(s[0], s[1..], HappenedAt(t));
    }
  }

  /** The test "belongs to task `taskId`". */
  function OfTask(taskId: int): Event -> bool
  {
    (e: Event) => e.taskId == taskId
  }

  /** The events of one task, in input order. */
  function TaskEvents(events: seq<Event>, taskId: int): seq<Event>
  {
    Filter(events, OfTask(taskId))
  }

  /** The task ids that occur among the events. */
  ghost function TaskIdSet(events: seq<Event>): set<int>
  {
    set e | e in events :: e.taskId
  }

  /** Extending the prefix by one event adds that event to its own task's group only. */
  lemma GroupStep(events: seq<Event>, i: nat)
    requires i < |events|
    ensures TaskIdSet(events[..i + 1]) == TaskIdSet(events[..i]) + {events[i].taskId}
    ensures TaskEvents(events[..i + 1], events[i].taskId) == TaskEvents(events[..i], events[i].taskId) + [events[i]]
    ensures forall k | k != events[i].taskId :: TaskEvents(events[..i + 1], k) == TaskEvents(events[..i], k)
    ensures events[i].taskId !in TaskIdSet(events[..i]) ==> TaskEvents(events[..i], events[i].taskId) == []
  {
    var e := events[i];
    assert events[..i + 1] == events[..i] + [e];
    forall k ensures TaskEvents(events[..i + 1], k) == TaskEvents(events[..i], k) + (if e.taskId == k then [e] else []) {
      var p := OfTask(k);
      FilterAppend(events[..i], [e], p);
      FilterCons(e, [], p);
    }
    if e.taskId !in TaskIdSet(events[..i]) {
      var g := TaskEvents(events[..i], e.taskId);
      assert forall x | x in g :: x in events[..i] && x.taskId == e.taskId;
      assert g == [];
    }
  }

  /** Sorting neither adds nor loses a value. */
  lemma NewestFirstMembers(s: seq<Event>)
    ensures forall x | x in NewestFirst(s) :: x in s
    ensures forall x | x in s :: x in NewestFirst(s)
  {
    var r := NewestFirst(s);
    NewestFirstPermutes(s);
    forall x | x in r ensures x in s {
      assert x in multiset(r);
    }
    forall x | x in s ensures x in r {
      assert x in multiset(s);
    }
  }

  /** The sorted group of an occurring task is non-empty and holds exactly that task's events. */
  lemma GroupFacts(events: seq<Event>, k: int)
    ensures k in TaskIdSet(events) ==> NewestFirst(TaskEvents(events, k)) != []
    ensures forall x | x in NewestFirst(TaskEvents(events, k)) :: x in events && x.taskId == k
    ensures forall x | x in events && x.taskId == k :: x in NewestFirst(TaskEvents(events, k))
  {
    var g := TaskEvents(events, k);
    NewestFirstMembers(g);
    if k in TaskIdSet(events) {
      var e :| e in events && e.taskId == k;
      assert e in g;
    }
  }

  /** What a map of groups holding each occurring task's events, newest first,
      guarantees about its groups. */
  lemma GroupedFacts(events: seq<Event>, grouped: map<int, seq<Event>>)
    requires grouped.Keys == TaskIdSet(events)
    requires forall k | k in grouped :: grouped[k] == NewestFirst(TaskEvents(events, k))
    ensures forall k | k in grouped :: grouped[k] != [] && NewestFirstOrder(grouped[k])
    ensures forall k | k in grouped :: multiset(grouped[k]) == multiset(TaskEvents(events, k))
    ensures forall k, e | k in grouped && e in grouped[k] :: e in events && e.taskId == k
    ensures forall e | e in events :: e.taskId in grouped && e in grouped[e.taskId]
  {
    forall k | k in grouped
      ensures grouped[k] != []
      ensures multiset(grouped[k]) == multiset(TaskEvents(events, k))
      ensures forall x | x in grouped[k] :: x in events && x.taskId == k
    {
      GroupFacts(events, k);
      NewestFirstPermutes(TaskEvents(events, k));
    }
    forall e | e in events ensures e.taskId in grouped && e in grouped[e.taskId] {
      GroupFacts(events, e.taskId);
    }
  }

  /** Pushing the next event onto its task's array, created if missing, keeps
      every array equal to its task's events so far. */
  lemma CollectStep(events: seq<Event>, i: nat, grouped: map<int, seq<Event>>, grouped': map<int, seq<Event>>)
    requires i < |events|
    requires grouped.Keys == TaskIdSet(events[..i])
    requires forall k | k in grouped :: grouped[k] == TaskEvents(events[..i], k)
    requires grouped' == grouped[events[i].taskId :=
      (if events[i].taskId in grouped then grouped[events[i].taskId] else []) + [events[i]]]
    ensures grouped'.Keys == TaskIdSet(events[..i + 1])
    ensures forall k | k in grouped' :: grouped'[k] == TaskEvents(events[..i + 1], k)
  {
    GroupStep(events, i);
  }

  /** The `forEach` that pushes each event onto the array of its task id,
      creating the array on the task's first event; `keys` lists each task id
      once, standing in for `Object.keys(grouped)`. */
  method CollectByTask(events: seq<Event>) returns (grouped: map<int, seq<Event>>, keys: seq<int>)
    ensures grouped.Keys == TaskIdSet(events)
    ensures forall k | k in grouped :: grouped[k] == TaskEvents(events, k)
    ensures NoDup(keys) && forall k :: k in keys <==> k in grouped
  {
    grouped, keys := map[], [];
    var i := 0;
    while i < |events|
      invariant 0 <= i <= |events|
      invariant grouped.Keys == TaskIdSet(events[..i])
      invariant forall k | k in grouped :: grouped[k] == TaskEvents(events[..i], k)
      invariant NoDup(keys) && forall k :: k in keys <==> k in grouped
    {
      var e := events[i];
      var group := [];
      if e.taskId in grouped {
        group := grouped[e.taskId];
      } else {
        keys := keys + [e.taskId];
      }
      ghost var before := grouped;
      grouped := grouped[e.taskId := group + [e]];
      CollectStep(events, i, before, grouped);
      i := i + 1;
    }
    assert events[..i] == events;
  }

  /** The `forEach` over the keys that sorts every group newest first. */
  method SortGroups(groups: map<int, seq<Event>>, keys: seq<int>) returns (grouped: map<int, seq<Event>>)
    requires NoDup(keys) && forall k :: k in keys <==> k in groups
    ensures grouped.Keys == groups.Keys
    ensures forall k | k in grouped :: grouped[k] == NewestFirst(groups[k])
  {
    grouped := groups;
    var i := 0;
    while i < |keys|
      invariant 0 <= i <= |keys|
      invariant grouped.Keys == groups.Keys
      invariant forall k | k in keys[..i] :: grouped[k] == NewestFirst(groups[k])
      invariant forall k | k in groups && k !in keys[..i] :: grouped[k] == groups[k]
    {
      var k := keys[i];
      assert k !in keys[..i];
      grouped := grouped[k := NewestFirst(grouped[k])];
      assert keys[..i + 1] == keys[..i] + [k];
      i := i + 1;
    }
    assert keys[..i] == keys;
  }

  /** `groupEventsByTask`: one group per task id that occurs, holding exactly
      that task's events, newest first; so no group is empty and every event
      sits in the group of its own task. */
  method GroupEventsByTask(events: seq<Event>) returns (grouped: map<int, seq<Event>>)
    ensures grouped.Keys == TaskIdSet(events)
    ensures forall k | k in grouped :: grouped[k] == NewestFirst(TaskEvents(events, k))
    ensures forall k | k in grouped :: grouped[k] != [] && NewestFirstOrder(grouped[k])
    ensures forall k | k in grouped :: multiset(grouped[k]) == multiset(TaskEvents(events, k))
    ensures forall k, e | k in grouped && e in grouped[k] :: e in events && e.taskId == k
    ensures forall e | e in events :: e.taskId in grouped && e in grouped[e.taskId]
  {
    var groups, keys := CollectByTask(events);
    grouped := SortGroups(groups, keys);
    GroupedFacts(events, grouped);
  }

  /** The test "belongs to one of the tasks `taskIds`". */
  function OfTasks(taskIds: seq<int>): Event -> bool
  {
    (e: Event) => e.taskId in taskIds
  }

  /** The total size of the groups for the given task ids. */
  function GroupSizes(events: seq<Event>, taskIds: seq<int>): nat
  {
    if taskIds == [] then 0 else |TaskEvents(events, taskIds[0])| + GroupSizes(events, taskIds[1..])
  }

  function TaskIdsOf(events: seq<Event>): seq<int>
  {
    Map(events, (e: Event) => e.taskId)
  }

  /** Over distinct task ids, the groups together hold as many events as the
      events whose task id is among them. */
  lemma {:induction false} GroupSizesCount(events: seq<Event>, taskIds: seq<int>)
    requires NoDup(taskIds)
    ensures GroupSizes(events, taskIds) == |Filter(events, OfTasks(taskIds))|
  {
    var inIds := OfTasks(taskIds);
    if taskIds == [] {
      assert Filter(events, inIds) == [] by {
        assert forall x | x in Filter(events, inIds) :: x.taskId in taskIds;
      }
    } else {
      var k, rest := taskIds[0], taskIds[1..];
      assert NoDup(rest) by {
        forall i, j | 0 <= i < j < |rest| ensures rest[i] != rest[j] {
          assert rest[i] == taskIds[i + 1] && rest[j] == taskIds[j + 1];
        }
      }
      assert k !in rest by {
        forall j | 0 <= j < |rest| ensures rest[j] != k {
          assert rest[j] == taskIds[j + 1];
        }
      }
      GroupSizesCount(events, rest);
      FilterPartition(events, OfTask(k), OfTasks(rest), inIds);
      assert |multiset(TaskEvents(events, k))| + |multiset(Filter(events, OfTasks(rest)))|
          == |multiset(Filter(events, inIds))|;
    }
  }

  /** Grouping neither drops nor duplicates events: the groups of the task ids
      that occur have sizes summing to the number of events. */
  lemma GroupSizesSumToLength(events: seq<Event>)
    ensures GroupSizes(events, Distinct(TaskIdsOf(events))) == |events|
  {
    var ids := TaskIdsOf(events);
    var keys := Distinct(ids);
    GroupSizesCount(events, keys);
    forall e | e in events ensures e.taskId in keys {
      var i :| 0 <= i < |events| && events[i] == e;
      assert ids[i] == e.taskId;
      assert e.taskId in ids;
    }
    FilterKeepsAll(events, OfTasks(keys));
  }
}
