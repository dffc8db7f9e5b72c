/**
 * The chore manager's logic with the user interface taken away: the configuration read from
 * tasks.yaml, handing a chore to the next user of its room (_assign_task), first-run seeding
 * of both stores (_initiate_tasks), completing a dated chore (_complete_task) and completing
 * one repetition of an indefinite chore (_complete_indefinite_task), and the colour a queued
 * task is shown in. The current date is a parameter.
 */
module Manager {
  import opened Errors
  import opened Storage
  import opened Dicts
  import Dates
  import PyList
  import opened Period
  import opened Rotation
  import TaskStore
  import IndefiniteStore

  type Task = TaskStore.Task
  type IndefiniteTask = IndefiniteStore.IndefiniteTask

  /** A room: its rotation list and its chores, each with its period text ("3d", "2w", "1m"). */
  datatype Room = Room(users: seq<string>, tasks: Dict<string>)

  /** An indefinite chore's entry: its rotation list and its number of repetitions. */
  datatype IndefiniteDef = IndefiniteDef(users: seq<string>, repetitions: int)

  /** The parts of tasks.yaml the manager reads: the rooms and the indefinite chores, in file order. */
  datatype Config = Config(rooms: Dict<Room>, indefiniteTasks: Dict<IndefiniteDef>)

  /** Every mapping in the configuration has the shape of a Python dict. */
  ghost predicate ConfigValid(c: Config) {
    && Dicts.Valid(c.rooms) && Dicts.Valid(c.indefiniteTasks)
    && forall r :: r in c.rooms.entries ==> Dicts.Valid(c.rooms.entries[r].tasks)
  }

  // ---------------------------------------------------------------- queued colour

  datatype Color = Green | Yellow | Red

  /**
   * The RGBA tuple the interface paints for each colour: opaque, no blue, the red channel on
   * for every colour but green and the green channel on for every colour but red.
   */
  function Rgba(c: Color): (rgba: (int, int, int, int))
    ensures rgba.0 == 1 <==> c != Green
    ensures rgba.1 == 1 <==> c != Red
    ensures rgba.0 in {0, 1} && rgba.1 in {0, 1} && rgba.2 == 0 && rgba.3 == 1
  {
    match c
    case Yellow => (1, 1, 0, 1)
    case Red => (1, 0, 0, 1)
    case Green => (0, 1, 0, 1)
  }

  /** _queued_color: yellow when due today, red when overdue, green when due later. */
  function QueuedColor(due: Dates.Date, today: Dates.Date): (c: Color)
    ensures c == Yellow <==> due == today
    ensures c == Red <==> due < today
    ensures c == Green <==> today < due
  {
    var delta := due - today;
    if delta == 0 then Yellow else if delta < 0 then Red else Green
  }

  /** _queued_color's RGBA tuple for a task due on due, seen on today. */
  lemma QueuedRgba(due: Dates.Date, today: Dates.Date)
    ensures Rgba(QueuedColor(due, today)) == (1, 1, 0, 1) <==> due == today
    ensures Rgba(QueuedColor(due, today)) == (1, 0, 0, 1) <==> due < today
    ensures Rgba(QueuedColor(due, today)) == (0, 1, 0, 1) <==> today < due
  {
  }

  /** How urgent a colour is: green, then yellow, then red. */
  function Urgency(c: Color): nat {
    match c
    case Green => 0
    case Yellow => 1
    case Red => 2
  }

  /** As the days pass a task's colour only moves towards red. */
  lemma ColorMonotone(due: Dates.Date, today: Dates.Date, later: Dates.Date)
    requires today <= later
    ensures Urgency(QueuedColor(due, today)) <= Urgency(QueuedColor(due, later))
  {
  }

  /** Down a list sorted by due date the colours never get more urgent. */
  lemma SortedColors(s: seq<Task>, today: Dates.Date)
    requires TaskStore.Sorted(s)
    ensures forall i, j :: 0 <= i < j < |s| ==>
      Urgency(QueuedColor(s[j].due, today)) <= Urgency(QueuedColor(s[i].due, today))
  {
  }

  // ---------------------------------------------------------------- assigning a chore

  /**
   * What _assign_task creates for a chore of a room: the next user of the room's list,
   * due the period after today, keeping the period text. The steps fail in the order the
   * source takes them: the holder's position (ValueError), the chore's period (KeyError),
   * its parsing, and a due date past what a date can hold (OverflowError).
   */
  function NextTaskIn(roomName: string, room: Room, taskName: string, current: string, today: Dates.Date)
    : (r: Result<Task>)
    ensures current !in room.users ==> r == Err(ValueError)
    ensures current in room.users && taskName !in room.tasks.entries ==> r == Err(KeyError)
    ensures current in room.users && taskName in room.tasks.entries ==>
      var p := ParsePeriod(room.tasks.entries[taskName]);
      && (p.Err? ==> r == Err(p.error))
      && (p.Ok? ==> (r.Ok? <==> 1 <= today + p.value <= Dates.MaxOrdinal))
      && (p.Ok? && r.Err? ==> r.error == OverflowError)
    ensures r.Ok? ==>
      && r.value.user == NextUser(room.users, current).value
      && r.value.room == roomName && r.value.name == taskName
      && r.value.period == room.tasks.entries[taskName]
      && ParsePeriod(r.value.period) == Ok(r.value.due - today)
  {
    match NextUser(room.users, current)
    case Err(e) => Err(e)
    case Ok(user) =>
      match Get(room.tasks, taskName)
      case Err(e) => Err(e)
      case Ok(period) =>
        match ParsePeriod(period)
        case Err(e) => Err(e)
        case Ok(days) =>
          var due := today + days;
          if 1 <= due <= Dates.MaxOrdinal then Ok(TaskStore.NewTask(user, roomName, taskName, due, period))
          else Err(OverflowError)
  }

  /** The same, starting with the room's lookup, which raises KeyError for an unknown room. */
  function NextTask(config: Config, roomName: string, taskName: string, current: string, today: Dates.Date)
    : (r: Result<Task>)
    ensures roomName !in config.rooms.entries ==> r == Err(KeyError)
    ensures roomName in config.rooms.entries ==>
      r == NextTaskIn(roomName, config.rooms.entries[roomName], taskName, current, today)
  {
    match Get(config.rooms, roomName)
    case Err(e) => Err(e)
    case Ok(room) => NextTaskIn(roomName, room, taskName, current, today)
  }

  /**
   * The store after _assign_task: exactly one new task, the one NextTask describes, inserted
   * after every task due on or before it and before every task due later, so that a sorted
   * store stays sorted. The result also carries the new holder.
   */
  function Assign(config: Config, s: seq<Task>, roomName: string, taskName: string, current: string,
                  today: Dates.Date): (r: Result<(string, seq<Task>)>)
    ensures var n := NextTask(config, roomName, taskName, current, today);
      && (n.Err? ==> r == Err(n.error))
      && (n.Ok? ==> r.Ok? && r.value.0 == n.value.user && |r.value.1| == |s| + 1
                    && multiset(r.value.1) == multiset(s) + multiset{n.value})
    ensures r.Ok? && TaskStore.Sorted(s) ==>
      var t := NextTask(config, roomName, taskName, current, today).value;
      var k := TaskStore.UpperBound(s, t);
      && TaskStore.Sorted(r.value.1)
      && r.value.1 == s[..k] + [t] + s[k..]
      && (forall i :: 0 <= i < k ==> s[i].due <= t.due)
      && (forall i :: k <= i < |s| ==> t.due < s[i].due)
  {
    match NextTask(config, roomName, taskName, current, today)
    case Err(e) => Err(e)
    case Ok(t) =>
      var k := TaskStore.UpperBound(s, t);
      TaskStore.InsertSortedMultiset(s, t);
      assert TaskStore.Sorted(s) ==>
        && TaskStore.Sorted(TaskStore.InsertSorted(s, t))
        && TaskStore.InsertSorted(s, t) == s[..k] + [t] + s[k..]
        && (forall i :: k <= i < |s| ==> t.due < s[i].due)
      by {
        if TaskStore.Sorted(s) {
          TaskStore.InsertSortedSorted(s, t);
          TaskStore.InsertSortedSplit(s, t);
        }
      }
      Ok((t.user, TaskStore.InsertSorted(s, t)))
  }

  /**
   * _assign_task as written: every step up to the due date runs, and then new_task is called
   * with four arguments where it takes five, which raises TypeError. No task is ever inserted.
   */
  function AssignTaskAsWritten(config: Config, roomName: string, taskName: string, current: string,
                               today: Dates.Date): (r: Result<string>)
    ensures r.Err?
    ensures NextTask(config, roomName, taskName, current, today).Ok? ==> r == Err(TypeError)
  {
    match NextTask(config, roomName, taskName, current, today)
    case Err(e) => Err(e)
    case Ok(_) => Err(TypeError)
  }

  /** A one-room household in which the missing argument shows: as written the chore is lost. */
  lemma AssignTaskAsWrittenFails()
    ensures var room := Room(["ana", "ben"], Dict(["dishes"], map["dishes" := "1d"]));
      var config := Config(Dict(["kitchen"], map["kitchen" := room]), Empty());
      && AssignTaskAsWritten(config, "kitchen", "dishes", "ana", 738000) == Err(TypeError)
      && Assign(config, [], "kitchen", "dishes", "ana", 738000).Ok?
      && Assign(config, [], "kitchen", "dishes", "ana", 738000).value.0 == "ben"
  {
    var room := Room(["ana", "ben"], Dict(["dishes"], map["dishes" := "1d"]));
    assert PyList.Index(room.users, "ana") == Ok(0);
    assert "1d"[..1] == Digits.Show(1) by { Digits.ShowNonNegative(1); }
    ParsePeriodOfCount(1, 'd');
    assert "1d" == Digits.Show(1) + ['d'];
  }

  /** A successful assignment inserts the new task where InsertSorted puts it. */
  lemma AssignUnfold(config: Config, s: seq<Task>, roomName: string, taskName: string, current: string,
                     today: Dates.Date)
    requires NextTask(config, roomName, taskName, current, today).Ok?
    ensures var t := NextTask(config, roomName, taskName, current, today).value;
      Assign(config, s, roomName, taskName, current, today) == Ok((t.user, TaskStore.InsertSorted(s, t)))
  {
  }

  /** bisect.insort of NextTask's new task into a store; returns the new holder. */
  method AssignInto(config: Config, store: TaskStore.Tasks, roomName: string, taskName: string,
                    current: string, today: Dates.Date) returns (r: Result<string>)
    modifies store
    ensures var n := NextTask(config, roomName, taskName, current, today);
      && (n.Err? ==> r == Err(n.error) && store.contents == old(store.contents) && store.file == old(store.file))
      && (n.Ok? ==> && r == Ok(n.value.user)
                    && multiset(store.contents) == multiset(old(store.contents)) + multiset{n.value}
                    && store.Persisted() && store.Valid())
    ensures r.Ok? && TaskStore.Sorted(old(store.contents)) ==>
      store.contents == TaskStore.InsertSorted(old(store.contents), NextTask(config, roomName, taskName, current, today).value)
  {
    var n := NextTask(config, roomName, taskName, current, today);
    if n.Err? {
      return Err(n.error);
    }
    TaskStore.Insort(store, n.value);
    r := Ok(n.value.user);
  }

  // ---------------------------------------------------------------- seeding

  /**
   * The tasks the seeding loop creates for the first names of a room's chores, in order, and
   * the holder it has reached: it starts from the first user of the list and hands every
   * chore to the user after the previous holder.
   */
  function RoomRun(roomName: string, room: Room, names: seq<string>, today: Dates.Date)
    : Result<(seq<Task>, string)>
    requires room.users != []
    decreases |names|
  {
    if names == [] then Ok(([], room.users[0]))
    else
      match RoomRun(roomName, room, names[..|names| - 1], today)
      case Err(e) => Err(e)
      case Ok(p) =>
        match NextTaskIn(roomName, room, names[|names| - 1], p.1, today)
        case Err(e) => Err(e)
        case Ok(t) => Ok((p.0 + [t], t.user))
  }

  /** One more chore of the room: the run over names[..j + 1] extends the run over names[..j]. */
  lemma RoomRunExtend(roomName: string, room: Room, names: seq<string>, j: nat, today: Dates.Date)
    requires room.users != [] && j < |names| && RoomRun(roomName, room, names[..j], today).Ok?
    ensures var p := RoomRun(roomName, room, names[..j], today).value;
      var n := NextTaskIn(roomName, room, names[j], p.1, today);
      RoomRun(roomName, room, names[..j + 1], today) == if n.Ok? then Ok((p.0 + [n.value], n.value.user)) else Err(n.error)
  {
    assert names[..j + 1][..j] == names[..j];
  }

  /**
   * Seeding a room rotates its chores among its users: the k-th chore (from 0) is for the
   * user k + 1 steps after the first one, and the loop ends at the holder of the last chore.
   */
  lemma {:induction false} RoomRunHolders(roomName: string, room: Room, names: seq<string>, today: Dates.Date,
                                          ts: seq<Task>, u: string)
    requires room.users != [] && RoomRun(roomName, room, names, today) == Ok((ts, u))
    ensures |ts| == |names|
    ensures Advance(room.users, room.users[0], |ts|) == Ok(u)
    ensures forall k :: 0 <= k < |ts| ==> ts[k].room == roomName && ts[k].name == names[k]
    ensures forall k :: 0 <= k < |ts| ==> Advance(room.users, room.users[0], k + 1) == Ok(ts[k].user)
    decreases |names|
  {
    if names != [] {
      var j := |names| - 1;
      assert names[..j + 1] == names;
      RoomRunExtend(roomName, room, names, j, today);
      var p := RoomRun(roomName, room, names[..j], today).value;
      var t := NextTaskIn(roomName, room, names[j], p.1, today).value;
      RoomRunHolders(roomName, room, names[..j], today, p.0, p.1);
      assert ts == p.0 + [t] && u == t.user;
      assert t.room == roomName && t.name == names[j] && NextUser(room.users, p.1) == Ok(t.user);
      assert Advance(room.users, room.users[0], |ts|) == NextUser(room.users, p.1);
      forall k | 0 <= k < |ts|
        ensures ts[k].room == roomName && ts[k].name == names[k]
        ensures Advance(room.users, room.users[0], k + 1) == Ok(ts[k].user)
      {
        if k < |p.0| {
          assert ts[k] == p.0[k] && names[k] == names[..j][k];
        } else {
          assert k == j && ts[k] == t && k + 1 == |ts|;
        }
      }
    }
  }

  /** In particular the first chore of a room goes to users[1 mod n]. */
  lemma RoomRunFirstHolder(roomName: string, room: Room, names: seq<string>, today: Dates.Date,
                           ts: seq<Task>, u: string)
    requires room.users != [] && RoomRun(roomName, room, names, today) == Ok((ts, u)) && names != []
    ensures ts[0].user == room.users[1 % |room.users|]
  {
    RoomRunHolders(roomName, room, names, today, ts, u);
    FirstRotation(room.users);
  }

  /** Once seeding a room has failed on some chore, the room's seeding fails with that error. */
  lemma {:induction false} RoomRunErr(roomName: string, room: Room, names: seq<string>, j: nat, today: Dates.Date)
    requires room.users != [] && j <= |names| && RoomRun(roomName, room, names[..j], today).Err?
    ensures RoomRun(roomName, room, names, today) == RoomRun(roomName, room, names[..j], today)
    decreases |names| - j
  {
    if j < |names| {
      assert names[..j + 1][..j] == names[..j];
      RoomRunErr(roomName, room, names, j + 1, today);
    } else {
      assert names[..j] == names;
    }
  }

  /** A room's seeds: IndexError when it has no users, whether or not it has chores. */
  function RoomSeeds(roomName: string, room: Room, today: Dates.Date): (r: Result<seq<Task>>)
    ensures room.users == [] ==> r == Err(IndexError)
  {
    if room.users == [] then Err(IndexError)
    else match RoomRun(roomName, room, room.tasks.keys, today)
      case Err(e) => Err(e)
      case Ok(p) => Ok(p.0)
  }

  /**
   * A room seeded without error gets one task per chore, in the chores' order, and the k-th
   * chore (from 0) goes to the user k + 1 steps after users[0].
   */
  lemma RoomSeedsTasks(roomName: string, room: Room, today: Dates.Date)
    requires RoomSeeds(roomName, room, today).Ok?
    ensures room.users != []
    ensures var ts := RoomSeeds(roomName, room, today).value;
      && |ts| == |room.tasks.keys|
      && forall k :: 0 <= k < |ts| ==>
           && ts[k].room == roomName && ts[k].name == room.tasks.keys[k]
           && Advance(room.users, room.users[0], k + 1) == Ok(ts[k].user)
  {
    var p := RoomRun(roomName, room, room.tasks.keys, today).value;
    RoomRunHolders(roomName, room, room.tasks.keys, today, p.0, p.1);
  }

  /** The tasks created for the first rooms of the configuration, room after room. */
  function SeedRun(config: Config, roomNames: seq<string>, today: Dates.Date): Result<seq<Task>>
    requires forall r :: r in roomNames ==> r in config.rooms.entries
    decreases |roomNames|
  {
    if roomNames == [] then Ok([])
    else
      var last := roomNames[|roomNames| - 1];
      match SeedRun(config, roomNames[..|roomNames| - 1], today)
      case Err(e) => Err(e)
      case Ok(ts) =>
        match RoomSeeds(last, config.rooms.entries[last], today)
        case Err(e) => Err(e)
        case Ok(us) => Ok(ts + us)
  }

  lemma SeedRunExtend(config: Config, roomNames: seq<string>, i: nat, today: Dates.Date)
    requires forall r :: r in roomNames ==> r in config.rooms.entries
    requires i < |roomNames| && SeedRun(config, roomNames[..i], today).Ok?
    ensures var rs := RoomSeeds(roomNames[i], config.rooms.entries[roomNames[i]], today);
      SeedRun(config, roomNames[..i + 1], today)
        == if rs.Ok? then Ok(SeedRun(config, roomNames[..i], today).value + rs.value) else Err(rs.error)
  {
    assert roomNames[..i + 1][..i] == roomNames[..i];
  }

  lemma {:induction false} SeedRunErr(config: Config, roomNames: seq<string>, i: nat, today: Dates.Date)
    requires forall r :: r in roomNames ==> r in config.rooms.entries
    requires i <= |roomNames| && SeedRun(config, roomNames[..i], today).Err?
    ensures SeedRun(config, roomNames, today) == SeedRun(config, roomNames[..i], today)
    decreases |roomNames| - i
  {
    if i < |roomNames| {
      assert roomNames[..i + 1][..i] == roomNames[..i];
      SeedRunErr(config, roomNames, i + 1, today);
    } else {
      assert roomNames[..i] == roomNames;
    }
  }

  /** Every task _initiate_tasks creates on a first run, in creation order. */
  function Seeds(config: Config, today: Dates.Date): Result<seq<Task>>
    requires ConfigValid(config)
  {
    SeedRun(config, config.rooms.keys, today)
  }

  /**
   * The store a successful first run leaves: every created task, inserted in turn, and
   * sorted by due date, whatever order the rooms and chores are listed in.
   */
  function SeededStore(config: Config, today: Dates.Date): (r: Result<seq<Task>>)
    requires ConfigValid(config)
    ensures r.Ok? <==> Seeds(config, today).Ok?
    ensures r.Ok? ==> var ts := Seeds(config, today).value;
      TaskStore.Sorted(r.value) && multiset(r.value) == multiset(ts) && |r.value| == |ts|
  {
    match Seeds(config, today)
    case Err(e) => Err(e)
    case Ok(ts) => Ok(TaskStore.InsertAll([], ts))
  }

  lemma SortedFromEmpty(ts: seq<Task>)
    ensures TaskStore.Sorted(TaskStore.InsertAll([], ts))
  {
    assert TaskStore.Sorted([]);
  }

  /** One successful _assign_task of the seeding loop, in terms of the run and of the store. */
  lemma SeedRoomStep(config: Config, roomName: string, names: seq<string>, j: nat, today: Dates.Date,
                     here: seq<Task>, user: string, t: Task)
    requires roomName in config.rooms.entries && config.rooms.entries[roomName].users != []
    requires j < |names| && RoomRun(roomName, config.rooms.entries[roomName], names[..j], today) == Ok((here, user))
    requires NextTask(config, roomName, names[j], user, today) == Ok(t)
    ensures RoomRun(roomName, config.rooms.entries[roomName], names[..j + 1], today) == Ok((here + [t], t.user))
  {
    RoomRunExtend(roomName, config.rooms.entries[roomName], names, j, today);
  }

  /** Inserting one more task into the store the seeding loop has built so far. */
  lemma InsertAllSnoc(done: seq<Task>, here: seq<Task>, t: Task)
    ensures TaskStore.InsertAll([], done + (here + [t])) == TaskStore.InsertSorted(TaskStore.InsertAll([], done + here), t)
  {
    TaskStore.InsertAllStep([], done + here, t);
    assert done + here + [t] == done + (here + [t]);
  }

  /** A failed _assign_task of the seeding loop is the failure of the room's whole run. */
  lemma SeedRoomFail(config: Config, roomName: string, names: seq<string>, j: nat, today: Dates.Date,
                     here: seq<Task>, user: string)
    requires roomName in config.rooms.entries && config.rooms.entries[roomName].users != []
    requires j < |names| && RoomRun(roomName, config.rooms.entries[roomName], names[..j], today) == Ok((here, user))
    requires NextTask(config, roomName, names[j], user, today).Err?
    ensures RoomRun(roomName, config.rooms.entries[roomName], names, today)
      == Err(NextTask(config, roomName, names[j], user, today).error)
  {
    RoomRunExtend(roomName, config.rooms.entries[roomName], names, j, today);
    RoomRunErr(roomName, config.rooms.entries[roomName], names, j + 1, today);
  }

  /** One pass of the inner loop of _initiate_tasks: _assign_task for the j-th chore of the room. */
  method SeedChore(config: Config, store: TaskStore.Tasks, roomName: string, names: seq<string>, j: nat,
                   today: Dates.Date, user: string, ghost done: seq<Task>, ghost here: seq<Task>)
    returns (r: Result<string>, ghost t: Task)
    requires roomName in config.rooms.entries && config.rooms.entries[roomName].users != []
    requires j < |names| && RoomRun(roomName, config.rooms.entries[roomName], names[..j], today) == Ok((here, user))
    requires store.contents == TaskStore.InsertAll([], done + here) && store.Valid()
    modifies store
    ensures store.Valid()
    ensures r.Err? ==> RoomRun(roomName, config.rooms.entries[roomName], names, today) == Err(r.error)
                       && store.contents == old(store.contents)
    ensures r.Ok? ==>
      && RoomRun(roomName, config.rooms.entries[roomName], names[..j + 1], today) == Ok((here + [t], r.value))
      && store.contents == TaskStore.InsertAll([], done + (here + [t]))
  {
    ghost var before := store.contents;
    SortedFromEmpty(done + here);
    r := AssignInto(config, store, roomName, names[j], user, today);
    if r.Err? {
      SeedRoomFail(config, roomName, names, j, today, here, user);
      t := TaskStore.NewTask(user, roomName, names[j], today, "");
      return;
    }
    t := NextTask(config, roomName, names[j], user, today).value;
    assert store.contents == TaskStore.InsertSorted(before, t);
    SeedRoomStep(config, roomName, names, j, today, here, user, t);
    InsertAllSnoc(done, here, t);
  }

  /** The inner loop of _initiate_tasks: one room's chores, each by _assign_task, in turn. */
  method SeedRoom(config: Config, store: TaskStore.Tasks, roomName: string, today: Dates.Date,
                  ghost done: seq<Task>) returns (r: Result<()>)
    requires roomName in config.rooms.entries && config.rooms.entries[roomName].users != []
    requires store.contents == TaskStore.InsertAll([], done) && store.Valid()
    modifies store
    ensures store.Valid() && TaskStore.Sorted(store.contents)
    ensures var room := config.rooms.entries[roomName];
      match RoomRun(roomName, room, room.tasks.keys, today)
      case Ok(p) => r == Ok(()) && store.contents == TaskStore.InsertAll([], done + p.0)
      case Err(e) => r == Err(e)
  {
    var room := config.rooms.entries[roomName];
    var names := room.tasks.keys;
    var user := room.users[0];
    ghost var here: seq<Task> := [];
    assert done + here == done;
    var j := 0;
    while j < |names|
      invariant 0 <= j <= |names|
      invariant RoomRun(roomName, room, names[..j], today) == Ok((here, user))
      invariant store.contents == TaskStore.InsertAll([], done + here)
      invariant store.Valid()
    {
      var a, t := SeedChore(config, store, roomName, names, j, today, user, done, here);
      if a.Err? {
        SortedFromEmpty(done + here);
        return Err(a.error);
      }
      here := here + [t];
      user := a.value;
      j := j + 1;
    }
    assert names[..j] == names;
    SortedFromEmpty(done + here);
    r := Ok(());
  }

  /**
   * _initiate_tasks for the dated store: a store that already holds tasks is left alone;
   * an empty one gets the seeds of every room, each by bisect.insort. A failure stops the
   * run with the first error, keeping what was inserted before it.
   */
  method SeedAssigned(config: Config, store: TaskStore.Tasks, today: Dates.Date) returns (r: Result<()>)
    requires ConfigValid(config) && store.Valid()
    modifies store
    ensures store.Valid()
    ensures old(store.contents) != [] ==>
      r == Ok(()) && store.contents == old(store.contents) && store.file == old(store.file)
    ensures old(store.contents) == [] ==> TaskStore.Sorted(store.contents)
    ensures old(store.contents) == [] ==> match SeededStore(config, today)
      case Ok(s) => r == Ok(()) && store.contents == s
      case Err(e) => r == Err(e)
  {
    if store.contents != [] {
      return Ok(());
    }
    var keys := config.rooms.keys;
    ghost var done: seq<Task> := [];
    var i := 0;
    while i < |keys|
      invariant 0 <= i <= |keys|
      invariant SeedRun(config, keys[..i], today) == Ok(done)
      invariant store.contents == TaskStore.InsertAll([], done)
      invariant store.Valid() && TaskStore.Sorted(store.contents)
    {
      var roomName := keys[i];
      SeedRunExtend(config, keys, i, today);
      if config.rooms.entries[roomName].users == [] {
        SeedRunErr(config, keys, i + 1, today);
        return Err(IndexError);
      }
      var a := SeedRoom(config, store, roomName, today, done);
      if a.Err? {
        SeedRunErr(config, keys, i + 1, today);
        return Err(a.error);
      }
      ghost var room := config.rooms.entries[roomName];
      done := done + RoomRun(roomName, room, room.tasks.keys, today).value.0;
      i := i + 1;
    }
    assert keys[..i] == keys;
    r := Ok(());
  }

  // ---------------------------------------------------------------- indefinite seeding

  /** The indefinite tasks created for the first names of the configuration, in order. */
  function IndefiniteRun(config: Config, names: seq<string>): Result<seq<IndefiniteTask>>
    requires forall n :: n in names ==> n in config.indefiniteTasks.entries
    decreases |names|
  {
    if names == [] then Ok([])
    else
      var last := names[|names| - 1];
      var d := config.indefiniteTasks.entries[last];
      match IndefiniteRun(config, names[..|names| - 1])
      case Err(e) => Err(e)
      case Ok(ts) =>
        if d.users == [] then Err(IndexError)
        else Ok(ts + [IndefiniteStore.NewIndefiniteTask(d.users[0], last, d.repetitions)])
  }

  lemma IndefiniteRunExtend(config: Config, names: seq<string>, i: nat)
    requires forall n :: n in names ==> n in config.indefiniteTasks.entries
    requires i < |names| && IndefiniteRun(config, names[..i]).Ok?
    ensures var d := config.indefiniteTasks.entries[names[i]];
      IndefiniteRun(config, names[..i + 1])
        == if d.users == [] then Err(IndexError)
           else Ok(IndefiniteRun(config, names[..i]).value + [IndefiniteStore.NewIndefiniteTask(d.users[0], names[i], d.repetitions)])
  {
    assert names[..i + 1][..i] == names[..i];
  }

  /** Each indefinite chore starts at repetition 1 with the first user of its list. */
  lemma {:induction false} IndefiniteRunEntries(config: Config, names: seq<string>, ts: seq<IndefiniteTask>)
    requires forall n :: n in names ==> n in config.indefiniteTasks.entries
    requires IndefiniteRun(config, names) == Ok(ts)
    ensures |ts| == |names|
    ensures forall k :: 0 <= k < |ts| ==>
      var d := config.indefiniteTasks.entries[names[k]];
      d.users != [] && ts[k] == IndefiniteStore.IndefiniteTask(d.users[0], names[k], 1, d.repetitions)
    decreases |names|
  {
    if names != [] {
      var j := |names| - 1;
      assert names[..j + 1] == names;
      IndefiniteRunExtend(config, names, j);
      var init := IndefiniteRun(config, names[..j]).value;
      IndefiniteRunEntries(config, names[..j], init);
      forall k | 0 <= k < j ensures ts[k] == init[k] && names[k] == names[..j][k] {
      }
    }
  }

  lemma {:induction false} IndefiniteRunErr(config: Config, names: seq<string>, i: nat)
    requires forall n :: n in names ==> n in config.indefiniteTasks.entries
    requires i <= |names| && IndefiniteRun(config, names[..i]).Err?
    ensures IndefiniteRun(config, names) == IndefiniteRun(config, names[..i])
    decreases |names| - i
  {
    if i < |names| {
      assert names[..i + 1][..i] == names[..i];
      IndefiniteRunErr(config, names, i + 1);
    } else {
      assert names[..i] == names;
    }
  }

  /** Every repetition counter of a list is within its bounds. */
  ghost predicate AllRepsInRange(s: seq<IndefiniteTask>) {
    forall k :: 0 <= k < |s| ==> IndefiniteStore.RepInRange(s[k])
  }

  /** Reordering a list keeps every counter in range. */
  lemma RepsInRangeOfPermutation(a: seq<IndefiniteTask>, b: seq<IndefiniteTask>)
    requires multiset(a) == multiset(b) && AllRepsInRange(b)
    ensures AllRepsInRange(a)
  {
    forall k | 0 <= k < |a| ensures IndefiniteStore.RepInRange(a[k]) {
      assert a[k] in multiset(b);
    }
  }

  /** Every chore of the configuration has at least one repetition. */
  ghost predicate PositiveRepetitions(config: Config) {
    forall n :: n in config.indefiniteTasks.entries ==> config.indefiniteTasks.entries[n].repetitions >= 1
  }

  /**
   * The indefinite store a first run leaves: sorted by name, holding exactly the created
   * entries, and with every counter in range when every chore has at least one repetition.
   */
  function SeededIndefinite(config: Config): (r: Result<seq<IndefiniteTask>>)
    requires ConfigValid(config)
    ensures r.Ok? <==> IndefiniteRun(config, config.indefiniteTasks.keys).Ok?
    ensures r.Ok? ==> var ts := IndefiniteRun(config, config.indefiniteTasks.keys).value;
      IndefiniteStore.Sorted(r.value) && multiset(r.value) == multiset(ts)
    ensures r.Ok? && PositiveRepetitions(config) ==> AllRepsInRange(r.value)
  {
    var names := config.indefiniteTasks.keys;
    match IndefiniteRun(config, names)
    case Err(e) => Err(e)
    case Ok(ts) =>
      var s := IndefiniteStore.InsertAll([], ts);
      assert PositiveRepetitions(config) ==> AllRepsInRange(s) by {
        if PositiveRepetitions(config) {
          IndefiniteRunEntries(config, names, ts);
          assert AllRepsInRange(ts);
          RepsInRangeOfPermutation(s, ts);
        }
      }
      Ok(s)
  }

  /** _initiate_tasks for the indefinite store: seeds an empty store by name, in file order. */
  method SeedIndefinite(config: Config, store: IndefiniteStore.IndefiniteTasks) returns (r: Result<()>)
    requires ConfigValid(config) && store.Valid()
    modifies store
    ensures store.Valid()
    ensures old(store.contents) != [] ==>
      r == Ok(()) && store.contents == old(store.contents) && store.file == old(store.file)
    ensures old(store.contents) == [] ==> IndefiniteStore.Sorted(store.contents)
    ensures old(store.contents) == [] ==> match SeededIndefinite(config)
      case Ok(s) => r == Ok(()) && store.contents == s
      case Err(e) => r == Err(e)
    ensures old(store.contents) == [] && r.Err? ==>
      var names := config.indefiniteTasks.keys;
      exists i :: 0 <= i < |names| && IndefiniteRun(config, names[..i]).Ok?
        && config.indefiniteTasks.entries[names[i]].users == []
        && store.contents == IndefiniteStore.InsertAll([], IndefiniteRun(config, names[..i]).value)
  {
    if store.contents != [] {
      return Ok(());
    }
    var names := config.indefiniteTasks.keys;
    ghost var done: seq<IndefiniteTask> := [];
    var i := 0;
    while i < |names|
      invariant 0 <= i <= |names|
      invariant IndefiniteRun(config, names[..i]) == Ok(done)
      invariant store.contents == IndefiniteStore.InsertAll([], done)
      invariant store.Valid() && IndefiniteStore.Sorted(store.contents)
    {
      var name := names[i];
      var d := config.indefiniteTasks.entries[name];
      IndefiniteRunExtend(config, names, i);
      if d.users == [] {
        IndefiniteRunErr(config, names, i + 1);
        return Err(IndexError);
      }
      var t := IndefiniteStore.NewIndefiniteTask(d.users[0], name, d.repetitions);
      IndefiniteStore.Insort(store, t);
      IndefiniteStore.InsertAllStep([], done, t);
      done := done + [t];
      i := i + 1;
    }
    assert names[..i] == names;
    r := Ok(());
  }

  // ---------------------------------------------------------------- completing chores

  /**
   * The outcome of _complete_task and the store it leaves: a listed task is removed (ValueError
   * when the store does not hold it, nothing changed) and then reassigned; a failure of the
   * reassignment leaves it removed.
   */
  function Complete(config: Config, s: seq<Task>, task: Task, today: Dates.Date): (r: (Result<string>, seq<Task>))
    ensures task !in s ==> r == (Err(ValueError), s)
    ensures task in s ==> var rest := PyList.Remove(s, task).value;
      var n := NextTask(config, task.room, task.name, task.user, today);
      && (n.Err? ==> r == (Err(n.error), rest))
      && (n.Ok? ==>
            && n.value.room == task.room && n.value.name == task.name
            && r.0 == Ok(n.value.user) && n.value.user == NextUser(config.rooms.entries[task.room].users, task.user).value
            && |r.1| == |s|
            && multiset(r.1) == multiset(s) - multiset{task} + multiset{n.value}
            && (TaskStore.Sorted(s) ==> TaskStore.Sorted(r.1)))
  {
    match PyList.Remove(s, task)
    case Err(e) => (Err(e), s)
    case Ok(rest) =>
      assert TaskStore.Sorted(s) ==> TaskStore.Sorted(rest) by {
        if TaskStore.Sorted(s) { TaskStore.RemoveKeepsSorted(s, task); }
      }
      match Assign(config, rest, task.room, task.name, task.user, today)
      case Err(e) => (Err(e), rest)
      case Ok(p) => (Ok(p.0), p.1)
  }

  lemma CompleteUnfold(config: Config, s: seq<Task>, task: Task, today: Dates.Date)
    requires task in s
    ensures var rest := PyList.Remove(s, task).value;
      var a := Assign(config, rest, task.room, task.name, task.user, today);
      Complete(config, s, task, today) == if a.Ok? then (Ok(a.value.0), a.value.1) else (Err(a.error), rest)
  {
  }

  /**
   * The outcome of _complete_indefinite_task and the list it leaves: increment, and when the
   * counter has passed the chore's repetitions, reset that entry for the next user of the
   * chore's list. The chore is looked up under the name of the entry increment bumped.
   */
  function CompleteIndefinite(config: Config, s: seq<IndefiniteTask>, name: string)
    : (r: (Result<()>, seq<IndefiniteTask>))
    ensures s == [] ==> r == (Err(UnboundLocalError), s)
    ensures |r.1| == |s|
    ensures forall k :: 0 <= k < |s| ==> r.1[k].name == s[k].name && r.1[k].totalReps == s[k].totalReps
    ensures s != [] ==>
      var i := IndefiniteStore.IncrementIndex(s, name);
      var t := s[i];
      && (forall k :: 0 <= k < |s| && k != i ==> r.1[k] == s[k])
      && (t.rep + 1 <= t.totalReps ==> r.0 == Ok(()) && r.1[i] == IndefiniteStore.Bumped(t))
      && (t.rep + 1 > t.totalReps ==>
            match Get(config.indefiniteTasks, t.name)
            case Err(_) => r == (Err(KeyError), s[i := IndefiniteStore.Bumped(t)])
            case Ok(d) =>
              match NextUser(d.users, t.user)
              case Err(_) => r == (Err(ValueError), s[i := IndefiniteStore.Bumped(t)])
              case Ok(u) => r.0 == Ok(()) && r.1[i].rep == 1 && r.1[i].user == u)
    ensures r.0.Ok? && AllRepsInRange(s) ==> AllRepsInRange(r.1)
  {
    if s == [] then (Err(UnboundLocalError), s)
    else
      var i := IndefiniteStore.IncrementIndex(s, name);
      var bumped := s[i := IndefiniteStore.Bumped(s[i])];
      var t := bumped[i];
      if t.rep > t.totalReps then
        match Get(config.indefiniteTasks, t.name)
        case Err(e) => (Err(e), bumped)
        case Ok(d) =>
          match NextUser(d.users, t.user)
          case Err(e) => (Err(e), bumped)
          case Ok(u) => (Ok(()), bumped[i := bumped[i].(rep := 1, user := u)])
      else (Ok(()), bumped)
  }

  // ---------------------------------------------------------------- the manager

  /** _TaskManager without its widgets: the configuration and the two stores. */
  class TaskManager {
    const config: Config
    const assignedTasks: TaskStore.Tasks
    const indefiniteTasks: IndefiniteStore.IndefiniteTasks

    ghost predicate Valid()
      reads this, assignedTasks, indefiniteTasks
    {
      ConfigValid(config) && assignedTasks.Valid() && indefiniteTasks.Valid()
    }

    constructor Of(config: Config, assignedTasks: TaskStore.Tasks, indefiniteTasks: IndefiniteStore.IndefiniteTasks)
      ensures this.config == config && this.assignedTasks == assignedTasks && this.indefiniteTasks == indefiniteTasks
    {
      this.config := config;
      this.assignedTasks := assignedTasks;
      this.indefiniteTasks := indefiniteTasks;
    }

    /**
     * _load_yaml and _initiate_tasks: open the dated store (ValueError for a stored date
     * that does not parse), seed it when empty, then open and seed the indefinite store.
     */
    static method Start(config: Config, tasksFile: StoredFile<seq<TaskStore.TaskRecord>>,
                        indefiniteFile: StoredFile<seq<IndefiniteTask>>, today: Dates.Date)
      returns (r: Result<TaskManager>)
      requires ConfigValid(config)
      ensures TaskStore.Load(tasksFile).Err? ==> r == Err(TaskStore.Load(tasksFile).error)
      ensures r.Ok? ==> && fresh(r.value.assignedTasks) && fresh(r.value.indefiniteTasks)
                        && r.value.config == config && r.value.Valid()
      ensures r.Ok? && TaskStore.Load(tasksFile) == Ok([]) ==> SeededStore(config, today) == Ok(r.value.assignedTasks.contents)
      ensures r.Ok? && IndefiniteStore.Load(indefiniteFile) == [] ==> SeededIndefinite(config) == Ok(r.value.indefiniteTasks.contents)
      ensures r.Ok? && TaskStore.Load(tasksFile).Ok? && TaskStore.Load(tasksFile).value != [] ==>
        r.value.assignedTasks.contents == TaskStore.Load(tasksFile).value
      ensures r.Ok? && IndefiniteStore.Load(indefiniteFile) != [] ==>
        r.value.indefiniteTasks.contents == IndefiniteStore.Load(indefiniteFile)
      ensures r.Ok? <==> && TaskStore.Load(tasksFile).Ok?
                         && (TaskStore.Load(tasksFile).value == [] ==> SeededStore(config, today).Ok?)
                         && (IndefiniteStore.Load(indefiniteFile) == [] ==> SeededIndefinite(config).Ok?)
      ensures TaskStore.Load(tasksFile).Ok? && TaskStore.Load(tasksFile).value == [] && SeededStore(config, today).Err? ==>
        r == Err(SeededStore(config, today).error)
      ensures && TaskStore.Load(tasksFile).Ok?
              && (TaskStore.Load(tasksFile).value == [] ==> SeededStore(config, today).Ok?)
              && IndefiniteStore.Load(indefiniteFile) == [] && SeededIndefinite(config).Err? ==>
        r == Err(SeededIndefinite(config).error)
    {
      var openResult := TaskStore.Tasks.Open(tasksFile);
      if openResult.Err? {
        return Err(openResult.error);
      }
      var assignedTasks := openResult.value;
      var seeded := SeedAssigned(config, assignedTasks, today);
      if seeded.Err? {
        return Err(seeded.error);
      }
      var indefiniteTasks := new IndefiniteStore.IndefiniteTasks.Open(indefiniteFile);
      var more := SeedIndefinite(config, indefiniteTasks);
      if more.Err? {
        return Err(more.error);
      }
      var m := new TaskManager.Of(config, assignedTasks, indefiniteTasks);
      r := Ok(m);
    }

    /** _assign_task, with the chore's period text passed to new_task as its fifth argument. */
    method AssignTask(roomName: string, taskName: string, current: string, today: Dates.Date)
      returns (r: Result<string>)
      modifies assignedTasks
      ensures var n := NextTask(config, roomName, taskName, current, today);
        && (n.Err? ==> r == Err(n.error)
                       && assignedTasks.contents == old(assignedTasks.contents) && assignedTasks.file == old(assignedTasks.file))
        && (n.Ok? ==> && r == Ok(n.value.user)
                      && multiset(assignedTasks.contents) == multiset(old(assignedTasks.contents)) + multiset{n.value}
                      && assignedTasks.Persisted() && assignedTasks.Valid())
      ensures r.Ok? && TaskStore.Sorted(old(assignedTasks.contents)) ==>
        (r.value, assignedTasks.contents) == Assign(config, old(assignedTasks.contents), roomName, taskName, current, today).value
    {
      ghost var before := assignedTasks.contents;
      r := AssignInto(config, assignedTasks, roomName, taskName, current, today);
      if r.Ok? {
        AssignUnfold(config, before, roomName, taskName, current, today);
      }
    }

    /** _complete_task: remove a task, then hand its chore to the next user. */
    method CompleteTask(task: Task, today: Dates.Date) returns (r: Result<string>)
      modifies assignedTasks
      ensures task !in old(assignedTasks.contents) ==>
        (r == Err(ValueError)
         && assignedTasks.contents == old(assignedTasks.contents) && assignedTasks.file == old(assignedTasks.file))
      ensures task in old(assignedTasks.contents) ==> assignedTasks.Persisted() && assignedTasks.Valid()
      ensures TaskStore.Sorted(old(assignedTasks.contents)) ==>
        (r, assignedTasks.contents) == Complete(config, old(assignedTasks.contents), task, today)
      ensures r.Ok? ==> var n := NextTask(config, task.room, task.name, task.user, today);
        && n.Ok? && r.value == n.value.user
        && multiset(assignedTasks.contents) == multiset(old(assignedTasks.contents)) - multiset{task} + multiset{n.value}
    {
      var removed := assignedTasks.Remove(task);
      if removed.Err? {
        return Err(removed.error);
      }
      ghost var before := old(assignedTasks.contents);
      ghost var rest := assignedTasks.contents;
      assert TaskStore.Sorted(before) ==> TaskStore.Sorted(rest) by {
        if TaskStore.Sorted(before) { TaskStore.RemoveKeepsSorted(before, task); }
      }
      CompleteUnfold(config, before, task, today);
      r := AssignTask(task.room, task.name, task.user, today);
    }

    /**
     * _complete_indefinite_task: one repetition of the named chore is done; past its last
     * repetition the chore starts over with the next user of its list.
     */
    method CompleteIndefiniteTask(name: string) returns (r: Result<()>)
      modifies indefiniteTasks
      ensures (r, indefiniteTasks.contents) == CompleteIndefinite(config, old(indefiniteTasks.contents), name)
      ensures old(indefiniteTasks.contents) == [] ==>
        indefiniteTasks.contents == old(indefiniteTasks.contents) && indefiniteTasks.file == old(indefiniteTasks.file)
      ensures old(indefiniteTasks.contents) != [] ==> indefiniteTasks.Persisted() && indefiniteTasks.Valid()
    {
      var inc := indefiniteTasks.Increment(name);
      if inc.Err? {
        return Err(inc.error);
      }
      var i := inc.value.0;
      var task := inc.value.1;
      if task.rep > task.totalReps {
        var d := Get(config.indefiniteTasks, task.name);
        if d.Err? {
          return Err(d.error);
        }
        var u := NextUser(d.value.users, task.user);
        if u.Err? {
          return Err(u.error);
        }
        var _ := indefiniteTasks.Reset(i, u.value);
      }
      r := Ok(());
    }
  }
}
