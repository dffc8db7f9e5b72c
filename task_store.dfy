/**
 * Assigned room tasks and the list that persists them (Task and Tasks). The list writes its
 * whole contents to its backing file after every mutating call; a task's due date is written
 * as its YYYY-MM-DD text and parsed back when the file is loaded.
 */
module TaskStore {
  import opened Errors
  import opened Storage
  import Dates
  import PyList

  /** An assigned chore: who holds it, where, what, when it is due and its period text. */
  datatype Task = Task(user: string, room: string, name: string, due: Dates.Date, period: string)

  /** task < other: tasks are ordered by due date alone, whatever their other fields. */
  predicate Less(a: Task, b: Task) { a.due < b.due }

  /** Non-decreasing by due date. */
  predicate Sorted(s: seq<Task>) {
    forall i, j :: 0 <= i < j < |s| ==> s[i].due <= s[j].due
  }

  /** new_task(user, room, name, due_date, period): a task holding exactly the given fields. */
  function NewTask(user: string, room: string, name: string, due: Dates.Date, period: string): (t: Task)
    ensures t.user == user && t.room == room && t.name == name && t.due == due && t.period == period
  {
    Task(user, room, name, due, period)
  }

  /** The JSON object that _save writes for a task: its fields, with the date as str(date). */
  datatype TaskRecord = TaskRecord(user: string, room: string, name: string, dueDate: string, period: string)

  function Encode(t: Task): (r: TaskRecord)
    ensures Dates.Parse(r.dueDate) == Ok(t.due)
  {
    Dates.ParseFormat(t.due);
    TaskRecord(t.user, t.room, t.name, Dates.Format(t.due), t.period)
  }

  /** _Task(record): the record's fields, with due_date read by strptime('%Y-%m-%d'). */
  function Decode(r: TaskRecord): (t: Result<Task>)
    ensures t.Ok? <==> Dates.Parse(r.dueDate).Ok?
    ensures t.Err? ==> t.error == ValueError
    ensures t.Ok? ==> Encode(t.value) == r
  {
    match Dates.Parse(r.dueDate)
    case Ok(d) =>
      Dates.FormatParse(r.dueDate, d);
      Ok(Task(r.user, r.room, r.name, d, r.period))
    case Err(e) => Err(e)
  }

  function EncodeAll(ts: seq<Task>): (rs: seq<TaskRecord>)
    ensures |rs| == |ts| && forall i :: 0 <= i < |ts| ==> rs[i] == Encode(ts[i])
  {
    if ts == [] then [] else [Encode(ts[0])] + EncodeAll(ts[1..])
  }

  /** json.load with the _Task hook: the first record whose date does not parse raises. */
  function DecodeAll(rs: seq<TaskRecord>): (r: Result<seq<Task>>)
    ensures r.Ok? <==> forall i :: 0 <= i < |rs| ==> Decode(rs[i]).Ok?
  {
    if rs == [] then Ok([])
    else match Decode(rs[0])
      case Err(e) => Err(e)
      case Ok(t) =>
        match DecodeAll(rs[1..])
        case Err(e) => Err(e)
        case Ok(ts) => Ok([t] + ts)
  }

  /** Tasks._load: no file, or a file that is not JSON, loads as the empty list. */
  function Load(f: StoredFile<seq<TaskRecord>>): (r: Result<seq<Task>>)
    ensures (f.Missing? || f.Corrupt?) ==> r == Ok([])
    ensures f.Saved? ==> r == DecodeAll(f.content)
  {
    match f
    case Missing => Ok([])
    case Corrupt => Ok([])
    case Saved(rs) => DecodeAll(rs)
  }

  /** Loading what _save wrote gives back the same tasks, in the same order. */
  lemma {:induction false} LoadEncoded(ts: seq<Task>)
    ensures Load(Saved(EncodeAll(ts))) == Ok(ts)
  {
    if ts != [] {
      LoadEncoded(ts[1..]);
      assert EncodeAll(ts)[1..] == EncodeAll(ts[1..]);
      assert [ts[0]] + ts[1..] == ts;
    }
  }

  /** And whatever records load successfully are exactly what _save writes for their tasks. */
  lemma {:induction false} LoadedRecordsAreEncoded(rs: seq<TaskRecord>, ts: seq<Task>)
    requires Load(Saved(rs)) == Ok(ts)
    ensures EncodeAll(ts) == rs
  {
    if rs != [] {
      var t := Decode(rs[0]).value;
      var rest := DecodeAll(rs[1..]).value;
      LoadedRecordsAreEncoded(rs[1..], rest);
      assert ts == [t] + rest;
      assert ts[1..] == rest;
      assert rs == [rs[0]] + rs[1..];
    }
  }

  /** A store of assigned tasks that writes itself to its file after every change. */
  class Tasks {
    var contents: seq<Task>
    var file: StoredFile<seq<TaskRecord>>

    /** The file holds exactly what _save writes for the current contents. */
    ghost predicate Persisted()
      reads this
    {
      file == Saved(EncodeAll(contents))
    }

    /** Memory agrees with the file: loading the file would give the current contents. */
    ghost predicate Valid()
      reads this
    {
      Load(file) == Ok(contents)
    }

    constructor Loaded(file: StoredFile<seq<TaskRecord>>, contents: seq<Task>)
      requires Load(file) == Ok(contents)
      ensures this.file == file && this.contents == contents && Valid()
    {
      this.file := file;
      this.contents := contents;
    }

    /** Tasks(filename): the contents of the file; a record with a bad date raises ValueError. */
    static method Open(file: StoredFile<seq<TaskRecord>>) returns (r: Result<Tasks>)
      ensures Load(file).Err? ==> r == Err(Load(file).error)
      ensures Load(file).Ok? ==> r.Ok? && fresh(r.value) && r.value.file == file
                                 && r.value.contents == Load(file).value && r.value.Valid()
    {
      var loaded := Load(file);
      if loaded.Err? {
        r := Err(loaded.error);
      } else {
        var store := new Tasks.Loaded(file, loaded.value);
        r := Ok(store);
      }
    }

    /** _save: overwrite the file with the whole list. */
    method Save()
      modifies this
      ensures contents == old(contents) && Persisted() && Valid()
    {
      file := Saved(EncodeAll(contents));
      LoadEncoded(contents);
    }

    /** tasks[i] = v */
    method SetItem(i: int, v: Task) returns (r: Result<()>)
      modifies this
      ensures var s := PyList.SetItem(old(contents), i, v);
        && (s.Err? ==> r == Err(s.error) && contents == old(contents) && file == old(file))
        && (s.Ok? ==> r == Ok(()) && contents == s.value && Persisted() && Valid())
    {
      match PyList.SetItem(contents, i, v)
      case Err(e) => r := Err(e);
      case Ok(s) =>
        contents := s;
        Save();
        r := Ok(());
    }

    method Append(v: Task)
      modifies this
      ensures contents == old(contents) + [v] && Persisted() && Valid()
    {
      contents := contents + [v];
      Save();
    }

    method Extend(vs: seq<Task>)
      modifies this
      ensures contents == old(contents) + vs && Persisted() && Valid()
    {
      contents := contents + vs;
      Save();
    }

    method Insert(i: int, v: Task)
      modifies this
      ensures contents == PyList.Insert(old(contents), i, v) && Persisted() && Valid()
    {
      contents := PyList.Insert(contents, i, v);
      Save();
    }

    /** Removes the first task equal to v; ValueError, and no write, when there is none. */
    method Remove(v: Task) returns (r: Result<()>)
      modifies this
      ensures var s := PyList.Remove(old(contents), v);
        && (s.Err? ==> r == Err(s.error) && contents == old(contents) && file == old(file))
        && (s.Ok? ==> r == Ok(()) && contents == s.value && Persisted() && Valid())
    {
      match PyList.Remove(contents, v)
      case Err(e) => r := Err(e);
      case Ok(s) =>
        contents := s;
        Save();
        r := Ok(());
    }

    /** tasks.pop(i) (Python's default i is -1): the removed task. */
    method Pop(i: int) returns (r: Result<Task>)
      modifies this
      ensures var s := PyList.Pop(old(contents), i);
        && (s.Err? ==> r == Err(s.error) && contents == old(contents) && file == old(file))
        && (s.Ok? ==> r == Ok(s.value.0) && contents == s.value.1 && Persisted() && Valid())
    {
      match PyList.Pop(contents, i)
      case Err(e) => r := Err(e);
      case Ok(p) =>
        contents := p.1;
        Save();
        r := Ok(p.0);
    }

    method Clear()
      modifies this
      ensures contents == [] && Persisted() && Valid()
    {
      contents := [];
      Save();
    }
  }

  /**
   * The list bisect.insort(s, x) makes of a sorted s: x after every task due on or before
   * x's due date and before every task due later.
   */
  function InsertSorted(s: seq<Task>, x: Task): (r: seq<Task>)
    ensures |r| == |s| + 1
  {
    if s == [] then [x]
    else if Less(x, s[0]) then [x] + s
    else
      assert s == [s[0]] + s[1..];
      [s[0]] + InsertSorted(s[1..], x)
  }

  /** Insertion adds x and keeps everything else: a permutation of s with x. */
  lemma {:induction false} InsertSortedMultiset(s: seq<Task>, x: Task)
    ensures multiset(InsertSorted(s, x)) == multiset(s) + multiset{x}
    decreases |s|
  {
    if s != [] && !Less(x, s[0]) {
      InsertSortedMultiset(s[1..], x);
      assert s == [s[0]] + s[1..];
    }
  }

  /** The first position whose task is due after x, or the length when there is none. */
  function UpperBound(s: seq<Task>, x: Task): (k: nat)
    ensures k <= |s| && forall i :: 0 <= i < k ==> s[i].due <= x.due
    ensures k < |s| ==> x.due < s[k].due
  {
    if s == [] then 0 else if Less(x, s[0]) then 0 else 1 + UpperBound(s[1..], x)
  }

  /**
   * In a sorted list, insort places x after every task due on or before x's due date (those
   * with an equal date included) and before every task due later.
   */
  lemma InsertSortedSplit(s: seq<Task>, x: Task)
    requires Sorted(s)
    ensures var k := UpperBound(s, x);
      && InsertSorted(s, x) == s[..k] + [x] + s[k..]
      && (forall i :: 0 <= i < k ==> s[i].due <= x.due)
      && (forall i :: k <= i < |s| ==> x.due < s[i].due)
  {
    SplitIsInsertSorted(s, x, UpperBound(s, x));
  }

  /** Inserting into a sorted list keeps it sorted. */
  lemma InsertSortedSorted(s: seq<Task>, x: Task)
    requires Sorted(s)
    ensures Sorted(InsertSorted(s, x))
  {
    InsertSortedSplit(s, x);
    SplitSorted(s, x, UpperBound(s, x));
  }

  /** Putting x between the tasks due no later and the tasks due later keeps a list sorted. */
  lemma SplitSorted(s: seq<Task>, x: Task, k: nat)
    requires Sorted(s) && k <= |s|
    requires forall i :: 0 <= i < k ==> s[i].due <= x.due
    requires forall i :: k <= i < |s| ==> x.due < s[i].due
    ensures Sorted(s[..k] + [x] + s[k..])
  {
    var r := s[..k] + [x] + s[k..];
    assert forall i :: 0 <= i < |r| ==> r[i] == if i < k then s[i] else if i == k then x else s[i - 1];
  }

  /** Splitting a sorted list at a position that separates "not after x" from "after x" is insort. */
  lemma {:induction false} SplitIsInsertSorted(s: seq<Task>, x: Task, k: nat)
    requires k <= |s|
    requires forall i :: 0 <= i < k ==> s[i].due <= x.due
    requires forall i :: k <= i < |s| ==> x.due < s[i].due
    ensures s[..k] + [x] + s[k..] == InsertSorted(s, x)
  {
    if s != [] && k > 0 {
      var t := s[1..];
      assert t[..k - 1] + [x] + t[k - 1..] == InsertSorted(t, x) by {
        assert forall i :: 0 <= i < |t| ==> t[i] == s[i + 1];
        SplitIsInsertSorted(t, x, k - 1);
      }
      assert InsertSorted(s, x) == [s[0]] + InsertSorted(t, x) by {
        assert s[0].due <= x.due;
      }
      assert s[..k] + [x] + s[k..] == [s[0]] + (t[..k - 1] + [x] + t[k - 1..]) by {
        assert s[..k] == [s[0]] + t[..k - 1] && s[k..] == t[k - 1..];
      }
    } else if s != [] {
      assert InsertSorted(s, x) == [x] + s by {
        assert x.due < s[0].due;
      }
      assert s[..k] + [x] + s[k..] == [x] + s;
    }
  }

  /** bisect_right by due date: the binary search bisect.insort runs before it inserts. */
  method BisectRight(s: seq<Task>, x: Task) returns (lo: nat)
    ensures lo <= |s|
    ensures Sorted(s) ==> s[..lo] + [x] + s[lo..] == InsertSorted(s, x)
  {
    lo := 0;
    var hi := |s|;
    while lo < hi
      invariant 0 <= lo <= hi <= |s|
      invariant Sorted(s) ==> forall i :: 0 <= i < lo ==> s[i].due <= x.due
      invariant Sorted(s) ==> forall i :: hi <= i < |s| ==> x.due < s[i].due
    {
      var mid := (lo + hi) / 2;
      if Less(x, s[mid]) {
        hi := mid;
      } else {
        lo := mid + 1;
      }
    }
    if Sorted(s) {
      SplitIsInsertSorted(s, x, lo);
    }
  }

  /**
   * bisect.insort(store, x): the bisect position, then the store's own insert, which writes
   * the file. A store that is not sorted still gets x at some position.
   */
  method Insort(store: Tasks, x: Task)
    modifies store
    ensures multiset(store.contents) == multiset(old(store.contents)) + multiset{x}
    ensures Sorted(old(store.contents)) ==> store.contents == InsertSorted(old(store.contents), x)
    ensures store.Persisted() && store.Valid()
  {
    var lo := BisectRight(store.contents, x);
    store.Insert(lo, x);
  }

  /** Removing one element from a sorted list leaves it sorted. */
  lemma RemoveKeepsSorted(s: seq<Task>, v: Task)
    requires Sorted(s) && v in s
    ensures Sorted(PyList.Remove(s, v).value)
  {
    var k := PyList.Index(s, v).value;
    var r := PyList.Remove(s, v).value;
    forall i, j | 0 <= i < j < |r| ensures r[i].due <= r[j].due {
      assert r[i] == s[if i < k then i else i + 1] && r[j] == s[if j < k then j else j + 1];
    }
  }

  /** The list a run of insorts makes: each of ts inserted in turn, the first one first. */
  function InsertAll(s: seq<Task>, ts: seq<Task>): (r: seq<Task>)
    ensures |r| == |s| + |ts| && multiset(r) == multiset(s) + multiset(ts)
    ensures Sorted(s) ==> Sorted(r)
    decreases |ts|
  {
    if ts == [] then s
    else
      var init := InsertAll(s, ts[..|ts| - 1]);
      assert ts == ts[..|ts| - 1] + [ts[|ts| - 1]];
      assert Sorted(s) ==> Sorted(InsertSorted(init, ts[|ts| - 1])) by {
        if Sorted(s) { InsertSortedSorted(init, ts[|ts| - 1]); }
      }
      InsertSortedMultiset(init, ts[|ts| - 1]);
      InsertSorted(init, ts[|ts| - 1])
  }

  lemma InsertAllStep(s: seq<Task>, ts: seq<Task>, t: Task)
    ensures InsertAll(s, ts + [t]) == InsertSorted(InsertAll(s, ts), t)
  {
    assert (ts + [t])[..|ts|] == ts;
  }
}
