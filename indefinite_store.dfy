/**
 * Indefinite tasks, counted by repetitions instead of due dates, and the list that persists
 * them (IndefiniteTask and IndefiniteTasks). Besides the list mutators it offers increment,
 * which bumps one task's repetition count, and reset, which starts a task over with a new
 * holder; both write the file.
 */
module IndefiniteStore {
  import opened Errors
  import opened Storage
  import PyList
  import StrOrder

  /** A repetition-counted chore: its holder, its name, the current repetition and how many there are. */
  datatype IndefiniteTask = IndefiniteTask(user: string, name: string, rep: int, totalReps: int)

  /** The repetition counter is within [1, totalReps]. */
  predicate RepInRange(t: IndefiniteTask) { 1 <= t.rep <= t.totalReps }

  /** new_indefinite_task: a task at its first repetition. */
  function NewIndefiniteTask(user: string, name: string, totalReps: int): (t: IndefiniteTask)
    ensures t.user == user && t.name == name && t.totalReps == totalReps && t.rep == 1
    ensures RepInRange(t) <==> totalReps >= 1
  {
    IndefiniteTask(user, name, 1, totalReps)
  }

  /** task < other: indefinite tasks are ordered by name alone (Python's string order). */
  predicate Less(a: IndefiniteTask, b: IndefiniteTask) { StrOrder.Less(a.name, b.name) }

  /** Non-decreasing by name. */
  predicate Sorted(s: seq<IndefiniteTask>) {
    forall i, j :: 0 <= i < j < |s| ==> !Less(s[j], s[i])
  }

  /** IndefiniteTasks._load: the records are the tasks' own fields; no file or bad JSON is empty. */
  function Load(f: StoredFile<seq<IndefiniteTask>>): (r: seq<IndefiniteTask>)
    ensures (f.Missing? || f.Corrupt?) ==> r == []
    ensures f.Saved? ==> r == f.content
  {
    match f
    case Saved(ts) => ts
    case _ => []
  }

  /**
   * The entry increment(name) bumps: the first whose name matches, or, as the loop leaves
   * its variable at the last index when nothing matches, the last entry.
   */
  function IncrementIndex(s: seq<IndefiniteTask>, name: string): (i: nat)
    requires s != []
    ensures i < |s| && forall k :: 0 <= k < i ==> s[k].name != name
    ensures s[i].name == name || i == |s| - 1
    ensures (exists k :: 0 <= k < |s| && s[k].name == name) ==> s[i].name == name
  {
    if |s| == 1 || s[0].name == name then 0
    else
      var i := 1 + IncrementIndex(s[1..], name);
      assert forall k :: 1 <= k < |s| ==> s[k] == s[1..][k - 1];
      i
  }

  /** The same task one repetition further. */
  function Bumped(t: IndefiniteTask): (r: IndefiniteTask)
    ensures r.rep == t.rep + 1 && r.user == t.user && r.name == t.name && r.totalReps == t.totalReps
  {
    t.(rep := t.rep + 1)
  }

  /** A store of indefinite tasks that writes itself to its file after every change. */
  class IndefiniteTasks {
    var contents: seq<IndefiniteTask>
    var file: StoredFile<seq<IndefiniteTask>>

    ghost predicate Persisted()
      reads this
    {
      file == Saved(contents)
    }

    /** Memory agrees with the file: loading the file would give the current contents. */
    ghost predicate Valid()
      reads this
    {
      Load(file) == contents
    }

    /** IndefiniteTasks(filename): the stored tasks, or none when the file is missing or not JSON. */
    constructor Open(file: StoredFile<seq<IndefiniteTask>>)
      ensures this.file == file && contents == Load(file) && Valid()
    {
      this.file := file;
      contents := Load(file);
    }

    /** _save: overwrite the file with the whole list. */
    method Save()
      modifies this
      ensures contents == old(contents) && Persisted() && Valid()
    {
      file := Saved(contents);
    }

    method SetItem(i: int, v: IndefiniteTask) returns (r: Result<()>)
      modifies this
      ensures var s := PyList.SetItem(old(contents), i, v);
        && (s.Err? ==> r == Err(s.error) && contents == old(contents) && file == old(file))
        && (s.Ok? ==> r == Ok(()) && contents == s.value && Persisted())
    {
      match PyList.SetItem(contents, i, v)
      case Err(e) => r := Err(e);
      case Ok(s) =>
        contents := s;
        Save();
        r := Ok(());
    }

    method Append(v: IndefiniteTask)
      modifies this
      ensures contents == old(contents) + [v] && Persisted()
    {
      contents := contents + [v];
      Save();
    }

    method Extend(vs: seq<IndefiniteTask>)
      modifies this
      ensures contents == old(contents) + vs && Persisted()
    {
      contents := contents + vs;
      Save();
    }

    method Insert(i: int, v: IndefiniteTask)
      modifies this
      ensures contents == PyList.Insert(old(contents), i, v) && Persisted()
    {
      contents := PyList.Insert(contents, i, v);
      Save();
    }

    method Remove(v: IndefiniteTask) returns (r: Result<()>)
      modifies this
      ensures var s := PyList.Remove(old(contents), v);
        && (s.Err? ==> r == Err(s.error) && contents == old(contents) && file == old(file))
        && (s.Ok? ==> r == Ok(()) && contents == s.value && Persisted())
    {
      match PyList.Remove(contents, v)
      case Err(e) => r := Err(e);
      case Ok(s) =>
        contents := s;
        Save();
        r := Ok(());
    }

    method Pop(i: int) returns (r: Result<IndefiniteTask>)
      modifies this
      ensures var s := PyList.Pop(old(contents), i);
        && (s.Err? ==> r == Err(s.error) && contents == old(contents) && file == old(file))
        && (s.Ok? ==> r == Ok(s.value.0) && contents == s.value.1 && Persisted())
    {
      match PyList.Pop(contents, i)
      case Err(e) => r := Err(e);
      case Ok(p) =>
        contents := p.1;
        Save();
        r := Ok(p.0);
    }

    method Clear()
      modifies this
      ensures contents == [] && Persisted()
    {
      contents := [];
      Save();
    }

    /**
     * increment(name): scans for the first entry with that name, adds one to its repetition,
     * writes the file and returns the index and the updated entry. A name that is absent
     * bumps the last entry; an empty list raises UnboundLocalError and writes nothing.
     */
    method Increment(name: string) returns (r: Result<(nat, IndefiniteTask)>)
      modifies this
      ensures old(contents) == [] <==> r.Err?
      ensures r.Err? ==> r.error == UnboundLocalError && contents == old(contents) && file == old(file)
      ensures r.Ok? ==> var i := r.value.0;
        && i == IncrementIndex(old(contents), name)
        && contents == old(contents)[i := Bumped(old(contents)[i])]
        && r.value.1 == contents[i]
        && Persisted()
    {
      if contents == [] {
        return Err(UnboundLocalError);
      }
      var i := 0;
      while i < |contents| - 1 && contents[i].name != name
        invariant 0 <= i < |contents|
        invariant forall k :: 0 <= k < i ==> contents[k].name != name
      {
        i := i + 1;
      }
      contents := contents[i := Bumped(contents[i])];
      Save();
      r := Ok((i, contents[i]));
    }

    /**
     * reset(index, new_user): the entry at index (negative counts from the end) goes back to
     * repetition 1 with the new holder, keeping its name and total; IndexError when out of range.
     */
    method Reset(index: int, newUser: string) returns (r: Result<()>)
      modifies this
      ensures match PyList.Normalize(index, |old(contents)|)
        case None => r == Err(IndexError) && contents == old(contents) && file == old(file)
        case Some(j) =>
          && r == Ok(())
          && contents == old(contents)[j := old(contents)[j].(rep := 1, user := newUser)]
          && Persisted()
    {
      match PyList.Normalize(index, |contents|)
      case None => r := Err(IndexError);
      case Some(j) =>
        contents := contents[j := contents[j].(rep := 1)];
        contents := contents[j := contents[j].(user := newUser)];
        Save();
        r := Ok(());
    }
  }

  /** The list bisect.insort(s, x) makes of a sorted s: x after every name not after its own. */
  function InsertSorted(s: seq<IndefiniteTask>, x: IndefiniteTask): (r: seq<IndefiniteTask>)
    ensures |r| == |s| + 1
  {
    if s == [] then [x]
    else if Less(x, s[0]) then [x] + s
    else
      assert s == [s[0]] + s[1..];
      [s[0]] + InsertSorted(s[1..], x)
  }

  /** Insertion adds x and keeps everything else: a permutation of s with x. */
  lemma {:induction false} InsertSortedMultiset(s: seq<IndefiniteTask>, x: IndefiniteTask)
    ensures multiset(InsertSorted(s, x)) == multiset(s) + multiset{x}
    decreases |s|
  {
    if s != [] && !Less(x, s[0]) {
      InsertSortedMultiset(s[1..], x);
      assert s == [s[0]] + s[1..];
    }
  }

  /** The first position whose name is after x's, or the length when there is none. */
  function UpperBound(s: seq<IndefiniteTask>, x: IndefiniteTask): (k: nat)
    ensures k <= |s| && forall i :: 0 <= i < k ==> !Less(x, s[i])
    ensures k < |s| ==> Less(x, s[k])
  {
    if s == [] then 0 else if Less(x, s[0]) then 0 else 1 + UpperBound(s[1..], x)
  }

  lemma {:induction false} SplitIsInsertSorted(s: seq<IndefiniteTask>, x: IndefiniteTask, k: nat)
    requires k <= |s|
    requires forall i :: 0 <= i < k ==> !Less(x, s[i])
    requires forall i :: k <= i < |s| ==> Less(x, s[i])
    ensures s[..k] + [x] + s[k..] == InsertSorted(s, x)
  {
    if s != [] && k > 0 {
      var t := s[1..];
      assert t[..k - 1] + [x] + t[k - 1..] == InsertSorted(t, x) by {
        assert forall i :: 0 <= i < |t| ==> t[i] == s[i + 1];
        SplitIsInsertSorted(t, x, k - 1);
      }
      assert InsertSorted(s, x) == [s[0]] + InsertSorted(t, x) by {
        assert !Less(x, s[0]);
      }
      assert s[..k] + [x] + s[k..] == [s[0]] + (t[..k - 1] + [x] + t[k - 1..]) by {
        assert s[..k] == [s[0]] + t[..k - 1] && s[k..] == t[k - 1..];
      }
    } else if s != [] {
      assert InsertSorted(s, x) == [x] + s by {
        assert Less(x, s[0]);
      }
      assert s[..k] + [x] + s[k..] == [x] + s;
    }
  }

  /** In a sorted list everything from the insort position on is after x. */
  lemma AfterUpperBound(s: seq<IndefiniteTask>, x: IndefiniteTask)
    requires Sorted(s)
    ensures forall i :: UpperBound(s, x) <= i < |s| ==> Less(x, s[i])
  {
    var k := UpperBound(s, x);
    forall i | k <= i < |s| ensures Less(x, s[i]) {
      if i > k { StrOrder.LessNotLessTransitive(x.name, s[k].name, s[i].name); }
    }
  }

  /** Inserting into a sorted list by name keeps it sorted. */
  lemma InsertSortedSorted(s: seq<IndefiniteTask>, x: IndefiniteTask)
    requires Sorted(s)
    ensures Sorted(InsertSorted(s, x))
  {
    var k := UpperBound(s, x);
    AfterUpperBound(s, x);
    SplitIsInsertSorted(s, x, k);
    SplitSorted(s, x, k);
  }

  /** Putting x between the tasks not after it and the tasks after it keeps a list sorted. */
  lemma SplitSorted(s: seq<IndefiniteTask>, x: IndefiniteTask, k: nat)
    requires Sorted(s) && k <= |s|
    requires forall i :: 0 <= i < k ==> !Less(x, s[i])
    requires forall i :: k <= i < |s| ==> Less(x, s[i])
    ensures Sorted(s[..k] + [x] + s[k..])
  {
    var r := s[..k] + [x] + s[k..];
    assert forall i :: 0 <= i < |r| ==> r[i] == if i < k then s[i] else if i == k then x else s[i - 1];
    forall i, j | 0 <= i < j < |r| ensures !Less(r[j], r[i]) {
      if i == k {
        StrOrder.LessAsymmetric(x.name, s[j - 1].name);
      }
    }
  }

  /** bisect_right by name. */
  method BisectRight(s: seq<IndefiniteTask>, x: IndefiniteTask) returns (lo: nat)
    ensures lo <= |s|
    ensures Sorted(s) ==> s[..lo] + [x] + s[lo..] == InsertSorted(s, x)
  {
    lo := 0;
    var hi := |s|;
    while lo < hi
      invariant 0 <= lo <= hi <= |s|
      invariant Sorted(s) ==> forall i :: 0 <= i < lo ==> !Less(x, s[i])
      invariant Sorted(s) ==> forall i :: hi <= i < |s| ==> Less(x, s[i])
    {
      var mid := (lo + hi) / 2;
      if Less(x, s[mid]) {
        if Sorted(s) {
          forall i | mid < i < hi ensures Less(x, s[i]) {
            StrOrder.LessNotLessTransitive(x.name, s[mid].name, s[i].name);
          }
        }
        hi := mid;
      } else {
        if Sorted(s) {
          forall i | lo <= i < mid ensures !Less(x, s[i]) {
            StrOrder.NotLessTransitive(s[i].name, s[mid].name, x.name);
          }
        }
        lo := mid + 1;
      }
    }
    if Sorted(s) {
      SplitIsInsertSorted(s, x, lo);
    }
  }

  /** bisect.insort(store, x): the bisect position by name, then the store's own insert. */
  method Insort(store: IndefiniteTasks, x: IndefiniteTask)
    modifies store
    ensures multiset(store.contents) == multiset(old(store.contents)) + multiset{x}
    ensures Sorted(old(store.contents)) ==> store.contents == InsertSorted(old(store.contents), x)
    ensures store.Persisted()
  {
    var lo := BisectRight(store.contents, x);
    store.Insert(lo, x);
  }

  /** The list a run of insorts by name makes: each of ts inserted in turn, the first one first. */
  function InsertAll(s: seq<IndefiniteTask>, ts: seq<IndefiniteTask>): (r: seq<IndefiniteTask>)
    ensures |r| == |s| + |ts| && multiset(r) == multiset(s) + multiset(ts)
    ensures Sorted(s) ==> Sorted(r)
    decreases |ts|
  {
    if ts == [] then s
    else
      var init := InsertAll(s, ts[..|ts| - 1]);
      assert ts == ts[..|ts| - 1] + [ts[|ts| - 1]];
      assert Sorted(s) ==> Sorted(InsertSorted(init, ts[|ts| - 1])) by {
        if Sorted(s) { InsertSortedSorted(init, ts[|ts| - 1]); }
      }
      InsertSortedMultiset(init, ts[|ts| - 1]);
      InsertSorted(init, ts[|ts| - 1])
  }

  lemma InsertAllStep(s: seq<IndefiniteTask>, ts: seq<IndefiniteTask>, t: IndefiniteTask)
    ensures InsertAll(s, ts + [t]) == InsertSorted(InsertAll(s, ts), t)
  {
    assert (ts + [t])[..|ts|] == ts;
  }
}
