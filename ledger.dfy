/**
 * The user ledger: a dict from user name to a surplus/deficit score that rewrites its JSON
 * file after every change (UserTable), and the Users wrapper that moves a point from one user
 * to another when a chore is done on someone else's behalf.
 */
module Ledger {
  import opened Errors
  import opened Storage
  import opened Dicts

  /** A well-formed dict of scores, as json.load returns one for a JSON object. */
  type Scores = d: Dict<int> | Dicts.Valid(d) witness Dict([], map[])

  /** The file holds the dict as a JSON object; reading it back gives that dict. */
  type ScoreFile = StoredFile<Scores>

  /** _Users._load: the object read back as a dict; no file or bad JSON is the empty dict. */
  function Load(f: ScoreFile): (d: Dict<int>)
    ensures Dicts.Valid(d)
    ensures (f.Missing? || f.Corrupt?) ==> d == Empty()
    ensures f.Saved? ==> d == f.content
  {
    match f
    case Saved(d) => d
    case _ => Empty()
  }

  /** The scores after up_and_down(up, down): KeyError unless both users are listed. */
  function UpAndDownScores(d: Dict<int>, up: string, down: string): (r: Result<Dict<int>>)
    requires Dicts.Valid(d)
    ensures r.Ok? <==> up in d.entries && down in d.entries
    ensures r.Err? ==> r.error == KeyError
    ensures r.Ok? ==>
      && Dicts.Valid(r.value) && r.value.keys == d.keys
      && (forall u :: u in r.value.entries <==> u in d.entries)
      && (forall u :: u in d.entries ==>
            r.value.entries[u] == d.entries[u] + (if u == up then 1 else 0) - (if u == down then 1 else 0))
      && Total(r.value) == Total(d)
  {
    if up !in d.entries || down !in d.entries then Err(KeyError)
    else
      var d1 := Set(d, up, d.entries[up] + 1);
      SumOfAdd(d.keys, d.entries, up, 1);
      var d2 := Set(d1, down, d1.entries[down] - 1);
      SumOfAdd(d1.keys, d1.entries, down, -1);
      Ok(d2)
  }

  /** The two assignments up_and_down makes, one after the other. */
  lemma UpAndDownSteps(d: Dict<int>, up: string, down: string)
    requires Dicts.Valid(d) && up in d.entries && down in d.entries
    ensures var d1 := Set(d, up, d.entries[up] + 1);
      UpAndDownScores(d, up, down) == Ok(Set(d1, down, d1.entries[down] - 1))
  {
  }

  /** A point given and taken from the same user changes nothing. */
  lemma UpAndDownSelf(d: Dict<int>, u: string)
    requires Dicts.Valid(d) && u in d.entries
    ensures UpAndDownScores(d, u, u) == Ok(d)
  {
    var r := UpAndDownScores(d, u, u).value;
    assert r.entries == d.entries;
  }

  /** initiate_user(u): u's score becomes 0, so the total loses whatever u had. */
  lemma InitiateTotal(d: Dict<int>, u: string)
    requires Dicts.Valid(d)
    ensures Total(Set(d, u, 0)) == Total(d) - (if u in d.entries then d.entries[u] else 0)
  {
    if u in d.entries {
      SumOfAdd(d.keys, d.entries, u, -d.entries[u]);
    } else {
      var r := Set(d, u, 0);
      assert r.keys[..|r.keys| - 1] == d.keys;
      SumOfUnchanged(d.keys, d.entries, r.entries);
    }
  }

  /** _Users: a dict of scores that writes itself to its file after each change. */
  class UserTable {
    var dict: Dict<int>
    var file: ScoreFile

    ghost predicate Persisted()
      reads this
    {
      Dicts.Valid(dict) && file.Saved? && file.content == dict
    }

    /** Memory agrees with the file: loading it would give the current dict. */
    ghost predicate Valid()
      reads this
    {
      Dicts.Valid(dict) && Load(file) == dict
    }

    constructor Open(file: ScoreFile)
      ensures this.file == file && dict == Load(file) && Valid()
    {
      this.file := file;
      dict := Load(file);
    }

    method Save()
      requires Dicts.Valid(dict)
      modifies this
      ensures dict == old(dict) && Persisted() && Valid()
    {
      file := Saved(dict);
    }

    /** self[k] (not overridden): KeyError when absent. */
    function GetItem(k: string): (r: Result<int>)
      reads this
      ensures r.Ok? <==> k in dict.entries
      ensures r.Ok? ==> r.value == dict.entries[k]
    {
      Get(dict, k)
    }

    method SetItem(k: string, v: int)
      requires Valid()
      modifies this
      ensures dict == Set(old(dict), k, v) && Persisted() && Valid()
    {
      dict := Set(dict, k, v);
      Save();
    }

    method DelItem(k: string) returns (r: Result<()>)
      requires Valid()
      modifies this
      ensures var s := Delete(old(dict), k);
        && (s.Err? ==> r == Err(KeyError) && dict == old(dict) && file == old(file))
        && (s.Ok? ==> r == Ok(()) && dict == s.value && Persisted())
      ensures Valid()
    {
      match Delete(dict, k)
      case Err(e) => r := Err(e);
      case Ok(d) =>
        dict := d;
        Save();
        r := Ok(());
    }

    method UpdateWith(ps: seq<(string, int)>)
      requires Valid()
      modifies this
      ensures dict == Update(old(dict), ps) && Persisted() && Valid()
    {
      dict := Update(dict, ps);
      Save();
    }

    method Clear()
      modifies this
      ensures dict == Empty() && Persisted() && Valid()
    {
      dict := Empty();
      Save();
    }

    /** pop(key, default=None): never raises, and writes the file even when the key was absent. */
    method Pop(k: string, default: Option<int>) returns (v: Option<int>)
      requires Valid()
      modifies this
      ensures v == Dicts.Pop(old(dict), k, default).0 && dict == Dicts.Pop(old(dict), k, default).1
      ensures Persisted() && Valid()
    {
      var p := Dicts.Pop(dict, k, default);
      dict := p.1;
      Save();
      v := p.0;
    }

    /** popitem(): the newest entry; KeyError on an empty dict, before anything is written. */
    method PopItem() returns (r: Result<(string, int)>)
      requires Valid()
      modifies this
      ensures var s := Dicts.PopItem(old(dict));
        && (s.Err? ==> r == Err(KeyError) && dict == old(dict) && file == old(file))
        && (s.Ok? ==> r == Ok(s.value.0) && dict == s.value.1 && Persisted())
      ensures Valid()
    {
      match Dicts.PopItem(dict)
      case Err(e) => r := Err(e);
      case Ok(p) =>
        dict := p.1;
        Save();
        r := Ok(p.0);
    }
  }

  /** Users: the score of every user, kept in a UserTable. */
  class Users {
    const table: UserTable

    ghost predicate Valid()
      reads this, table
    {
      table.Valid()
    }

    constructor Open(file: ScoreFile)
      ensures fresh(table) && table.file == file && table.dict == Load(file) && Valid()
    {
      table := new UserTable.Open(file);
    }

    /**
     * up_and_down(up, down): up gains a point and down loses one. Both users are looked up
     * before either score changes, so a KeyError leaves the ledger and its file as they were.
     */
    method UpAndDown(up: string, down: string) returns (r: Result<()>)
      requires Valid()
      modifies table
      ensures Valid()
      ensures up !in old(table.dict.entries) || down !in old(table.dict.entries) ==>
        r == Err(KeyError) && table.dict == old(table.dict) && table.file == old(table.file)
      ensures up in old(table.dict.entries) && down in old(table.dict.entries) ==>
        r == Ok(()) && table.dict == UpAndDownScores(old(table.dict), up, down).value && table.Persisted()
    {
      if up !in table.dict.entries || down !in table.dict.entries {
        return Err(KeyError);
      }
      ghost var d0 := table.dict;
      var upScore := table.dict.entries[up];
      table.SetItem(up, upScore + 1);
      ghost var d1 := table.dict;
      var downScore := table.dict.entries[down];
      assert downScore == d1.entries[down];
      table.SetItem(down, downScore - 1);
      UpAndDownSteps(d0, up, down);
      r := Ok(());
    }

    /** get_score(user): KeyError for a user never initiated. */
    function GetScore(user: string): (r: Result<int>)
      reads this, table
      ensures r.Ok? <==> user in table.dict.entries
      ensures r.Err? ==> r.error == KeyError
      ensures r.Ok? ==> r.value == table.dict.entries[user]
    {
      table.GetItem(user)
    }

    /** initiate_user(user): the user's score is set to zero, a new user going last. */
    method InitiateUser(user: string)
      requires Valid()
      modifies table
      ensures Valid() && table.dict == Set(old(table.dict), user, 0) && table.Persisted()
    {
      table.SetItem(user, 0);
    }

    /** size(): how many users are listed. */
    function Size(): (n: nat)
      reads this, table
      requires Valid()
      ensures n == |table.dict.keys|
    {
      SizeOfValid(table.dict);
      |table.dict.entries|
    }

    /** all(): every (user, score) pair, in the order the users were added. */
    function All(): (ps: seq<(string, int)>)
      reads this, table
      requires Valid()
      ensures |ps| == Size()
      ensures forall i :: 0 <= i < |ps| ==> ps[i] == (table.dict.keys[i], table.dict.entries[table.dict.keys[i]])
      ensures Update(Empty(), ps) == table.dict
    {
      ItemsRoundTrip(table.dict);
      Items(table.dict)
    }
  }
}
