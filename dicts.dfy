/**
 * Python's dict with string keys: a key-to-value map that also remembers the order in which
 * its keys were first inserted. YAML mappings of the configuration are read into such dicts,
 * iteration follows that order, and the user ledger is one that persists itself.
 */
module Dicts {
  import opened Errors
  import PyList

  predicate Distinct<T(==)>(s: seq<T>) {
    forall i, j :: 0 <= i < j < |s| ==> s[i] != s[j]
  }

  /** keys: the keys in insertion order; entries: what each key maps to. */
  datatype Dict<V> = Dict(keys: seq<string>, entries: map<string, V>)

  /** The shape every Python dict has: each key listed once, and exactly the keys of the map. */
  ghost predicate Valid<V>(d: Dict<V>) {
    Distinct(d.keys) && forall k :: k in d.entries <==> k in d.keys
  }

  function Empty<V>(): (d: Dict<V>)
    ensures Valid(d) && d.keys == []
  {
    Dict([], map[])
  }

  /** d[k]: the value of k; KeyError when k is absent. */
  function Get<V>(d: Dict<V>, k: string): (r: Result<V>)
    ensures r.Ok? <==> k in d.entries
    ensures r.Ok? ==> r.value == d.entries[k]
    ensures r.Err? ==> r.error == KeyError
  {
    if k in d.entries then Ok(d.entries[k]) else Err(KeyError)
  }

  /** d[k] = v: an existing key keeps its place in the order, a new one goes last. */
  function Set<V>(d: Dict<V>, k: string, v: V): (r: Dict<V>)
    requires Valid(d)
    ensures Valid(r) && r.entries == d.entries[k := v]
    ensures r.keys == if k in d.keys then d.keys else d.keys + [k]
  {
    if k in d.entries then Dict(d.keys, d.entries[k := v]) else Dict(d.keys + [k], d.entries[k := v])
  }

  /** Dropping position i of a list without repetitions leaves exactly the other elements, once each. */
  lemma DropDistinct<T>(s: seq<T>, i: nat)
    requires Distinct(s) && i < |s|
    ensures var t := s[..i] + s[i + 1..];
      Distinct(t) && forall x :: x in t <==> x in s && x != s[i]
  {
    var t := s[..i] + s[i + 1..];
    forall a, b | 0 <= a < b < |t| ensures t[a] != t[b] {
      assert t[a] == s[if a < i then a else a + 1] && t[b] == s[if b < i then b else b + 1];
    }
    forall x ensures x in t <==> x in s && x != s[i] {
      if x in t {
        var j :| 0 <= j < |t| && t[j] == x;
        assert x == s[if j < i then j else j + 1];
      }
      if x in s && x != s[i] {
        var j :| 0 <= j < |s| && s[j] == x;
        assert x == t[if j < i then j else j - 1];
      }
    }
  }

  /** Dropping the i-th key and its entry leaves a well-formed dict with one key fewer. */
  lemma DropKey<V>(d: Dict<V>, i: nat)
    requires Valid(d) && i < |d.keys|
    ensures var r := Dict(d.keys[..i] + d.keys[i + 1..], d.entries - {d.keys[i]});
      Valid(r) && multiset(r.keys) == multiset(d.keys) - multiset{d.keys[i]}
  {
    DropDistinct(d.keys, i);
    assert d.keys == d.keys[..i] + [d.keys[i]] + d.keys[i + 1..];
  }

  /** del d[k]: KeyError when k is absent. */
  function Delete<V>(d: Dict<V>, k: string): (r: Result<Dict<V>>)
    requires Valid(d)
    ensures r.Ok? <==> k in d.entries
    ensures r.Err? ==> r.error == KeyError
    ensures r.Ok? ==> (Valid(r.value) && r.value.entries == d.entries - {k}
                       && multiset(r.value.keys) == multiset(d.keys) - multiset{k})
    ensures r.Ok? ==> var i := PyList.Index(d.keys, k).value;
      r.value.keys == d.keys[..i] + d.keys[i + 1..]
  {
    match PyList.Index(d.keys, k)
    case Ok(i) =>
      DropKey(d, i);
      Ok(Dict(d.keys[..i] + d.keys[i + 1..], d.entries - {k}))
    case Err(_) => Err(KeyError)
  }

  /**
   * d.pop(k, default): the value of k, removing it, or the default when k is absent
   * (None stands for Python's None, the default's default).
   */
  function Pop<V>(d: Dict<V>, k: string, default: Option<V>): (r: (Option<V>, Dict<V>))
    requires Valid(d)
    ensures Valid(r.1) && r.1.entries == d.entries - {k}
    ensures r.0 == if k in d.entries then Some(d.entries[k]) else default
    ensures k !in d.entries ==> r.1 == d
    ensures k in d.entries ==> var i := PyList.Index(d.keys, k).value;
      r.1.keys == d.keys[..i] + d.keys[i + 1..]
  {
    match Delete(d, k)
    case Ok(rest) => (Some(d.entries[k]), rest)
    case Err(_) => assert d.entries - {k} == d.entries; (default, d)
  }

  /** d.popitem(): removes and returns the most recently inserted entry; KeyError when empty. */
  function PopItem<V>(d: Dict<V>): (r: Result<((string, V), Dict<V>)>)
    requires Valid(d)
    ensures r.Ok? <==> d.keys != []
    ensures r.Err? ==> r.error == KeyError
    ensures r.Ok? ==> var k := d.keys[|d.keys| - 1];
      r.value.0 == (k, d.entries[k]) && Valid(r.value.1)
      && r.value.1.keys == d.keys[..|d.keys| - 1] && r.value.1.entries == d.entries - {k}
  {
    if d.keys == [] then Err(KeyError)
    else
      var k := d.keys[|d.keys| - 1];
      var rest := Dict(d.keys[..|d.keys| - 1], d.entries - {k});
      assert forall x :: x in rest.keys <==> x in d.keys && x != k by {
        assert d.keys == rest.keys + [k];
      }
      Ok(((k, d.entries[k]), rest))
  }

  /** The entries of keys ks, in the order of ks: what d.items() enumerates. */
  function ItemsOf<V>(ks: seq<string>, m: map<string, V>): (r: seq<(string, V)>)
    requires forall k :: k in ks ==> k in m
    ensures |r| == |ks| && forall i :: 0 <= i < |ks| ==> r[i] == (ks[i], m[ks[i]])
  {
    if ks == [] then [] else ItemsOf(ks[..|ks| - 1], m) + [(ks[|ks| - 1], m[ks[|ks| - 1]])]
  }

  function Items<V>(d: Dict<V>): (r: seq<(string, V)>)
    requires Valid(d)
    ensures |r| == |d.keys| && forall i :: 0 <= i < |r| ==> r[i] == (d.keys[i], d.entries[d.keys[i]])
  {
    ItemsOf(d.keys, d.entries)
  }

  /** d.update(pairs): every pair assigned in turn, as d[k] = v; dict(pairs) starts from Empty(). */
  function Update<V>(d: Dict<V>, ps: seq<(string, V)>): (r: Dict<V>)
    requires Valid(d)
    ensures Valid(r)
    ensures |d.keys| <= |r.keys| && r.keys[..|d.keys|] == d.keys
    ensures forall k :: k in d.entries ==> k in r.entries
    ensures ps != [] ==> ps[|ps| - 1].0 in r.entries && r.entries[ps[|ps| - 1].0] == ps[|ps| - 1].1
    decreases |ps|
  {
    if ps == [] then d
    else Set(Update(d, ps[..|ps| - 1]), ps[|ps| - 1].0, ps[|ps| - 1].1)
  }

  /** The keys that a list of pairs names. */
  function Names<V>(ps: seq<(string, V)>): (ks: set<string>)
    ensures forall j :: 0 <= j < |ps| ==> ps[j].0 in ks
    ensures forall k :: k in ks ==> exists j :: 0 <= j < |ps| && ps[j].0 == k
  {
    set j | 0 <= j < |ps| :: ps[j].0
  }

  lemma NamesSnoc<V>(ps: seq<(string, V)>)
    requires ps != []
    ensures Names(ps) == Names(ps[..|ps| - 1]) + {ps[|ps| - 1].0}
  {
    var init := ps[..|ps| - 1];
    forall k | k in Names(ps) ensures k in Names(init) + {ps[|ps| - 1].0} {
      var j :| 0 <= j < |ps| && ps[j].0 == k;
      if j < |init| { assert init[j].0 == k; }
    }
    forall k | k in Names(init) ensures k in Names(ps) {
      var j :| 0 <= j < |init| && init[j].0 == k;
      assert ps[j].0 == k;
    }
  }

  /** One more pair assigns its key in the dict the earlier pairs built. */
  lemma UpdateSnoc<V>(d: Dict<V>, ps: seq<(string, V)>)
    requires Valid(d) && ps != []
    ensures var last := ps[|ps| - 1];
      Update(d, ps).entries == Update(d, ps[..|ps| - 1]).entries[last.0 := last.1]
  {
    var r0 := Update(d, ps[..|ps| - 1]);
    assert Update(d, ps) == Set(r0, ps[|ps| - 1].0, ps[|ps| - 1].1);
  }

  /** After d.update(ps), the keys are those of d and those the pairs name, and no others. */
  lemma {:induction false} UpdateKeys<V>(d: Dict<V>, ps: seq<(string, V)>)
    requires Valid(d)
    ensures Update(d, ps).entries.Keys == d.entries.Keys + Names(ps)
    decreases |ps|
  {
    if ps != [] {
      UpdateKeys(d, ps[..|ps| - 1]);
      UpdateSnoc(d, ps);
      NamesSnoc(ps);
    }
  }

  /** A pair that no later pair overrides decides its key's value. */
  lemma {:induction false} UpdateLastWinsAt<V>(d: Dict<V>, ps: seq<(string, V)>, j: nat)
    requires Valid(d) && j < |ps| && forall j' :: j < j' < |ps| ==> ps[j'].0 != ps[j].0
    ensures ps[j].0 in Update(d, ps).entries && Update(d, ps).entries[ps[j].0] == ps[j].1
    decreases |ps|
  {
    UpdateSnoc(d, ps);
    var init := ps[..|ps| - 1];
    if j < |init| {
      assert init[j] == ps[j] && ps[|ps| - 1].0 != ps[j].0;
      forall j' | j < j' < |init| ensures init[j'].0 != init[j].0 {
        assert init[j'] == ps[j'];
      }
      UpdateLastWinsAt(d, init, j);
    }
  }

  /** A key of the pairs maps to the value of the last pair that names it. */
  lemma UpdateLastWins<V>(d: Dict<V>, ps: seq<(string, V)>)
    requires Valid(d)
    ensures forall j :: 0 <= j < |ps| && (forall j' :: j < j' < |ps| ==> ps[j'].0 != ps[j].0) ==>
      ps[j].0 in Update(d, ps).entries && Update(d, ps).entries[ps[j].0] == ps[j].1
  {
    forall j | 0 <= j < |ps| && (forall j' :: j < j' < |ps| ==> ps[j'].0 != ps[j].0)
      ensures ps[j].0 in Update(d, ps).entries && Update(d, ps).entries[ps[j].0] == ps[j].1
    {
      UpdateLastWinsAt(d, ps, j);
    }
  }

  /** A key of d that no pair names keeps its value. */
  lemma {:induction false} UpdateUntouchedAt<V>(d: Dict<V>, ps: seq<(string, V)>, k: string)
    requires Valid(d) && k in d.entries && forall j :: 0 <= j < |ps| ==> ps[j].0 != k
    ensures k in Update(d, ps).entries && Update(d, ps).entries[k] == d.entries[k]
    decreases |ps|
  {
    if ps != [] {
      UpdateSnoc(d, ps);
      var init := ps[..|ps| - 1];
      assert ps[|ps| - 1].0 != k;
      forall j | 0 <= j < |init| ensures init[j].0 != k {
        assert init[j] == ps[j];
      }
      UpdateUntouchedAt(d, init, k);
    }
  }

  lemma UpdateUntouched<V>(d: Dict<V>, ps: seq<(string, V)>)
    requires Valid(d)
    ensures forall k :: k in d.entries && (forall j :: 0 <= j < |ps| ==> ps[j].0 != k) ==>
      k in Update(d, ps).entries && Update(d, ps).entries[k] == d.entries[k]
  {
    forall k | k in d.entries && (forall j :: 0 <= j < |ps| ==> ps[j].0 != k)
      ensures k in Update(d, ps).entries && Update(d, ps).entries[k] == d.entries[k]
    {
      UpdateUntouchedAt(d, ps, k);
    }
  }

  function Restrict<V>(m: map<string, V>, ks: seq<string>): map<string, V> {
    map k | k in m && k in ks :: m[k]
  }

  /** Building a dict from its own items gives the same dict back, order included. */
  lemma {:induction false} UpdateWithItemsOf<V>(ks: seq<string>, m: map<string, V>)
    requires Distinct(ks) && forall k :: k in ks ==> k in m
    ensures Update(Empty(), ItemsOf(ks, m)) == Dict(ks, Restrict(m, ks))
    decreases |ks|
  {
    if ks != [] {
      var init, k := ks[..|ks| - 1], ks[|ks| - 1];
      var ps := ItemsOf(ks, m);
      assert ps[..|ps| - 1] == ItemsOf(init, m) && ps[|ps| - 1] == (k, m[k]);
      assert Distinct(init) && k !in init by {
        assert ks == init + [k];
      }
      UpdateWithItemsOf(init, m);
      var before := Dict(init, Restrict(m, init));
      assert Update(Empty(), ps) == Set(before, k, m[k]);
      var after := Set(before, k, m[k]);
      assert after.keys == ks;
      RestrictSnoc(m, init, k);
      assert after.entries == Restrict(m, ks);
    }
  }

  /** Restricting to one more key adds that key's entry. */
  lemma RestrictSnoc<V>(m: map<string, V>, ks: seq<string>, k: string)
    requires k in m
    ensures Restrict(m, ks)[k := m[k]] == Restrict(m, ks + [k])
  {
  }

  lemma ItemsRoundTrip<V>(d: Dict<V>)
    requires Valid(d)
    ensures Update(Empty(), Items(d)) == d
  {
    UpdateWithItemsOf(d.keys, d.entries);
    assert Restrict(d.entries, d.keys) == d.entries;
  }

  lemma {:induction false} DistinctCard<T>(s: seq<T>)
    requires Distinct(s)
    ensures |set x | x in s| == |s|
    decreases |s|
  {
    if s != [] {
      var init, last := s[..|s| - 1], s[|s| - 1];
      assert s == init + [last];
      DistinctCard(init);
      assert (set x | x in s) == (set x | x in init) + {last};
      assert last !in init;
    }
  }

  /** len(d) is the number of keys in the order. */
  lemma SizeOfValid<V>(d: Dict<V>)
    requires Valid(d)
    ensures |d.entries| == |d.keys|
  {
    DistinctCard(d.keys);
    assert d.entries.Keys == set x | x in d.keys;
  }

  /** The sum of the values at keys ks. */
  function SumOf(ks: seq<string>, m: map<string, int>): int
    requires forall k :: k in ks ==> k in m
  {
    if ks == [] then 0 else SumOf(ks[..|ks| - 1], m) + m[ks[|ks| - 1]]
  }

  function Total(d: Dict<int>): int
    requires Valid(d)
  {
    SumOf(d.keys, d.entries)
  }

  /** Adding delta at one listed key adds delta to the sum. */
  lemma {:induction false} SumOfAdd(ks: seq<string>, m: map<string, int>, k: string, delta: int)
    requires Distinct(ks) && k in ks && forall x :: x in ks ==> x in m
    ensures SumOf(ks, m[k := m[k] + delta]) == SumOf(ks, m) + delta
    decreases |ks|
  {
    var init, last := ks[..|ks| - 1], ks[|ks| - 1];
    var m' := m[k := m[k] + delta];
    if last == k {
      assert k !in init;
      SumOfUnchanged(init, m, m');
    } else {
      assert k in init by { assert ks == init + [last]; }
      SumOfAdd(init, m, k, delta);
    }
  }

  lemma {:induction false} SumOfUnchanged(ks: seq<string>, m: map<string, int>, m': map<string, int>)
    requires forall x :: x in ks ==> x in m && x in m' && m[x] == m'[x]
    ensures SumOf(ks, m) == SumOf(ks, m')
    decreases |ks|
  {
    if ks != [] { SumOfUnchanged(ks[..|ks| - 1], m, m'); }
  }
}
