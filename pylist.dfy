/**
 * The behaviour of Python's built-in list operations that the persistent stores inherit:
 * negative indices count from the end, insert clamps its position, remove and index look for
 * the first equal element, and a failed operation raises without changing the list.
 */
module PyList {
  import opened Errors

  /** A list index as Python reads it: -1 is the last element; None when out of range. */
  function Normalize(i: int, n: nat): (r: Option<nat>)
    ensures r.Some? <==> 0 <= i + n && i < n
    ensures r.Some? ==> r.value < n && r.value == (if i < 0 then i + n else i)
  {
    var j := if i < 0 then i + n else i;
    if 0 <= j < n then Some(j) else None
  }

  /** The position at which list.insert(i, x) places x in a list of length n. */
  function InsertPosition(i: int, n: nat): (p: nat)
    ensures p <= n
    ensures 0 <= i <= n ==> p == i
    ensures 0 <= i + n && i < 0 ==> p == i + n
    ensures i + n < 0 ==> p == 0
    ensures i > n ==> p == n
  {
    var j := if i < 0 then i + n else i;
    if j < 0 then 0 else if j > n then n else j
  }

  /** list.index(x): the first position holding x; ValueError when x is absent. */
  function Index<T(==)>(s: seq<T>, x: T): (r: Result<nat>)
    ensures r.Ok? <==> x in s
    ensures r.Err? ==> r.error == ValueError
    ensures r.Ok? ==> r.value < |s| && s[r.value] == x && x !in s[..r.value]
  {
    if s == [] then Err(ValueError)
    else if s[0] == x then Ok(0)
    else match Index(s[1..], x)
      case Ok(k) => assert s[..k + 1] == [s[0]] + s[1..][..k]; Ok(k + 1)
      case Err(e) => Err(e)
  }

  /** list[i] = v */
  function SetItem<T>(s: seq<T>, i: int, v: T): (r: Result<seq<T>>)
    ensures r.Ok? <==> -|s| <= i < |s|
    ensures r.Err? ==> r.error == IndexError
    ensures r.Ok? ==> var j := Normalize(i, |s|).value;
      |r.value| == |s| && r.value[j] == v
      && forall k :: 0 <= k < |s| && k != j ==> r.value[k] == s[k]
  {
    match Normalize(i, |s|)
    case Some(j) => Ok(s[j := v])
    case None => Err(IndexError)
  }

  /** list.insert(i, v) */
  function Insert<T>(s: seq<T>, i: int, v: T): (r: seq<T>)
    ensures var p := InsertPosition(i, |s|);
      |r| == |s| + 1 && r[p] == v && r[..p] == s[..p] && r[p + 1..] == s[p..]
    ensures multiset(r) == multiset(s) + multiset{v}
  {
    var p := InsertPosition(i, |s|);
    assert s == s[..p] + s[p..];
    s[..p] + [v] + s[p..]
  }

  /** list.remove(v): drops the first element equal to v; ValueError when there is none. */
  function Remove<T(==)>(s: seq<T>, v: T): (r: Result<seq<T>>)
    ensures r.Ok? <==> v in s
    ensures r.Err? ==> r.error == ValueError
    ensures r.Ok? ==> var k := Index(s, v).value;
      r.value == s[..k] + s[k + 1..] && |r.value| == |s| - 1
      && multiset(r.value) == multiset(s) - multiset{v}
  {
    match Index(s, v)
    case Ok(k) =>
      assert s == s[..k] + [s[k]] + s[k + 1..];
      Ok(s[..k] + s[k + 1..])
    case Err(e) => Err(e)
  }

  /** list.pop(i): the element at i and the list without it; IndexError when out of range. */
  function Pop<T>(s: seq<T>, i: int): (r: Result<(T, seq<T>)>)
    ensures r.Ok? <==> -|s| <= i < |s|
    ensures r.Err? ==> r.error == IndexError
    ensures r.Ok? ==> var j := Normalize(i, |s|).value;
      r.value.0 == s[j] && r.value.1 == s[..j] + s[j + 1..] && |r.value.1| == |s| - 1
      && multiset(r.value.1) + multiset{r.value.0} == multiset(s)
  {
    match Normalize(i, |s|)
    case Some(j) =>
      assert s == s[..j] + [s[j]] + s[j + 1..];
      Ok((s[j], s[..j] + s[j + 1..]))
    case None => Err(IndexError)
  }
}
