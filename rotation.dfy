/** Round-robin rotation of a chore among the users of its rotation list. */
module Rotation {
  import opened Errors
  import PyList
  import opened Dicts

  /**
   * The holder after current: the user at the next position of the list, wrapping from the
   * last position to the first. A current user who is not in the list raises ValueError.
   */
  function NextUser(users: seq<string>, current: string): (r: Result<string>)
    ensures r.Ok? <==> current in users
    ensures r.Err? ==> r.error == ValueError
    ensures r.Ok? && PyList.Index(users, current).value + 1 < |users| ==>
      r.value == users[PyList.Index(users, current).value + 1]
    ensures r.Ok? && PyList.Index(users, current).value + 1 == |users| ==> r.value == users[0]
  {
    match PyList.Index(users, current)
    case Err(e) => Err(e)
    case Ok(pos) =>
      var next := if pos + 1 >= |users| then 0 else pos + 1;
      Ok(users[next])
  }

  /** The wrap-around step is the same as users[(users.index(current) + 1) % len(users)]. */
  lemma NextUserIsMod(users: seq<string>, current: string)
    requires current in users
    ensures NextUser(users, current).value == users[(PyList.Index(users, current).value + 1) % |users|]
  {
    WrapIsMod(PyList.Index(users, current).value, |users|);
  }

  /** Stepping to the next position with a wrap at the end is adding one modulo the length. */
  lemma WrapIsMod(pos: nat, n: nat)
    requires pos < n
    ensures (if pos + 1 >= n then 0 else pos + 1) == (pos + 1) % n
  {
    if pos + 1 == n {
      assert (pos + 1) % n == n % n == 0;
    } else {
      assert (pos + 1) % n == pos + 1;
    }
  }

  /** The holder after k rotations starting from u. */
  function Advance(users: seq<string>, u: string, k: nat): (r: Result<string>)
    ensures r.Err? ==> r.error == ValueError
  {
    if k == 0 then Ok(u)
    else match Advance(users, u, k - 1)
      case Ok(v) => NextUser(users, v)
      case Err(e) => Err(e)
  }

  /** One more rotation is one more NextUser. */
  lemma AdvanceStep(users: seq<string>, u: string, k: nat)
    requires k > 0 && Advance(users, u, k - 1).Ok?
    ensures Advance(users, u, k) == NextUser(users, Advance(users, u, k - 1).value)
  {
  }

  /** One rotation from the first user of the list reaches users[1 mod n]. */
  lemma FirstRotation(users: seq<string>)
    requires users != []
    ensures Advance(users, users[0], 1) == Ok(users[1 % |users|])
  {
    assert PyList.Index(users, users[0]) == Ok(0);
    assert Advance(users, users[0], 1) == NextUser(users, users[0]);
    NextUserIsMod(users, users[0]);
  }

  /** The position after p in a list of n users: the next one, or the first after the last. */
  function Wrap(n: nat, p: nat): nat
  {
    if p + 1 < n then p + 1 else 0
  }

  /** The position reached from p after k wrap-around steps. */
  function StepN(n: nat, p: nat, k: nat): nat
  {
    if k == 0 then p else Wrap(n, StepN(n, p, k - 1))
  }

  /** Stepping from p < n stays among the n positions. */
  lemma {:induction false} StepNBound(n: nat, p: nat, k: nat)
    requires p < n
    ensures StepN(n, p, k) < n
  {
    if k > 0 { StepNBound(n, p, k - 1); }
  }

  /** In a list of distinct users, the one after position p is the one at Wrap(n, p). */
  lemma NextOfDistinct(users: seq<string>, p: nat)
    requires Distinct(users) && p < |users|
    ensures NextUser(users, users[p]) == Ok(users[Wrap(|users|, p)])
  {
    assert PyList.Index(users, users[p]) == Ok(p);
  }

  /** In a list of distinct users, k rotations from position p reach position StepN(n, p, k). */
  lemma {:induction false} AdvanceAt(users: seq<string>, p: nat, k: nat)
    requires Distinct(users) && p < |users|
    ensures StepN(|users|, p, k) < |users|
    ensures Advance(users, users[p], k) == Ok(users[StepN(|users|, p, k)])
  {
    StepNBound(|users|, p, k);
    if k > 0 {
      AdvanceAt(users, p, k - 1);
      var q := StepN(|users|, p, k - 1);
      NextOfDistinct(users, q);
      AdvanceStep(users, users[p], k);
    }
  }

  /** Steps that do not reach the end of the list move forward one position each. */
  lemma {:induction false} StepNWithin(n: nat, p: nat, k: nat)
    requires p + k < n
    ensures StepN(n, p, k) == p + k
  {
    if k > 0 { StepNWithin(n, p, k - 1); }
  }

  /** Taking a + b steps is taking a steps and then b more. */
  lemma {:induction false} StepNCompose(n: nat, p: nat, a: nat, b: nat)
    ensures StepN(n, p, a + b) == StepN(n, StepN(n, p, a), b)
    decreases b
  {
    if b > 0 { StepNCompose(n, p, a, b - 1); }
  }

  /** n steps from any of the n positions come back to it. */
  lemma StepNFull(n: nat, p: nat)
    requires p < n
    ensures StepN(n, p, n) == p
  {
    StepNWithin(n, p, n - 1 - p);
    assert StepN(n, p, n - p) == 0;
    StepNCompose(n, p, n - p, p);
    StepNWithin(n, 0, p);
  }

  /**
   * Round-robin closure: in a list of distinct users, rotating as many times as there are
   * users brings the chore back to its holder.
   */
  lemma RoundRobinClosure(users: seq<string>, u: string)
    requires Distinct(users) && u in users
    ensures Advance(users, u, |users|) == Ok(u)
  {
    var p := PyList.Index(users, u).value;
    AdvanceAt(users, p, |users|);
    StepNFull(|users|, p);
  }
}
