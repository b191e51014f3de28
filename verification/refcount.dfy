/** `refCount_t`: a live/dead counter. A positive count is live; at 0 or
    below the counter is dead and neither `Add` nor `Release` moves it. */
module RefCounter {

  const Int32Min: int := -0x8000_0000
  const Int32Max: int := 0x7FFF_FFFF

  /** An `int` on the host. */
  type int32 = x: int | Int32Min <= x <= Int32Max

  datatype RefCount = RefCount(count: int32)

  predicate IsFree(c: RefCount) {
    c.count <= 0
  }

  /** The constructor asserts a positive start. */
  function Create(count: int32): (c: RefCount)
    requires count > 0
    ensures !IsFree(c) && c.count == count
  {
    RefCount(count)
  }

  /** `Add` on a live counter increments it and returns the new count; on a
      dead one it returns 0 and changes nothing. Signed overflow is undefined
      behaviour, so the count must be below `INT_MAX`. */
  function Add(c: RefCount): (r: (int32, RefCount))
    requires c.count < Int32Max
    ensures IsFree(c) ==> r == (0, c)
    ensures !IsFree(c) ==> r.1.count == c.count + 1 && r.0 == r.1.count && !IsFree(r.1)
  {
    if c.count > 0 then (c.count + 1, RefCount(c.count + 1)) else (0, c)
  }

  /** `Release` on a live counter decrements it and returns the new count,
      which is never negative; on a dead one it returns 0 and changes nothing. */
  function Release(c: RefCount): (r: (int32, RefCount))
    ensures IsFree(c) ==> r == (0, c)
    ensures !IsFree(c) ==> r.1.count == c.count - 1 && r.0 == r.1.count && r.0 >= 0
    ensures IsFree(r.1) <==> c.count <= 1
  {
    if c.count > 0 then (c.count - 1, RefCount(c.count - 1)) else (0, c)
  }

  datatype Op = AddOp | ReleaseOp

  function Apply(c: RefCount, op: Op): (r: RefCount)
    requires op == AddOp ==> c.count < Int32Max
  {
    match op
    case AddOp => Add(c).1
    case ReleaseOp => Release(c).1
  }

  /** A sequence of calls on one counter. */
  function Run(c: RefCount, ops: seq<Op>): (r: RefCount)
    requires c.count + |ops| <= Int32Max
    decreases |ops|
  {
    if |ops| == 0 then c else Run(Apply(c, ops[0]), ops[1..])
  }

  /** Adds minus releases. */
  function Balance(ops: seq<Op>): int {
    if |ops| == 0 then 0 else (if ops[0] == AddOp then 1 else -1) + Balance(ops[1..])
  }

  /** A dead counter never revives. */
  lemma {:induction false} DeadStaysDead(c: RefCount, ops: seq<Op>)
    requires IsFree(c) && c.count + |ops| <= Int32Max
    ensures Run(c, ops) == c
    decreases |ops|
  {
    if |ops| > 0 {
      DeadStaysDead(Apply(c, ops[0]), ops[1..]);
    }
  }

  lemma {:induction false} BalanceOfPrefix(ops: seq<Op>, k: nat)
    requires 0 < |ops| && k < |ops|
    ensures Balance(ops[..k + 1]) == (if ops[0] == AddOp then 1 else -1) + Balance(ops[1..][..k])
  {
    assert ops[..k + 1][1..] == ops[1..][..k];
  }

  /** From a live start, the counter is dead exactly when at some point the
      releases have outnumbered the adds by the starting count; while it
      lives it holds the start plus adds minus releases. Starting from 1,
      it becomes free when releases first exceed adds by one. */
  lemma {:induction false} RunFromLive(c0: int32, ops: seq<Op>)
    requires 0 < c0 && c0 + |ops| <= Int32Max
    ensures IsFree(Run(RefCount(c0), ops)) <==>
              exists k :: 0 <= k <= |ops| && c0 + Balance(ops[..k]) == 0
    ensures !IsFree(Run(RefCount(c0), ops)) ==> Run(RefCount(c0), ops).count == c0 + Balance(ops)
    decreases |ops|
  {
    if |ops| == 0 {
      assert forall k :: 0 <= k <= |ops| ==> ops[..k] == [];
    } else {
      var d := if ops[0] == AddOp then 1 else -1;
      var c1 := Apply(RefCount(c0), ops[0]);
      assert c1.count == c0 + d;
      assert ops[..0] == [];
      if c1.count == 0 {
        DeadStaysDead(c1, ops[1..]);
        BalanceOfPrefix(ops, 0);
        assert ops[1..][..0] == [];
        assert c0 + Balance(ops[..1]) == 0;
      } else {
        RunFromLive(c1.count, ops[1..]);
        forall k | 0 <= k < |ops|
          ensures Balance(ops[..k + 1]) == d + Balance(ops[1..][..k])
        {
          BalanceOfPrefix(ops, k);
        }
        if exists k :: 0 <= k <= |ops| && c0 + Balance(ops[..k]) == 0 {
          var k :| 0 <= k <= |ops| && c0 + Balance(ops[..k]) == 0;
          assert k != 0;
          assert c1.count + Balance(ops[1..][..k - 1]) == 0;
        }
        if exists k :: 0 <= k <= |ops[1..]| && c1.count + Balance(ops[1..][..k]) == 0 {
          var k :| 0 <= k <= |ops[1..]| && c1.count + Balance(ops[1..][..k]) == 0;
          assert c0 + Balance(ops[..k + 1]) == 0;
        }
        assert ops[1..][..|ops| - 1] == ops[1..];
        assert ops[..|ops|] == ops;
      }
    }
  }
}
