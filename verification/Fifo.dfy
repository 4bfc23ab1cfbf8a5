/** The disk queue as a first-in first-out sequence with oldest-first eviction. */
module Fifo {
  import opened Numbers

  function Sum<D>(q: seq<D>, size: D -> nat): nat
  {
    if q == [] then 0 else size(q[0]) + Sum(q[1..], size)
  }

  /** How many of the oldest items `enforceLimit` removes when the directory also holds
      `other` bytes that it counts but never removes. */
  function EvictCount<D>(q: seq<D>, size: D -> nat, other: nat, limit: int): (k: nat)
    ensures k <= |q|
  {
    if q == [] || other + Sum(q, size) <= limit then 0
    else 1 + EvictCount(q[1..], size, other, limit)
  }

  function Survivors<D>(q: seq<D>, size: D -> nat, other: nat, limit: int): seq<D>
  {
    q[EvictCount(q, size, other, limit)..]
  }

  /** Room is made before the new item is written, so the new item itself is not counted. */
  function Enqueue<D>(q: seq<D>, d: D, size: D -> nat, other: nat, limit: int): seq<D>
  {
    Survivors(q, size, other, limit) + [d]
  }

  // ----- sums

  lemma {:induction false} SumAppend<D>(a: seq<D>, b: seq<D>, size: D -> nat)
    ensures Sum(a + b, size) == Sum(a, size) + Sum(b, size)
  {
    if a == [] {
      assert a + b == b;
    } else {
      assert (a + b)[1..] == a[1..] + b;
      SumAppend(a[1..], b, size);
    }
  }

  lemma SumSplit<D>(q: seq<D>, k: nat, size: D -> nat)
    requires k <= |q|
    ensures Sum(q, size) == Sum(q[..k], size) + Sum(q[k..], size)
  {
    assert q == q[..k] + q[k..];
    SumAppend(q[..k], q[k..], size);
  }

  // ----- eviction

  /** Dropping the first `j` items does not yet bring the total within the limit. */
  predicate Over<D>(q: seq<D>, size: D -> nat, other: nat, limit: int, j: nat)
    requires j <= |q|
  {
    other + Sum(q[j..], size) > limit
  }

  /** `k` is the length of the shortest sufficient prefix, or all there is when none suffices. */
  ghost predicate Shortest<D>(q: seq<D>, size: D -> nat, other: nat, limit: int, k: nat)
    requires k <= |q|
  {
    AllOver(q, size, other, limit, k) && (k == |q| || !Over(q, size, other, limit, k))
  }

  ghost predicate AllOver<D>(q: seq<D>, size: D -> nat, other: nat, limit: int, k: nat)
    requires k <= |q|
  {
    forall j | 0 <= j < k :: Over(q, size, other, limit, j)
  }

  lemma AllOverNext<D>(q: seq<D>, size: D -> nat, other: nat, limit: int, k: nat)
    requires k < |q| && AllOver(q, size, other, limit, k) && Over(q, size, other, limit, k)
    ensures AllOver(q, size, other, limit, k + 1)
  {
  }

  lemma EvictCountShortest<D>(q: seq<D>, size: D -> nat, other: nat, limit: int, k: nat)
    requires k <= |q|
    ensures k == EvictCount(q, size, other, limit) <==> Shortest(q, size, other, limit, k)
  {
    EvictCountIsShortest(q, size, other, limit);
  }

  lemma {:induction false} EvictCountIsShortest<D>(q: seq<D>, size: D -> nat, other: nat, limit: int)
    ensures Shortest(q, size, other, limit, EvictCount(q, size, other, limit))
  {
    assert q[0..] == q;
    if q != [] && other + Sum(q, size) > limit {
      EvictCountIsShortest(q[1..], size, other, limit);
      forall j | 1 <= j <= |q|
        ensures Over(q[1..], size, other, limit, j - 1) == Over(q, size, other, limit, j)
      {
        assert q[1..][j - 1..] == q[j..];
      }
    }
  }

  lemma EvictNothing<D>(q: seq<D>, size: D -> nat, other: nat, limit: int)
    ensures EvictCount(q, size, other, limit) == 0 <==> q == [] || other + Sum(q, size) <= limit
  {
  }

  /** When the entries that cannot be removed already exceed the limit, everything else goes. */
  lemma {:induction false} EvictAll<D>(q: seq<D>, size: D -> nat, other: nat, limit: int)
    requires other > limit
    ensures Survivors(q, size, other, limit) == []
  {
    if q != [] {
      EvictAll(q[1..], size, other, limit);
      assert q[1..][EvictCount(q[1..], size, other, limit)..] == q[EvictCount(q, size, other, limit)..];
    }
  }

  lemma SurvivorsFit<D>(q: seq<D>, size: D -> nat, other: nat, limit: int)
    ensures Survivors(q, size, other, limit) == [] ||
            other + Sum(Survivors(q, size, other, limit), size) <= limit
  {
    EvictCountShortest(q, size, other, limit, EvictCount(q, size, other, limit));
  }

  // ----- runs of queue operations

  datatype Op<D> = Enq(data: D) | Deq

  function Apply<D>(q: seq<D>, op: Op<D>, size: D -> nat, other: nat, limit: int): seq<D>
  {
    match op
    case Enq(d) => Enqueue(q, d, size, other, limit)
    case Deq => if q == [] then q else q[1..]
  }

  function Run<D>(q: seq<D>, ops: seq<Op<D>>, size: D -> nat, other: nat, limit: int): seq<D>
    decreases |ops|
  {
    if ops == [] then q
    else Apply(Run(q, ops[..|ops| - 1], size, other, limit), ops[|ops| - 1], size, other, limit)
  }

  /** The size of the largest item ever enqueued by `ops`. */
  function Largest<D>(ops: seq<Op<D>>, size: D -> nat): nat
    decreases |ops|
  {
    if ops == [] then 0
    else
      var rest := Largest(ops[..|ops| - 1], size);
      match ops[|ops| - 1]
      case Enq(d) => Max(rest, size(d))
      case Deq => rest
  }

  /** A run that starts at most `c` bytes above the limit ends with at most the limit plus
      the larger of `c` and the largest item enqueued. */
  lemma {:induction false} BytesBounded<D>(q: seq<D>, ops: seq<Op<D>>, size: D -> nat, other: nat, limit: int, c: nat)
    requires Sum(q, size) <= Max(0, limit) + c
    ensures Sum(Run(q, ops, size, other, limit), size) <= Max(0, limit) + Max(c, Largest(ops, size))
    decreases |ops|
  {
    if ops != [] {
      var front := ops[..|ops| - 1];
      var before := Run(q, front, size, other, limit);
      BytesBounded(q, front, size, other, limit, c);
      match ops[|ops| - 1]
      case Enq(d) =>
        SurvivorsFit(before, size, other, limit);
        SumAppend(Survivors(before, size, other, limit), [d], size);
        assert Sum([d], size) == size(d) + Sum([d][1..], size);
      case Deq =>
    }
  }

  /** The bound is met: a queue filled to the limit accepts one more item of any size. */
  lemma BytesBoundMet<D>(q: seq<D>, d: D, size: D -> nat, limit: nat)
    requires Sum(q, size) == limit
    ensures Sum(Run(q, [Enq(d)], size, 0, limit), size) == limit + Largest([Enq(d)], size)
  {
    var ops: seq<Op<D>> := [Enq(d)];
    assert ops[..0] == [];
    assert Run(q, ops[..0], size, 0, limit) == q;
    assert q[0..] == q;
    assert Run(q, ops, size, 0, limit) == q + [d];
    SumAppend(q, [d], size);
    assert Sum([d], size) == size(d) + Sum([d][1..], size);
  }
}
