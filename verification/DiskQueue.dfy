/** The disk-backed offline queue: one file per item, oldest file name first. */
module DiskQueues {
  import opened Options
  import opened FileNames
  import opened Directory
  import Fifo
  import opened Numbers

  // ----- the queue operations on directories

  ghost function EvictCount<D>(disk: Disk<D>, size: D -> nat, limit: int): (k: nat)
    ensures k <= |Names(disk)|
  {
    Fifo.EvictCount(Contents(disk), size, OtherBytes(disk, size), limit)
  }

  /** The directory after `enforceLimit`: the files of an oldest-first prefix are gone. */
  ghost function Evict<D>(disk: Disk<D>, size: D -> nat, limit: int): Disk<D>
  {
    disk - Elements(Names(disk)[..EvictCount(disk, size, limit)])
  }

  ghost predicate Blocked<D>(disk: Disk<D>, f: string)
  {
    f in disk && disk[f].Subdirectory?
  }

  /** Every queued file name is listed before `f`. */
  ghost predicate ListedLast<D>(disk: Disk<D>, f: string)
  {
    forall n :: n in GpiNames(disk) ==> Less(n, f)
  }

  ghost function Put<D>(disk: Disk<D>, f: string, d: D): Disk<D>
  {
    if Blocked(disk, f) then disk else disk[f := Regular(d)]
  }

  lemma NoBytesMoved<D>(before: Disk<D>, after: Disk<D>, size: D -> nat)
    requires before.Keys - GpiNames(before) == after.Keys - GpiNames(after)
    requires forall n :: n in before.Keys - GpiNames(before) ==> n in after && before[n] == after[n]
    ensures OtherBytes(before, size) == OtherBytes(after, size)
  {
    TotalFrame(before, after, before.Keys - GpiNames(before), size);
  }

  lemma RemoveGpi<D>(disk: Disk<D>, gone: set<string>, size: D -> nat)
    requires gone <= GpiNames(disk)
    ensures GpiNames(disk - gone) == GpiNames(disk) - gone
    ensures OtherBytes(disk - gone, size) == OtherBytes(disk, size)
  {
    assert GpiNames(disk - gone) == GpiNames(disk) - gone;
    NoBytesMoved(disk, disk - gone, size);
  }

  lemma PrefixIsGpi<D>(disk: Disk<D>, k: nat)
    requires k <= |Names(disk)|
    ensures Elements(Names(disk)[..k]) <= GpiNames(disk)
  {
  }

  /** Removing an oldest-first prefix of queued files removes a prefix of the contents and
      touches nothing else. */
  lemma RemovePrefix<D>(disk: Disk<D>, size: D -> nat, k: nat)
    requires k <= |Names(disk)|
    ensures Names(disk - Elements(Names(disk)[..k])) == Names(disk)[k..]
    ensures Contents(disk - Elements(Names(disk)[..k])) == Contents(disk)[k..]
    ensures OtherBytes(disk - Elements(Names(disk)[..k]), size) == OtherBytes(disk, size)
  {
    var gone := Elements(Names(disk)[..k]);
    PrefixIsGpi(disk, k);
    RemoveGpi(disk, gone, size);
    ListingDropPrefix(GpiNames(disk), k);
    assert forall n :: n in Names(disk - gone) ==> n in GpiNames(disk - gone);
    DataOfSuffix(disk, disk - gone, Names(disk), k);
  }

  lemma EvictKeepsSuffix<D>(disk: Disk<D>, size: D -> nat, limit: int)
    ensures Names(Evict(disk, size, limit)) == Names(disk)[EvictCount(disk, size, limit)..]
    ensures Contents(Evict(disk, size, limit)) ==
            Fifo.Survivors(Contents(disk), size, OtherBytes(disk, size), limit)
    ensures OtherBytes(Evict(disk, size, limit), size) == OtherBytes(disk, size)
    ensures GpiNames(Evict(disk, size, limit)) <= GpiNames(disk)
  {
    RemovePrefix(disk, size, EvictCount(disk, size, limit));
  }

  /** The directory total after `enforceLimit`: within the limit, or no queued file is left. */
  lemma EvictReachesLimit<D>(disk: Disk<D>, size: D -> nat, limit: int)
    ensures var after := Evict(disk, size, limit);
            Names(after) == [] || Total(after, after.Keys, size) <= limit
  {
    var after := Evict(disk, size, limit);
    EvictKeepsSuffix(disk, size, limit);
    TotalSplit(after, size);
    Fifo.SurvivorsFit(Contents(disk), size, OtherBytes(disk, size), limit);
  }

  lemma PutNames<D>(disk: Disk<D>, f: string, d: D, size: D -> nat)
    requires IsGpi(f) && !Blocked(disk, f)
    ensures GpiNames(Put(disk, f, d)) == GpiNames(disk) + {f}
    ensures OtherBytes(Put(disk, f, d), size) == OtherBytes(disk, size)
  {
    var after := Put(disk, f, d);
    assert GpiNames(after) == GpiNames(disk) + {f};
    NoBytesMoved(disk, after, size);
  }

  /** A written file becomes the last of the queue exactly when its name is listed last. */
  lemma PutAppends<D>(disk: Disk<D>, f: string, d: D, size: D -> nat)
    requires IsGpi(f) && !Blocked(disk, f)
    ensures Names(Put(disk, f, d)) == Names(disk) + [f] <==> ListedLast(disk, f)
    ensures ListedLast(disk, f) ==> Contents(Put(disk, f, d)) == Contents(disk) + [d]
  {
    PutNames(disk, f, d, size);
    ListingAppend(GpiNames(disk), f);
    if ListedLast(disk, f) {
      LessAsymmetric(f, f);
      assert f !in GpiNames(disk);
      DataOfAppend(disk, Put(disk, f, d), Names(disk), f, d);
    }
  }

  lemma PutInserts<D>(disk: Disk<D>, f: string, d: D, size: D -> nat) returns (i: nat)
    requires IsGpi(f) && f !in disk
    ensures i <= |Contents(disk)|
    ensures Contents(Put(disk, f, d)) == Contents(disk)[..i] + [d] + Contents(disk)[i..]
  {
    PutNames(disk, f, d, size);
    i := ListingInsert(GpiNames(disk), f);
    DataOfInsert(disk, Put(disk, f, d), Names(disk), i, f, d);
  }

  lemma PutIsQueued<D>(disk: Disk<D>, f: string, d: D, size: D -> nat)
    requires IsGpi(f)
    ensures !Blocked(disk, f) ==> d in Contents(Put(disk, f, d))
  {
    if !Blocked(disk, f) {
      PutNames(disk, f, d, size);
      DataInContents(Put(disk, f, d), f);
    }
  }

  lemma Replaced<D>(q: seq<D>, i: nat, d: D)
    requires i < |q|
    ensures multiset(q[i := d]) < multiset(q) + multiset{d}
  {
    assert multiset(q[i := d]) == multiset(q) - multiset{q[i]} + multiset{d};
    assert |multiset(q[i := d])| == |q|;
  }

  lemma OverwriteLoses<D>(disk: Disk<D>, f: string, d: D, size: D -> nat)
    requires IsGpi(f) && f in disk
    ensures multiset(Contents(Put(disk, f, d))) < multiset(Contents(disk)) + multiset{d}
  {
    hide IsGpi, Listing, StrictlySorted, OtherBytes;
    if Blocked(disk, f) {
      assert |multiset(Contents(disk)) + multiset{d}| == |Contents(disk)| + 1;
    } else {
      PutNames(disk, f, d, size);
      assert GpiNames(disk) + {f} == GpiNames(disk);
      assert f in Names(disk);
      var i :| 0 <= i < |Names(disk)| && Names(disk)[i] == f;
      ListingSorted(GpiNames(disk));
      SortedDistinct(Names(disk));
      DataOfReplace(disk, Names(disk), i, d);
      Replaced(Contents(disk), i, d);
    }
  }

  /** A written file adds its item and loses none exactly when its name was not yet taken;
      with a taken name the earlier item is lost (two items written in the same nanosecond), or
      the new one is (a subdirectory has that name). */
  lemma PutLosesNothing<D>(disk: Disk<D>, f: string, d: D, size: D -> nat)
    requires IsGpi(f)
    ensures multiset(Contents(Put(disk, f, d))) <= multiset(Contents(disk)) + multiset{d}
    ensures multiset(Contents(Put(disk, f, d))) == multiset(Contents(disk)) + multiset{d} <==> f !in disk
    ensures if Blocked(disk, f) then Put(disk, f, d) == disk else d in Contents(Put(disk, f, d))
  {
    PutIsQueued(disk, f, d, size);
    var q := Contents(disk);
    if f in disk {
      OverwriteLoses(disk, f, d, size);
    } else {
      var i := PutInserts(disk, f, d, size);
      assert q == q[..i] + q[i..];
    }
  }

  /** Making room and then writing a file whose name is listed last is `Fifo.Enqueue`. */
  lemma EnqueueRefines<D>(disk: Disk<D>, d: D, now: nat, size: D -> nat, limit: int)
    ensures Blocked(Evict(disk, size, limit), FileName(now)) == Blocked(disk, FileName(now))
    ensures !Blocked(disk, FileName(now)) && ListedLast(disk, FileName(now)) ==>
              Contents(Put(Evict(disk, size, limit), FileName(now), d)) ==
              Fifo.Enqueue(Contents(disk), d, size, OtherBytes(disk, size), limit)
  {
    hide Contents, OtherBytes;
    FileNameIsGpi(now);
    EvictKeepsSuffix(disk, size, limit);
    PrefixIsGpi(disk, EvictCount(disk, size, limit));
    if !Blocked(disk, FileName(now)) {
      PutAppends(Evict(disk, size, limit), FileName(now), d, size);
    }
  }

  // ----- timestamps and file names

  /** Clock readings whose file names are listed in the order of the readings. */
  ghost predicate GoodClock(clock: seq<nat>)
  {
    forall i, j :: 0 <= i < j < |clock| ==> ListedBefore(clock[i], clock[j])
  }

  /** Readings that increase and are printed with one number of digits are such a clock. */
  lemma IncreasingClockIsGood(clock: seq<nat>)
    requires forall i, j :: 0 <= i < j < |clock| ==> clock[i] < clock[j] && |Dec(clock[i])| == |Dec(clock[j])|
    ensures GoodClock(clock)
  {
  }

  /** From reading `i` on, no file name is taken and every queued file is listed earlier. */
  ghost predicate Ready<D>(disk: Disk<D>, clock: seq<nat>, i: nat)
  {
    forall j :: i <= j < |clock| ==> FileName(clock[j]) !in disk && ListedLast(disk, FileName(clock[j]))
  }

  /** A directory whose queued files carry timestamps that are listed before the clock's is ready. */
  lemma EarlierStampsAreReady<D>(disk: Disk<D>, clock: seq<nat>)
    requires forall j :: 0 <= j < |clock| ==> FileName(clock[j]) !in disk
    requires forall n, j :: n in GpiNames(disk) && 0 <= j < |clock| ==>
               exists t :: n == FileName(t) && ListedBefore(t, clock[j])
    ensures Ready(disk, clock, 0)
  {
    forall j, n | 0 <= j < |clock| && n in GpiNames(disk)
      ensures Less(n, FileName(clock[j]))
    {
      var t :| n == FileName(t) && ListedBefore(t, clock[j]);
      FileNameOrder(t, clock[j]);
    }
  }

  lemma ReadyAfterRemoval<D>(disk: Disk<D>, gone: set<string>, clock: seq<nat>, i: nat)
    requires Ready(disk, clock, i)
    ensures Ready(disk - gone, clock, i)
  {
    assert GpiNames(disk - gone) <= GpiNames(disk);
  }

  lemma ReadyAfterPut<D>(disk: Disk<D>, d: D, size: D -> nat, clock: seq<nat>, i: nat)
    requires GoodClock(clock) && i < |clock| && Ready(disk, clock, i)
    ensures Ready(Put(disk, FileName(clock[i]), d), clock, i + 1)
  {
    var f := FileName(clock[i]);
    FileNameIsGpi(clock[i]);
    PutNames(disk, f, d, size);
    forall j | i + 1 <= j < |clock|
      ensures Less(f, FileName(clock[j])) && FileName(clock[j]) != f
    {
      FileNameOrder(clock[i], clock[j]);
      LessAsymmetric(f, FileName(clock[j]));
    }
  }

  // ----- refinement of the first-in first-out sequence

  ghost function Apply<D>(disk: Disk<D>, op: Fifo.Op<D>, now: nat, size: D -> nat, limit: int): Disk<D>
  {
    match op
    case Enq(d) => Put(Evict(disk, size, limit), FileName(now), d)
    case Deq => if Names(disk) == [] then disk else disk - {Names(disk)[0]}
  }

  /** Operation `i` happens at clock reading `i`. */
  ghost function Run<D>(disk: Disk<D>, ops: seq<Fifo.Op<D>>, clock: seq<nat>, size: D -> nat, limit: int): Disk<D>
    requires |ops| <= |clock|
    decreases |ops|
  {
    if ops == [] then disk
    else
      var n := |ops| - 1;
      Apply(Run(disk, ops[..n], clock, size, limit), ops[n], clock[n], size, limit)
  }

  lemma RemoveFirst<D>(disk: Disk<D>, size: D -> nat)
    requires Names(disk) != []
    ensures Contents(disk - {Names(disk)[0]}) == Contents(disk)[1..]
    ensures Names(disk - {Names(disk)[0]}) == Names(disk)[1..]
    ensures OtherBytes(disk - {Names(disk)[0]}, size) == OtherBytes(disk, size)
  {
    assert Elements(Names(disk)[..1]) == {Names(disk)[0]} by {
      assert Names(disk)[..1] == [Names(disk)[0]];
    }
    RemovePrefix(disk, size, 1);
  }

  /** One operation on the directory is the same operation on the sequence of contents. */
  lemma ApplyRefines<D>(disk: Disk<D>, op: Fifo.Op<D>, clock: seq<nat>, i: nat, size: D -> nat, limit: int)
    requires GoodClock(clock) && i < |clock| && Ready(disk, clock, i)
    ensures var after := Apply(disk, op, clock[i], size, limit);
            Contents(after) == Fifo.Apply(Contents(disk), op, size, OtherBytes(disk, size), limit) &&
            OtherBytes(after, size) == OtherBytes(disk, size) &&
            Ready(after, clock, i + 1)
  {
    match op
    case Enq(d) =>
      var f := FileName(clock[i]);
      var kept := Evict(disk, size, limit);
      EvictKeepsSuffix(disk, size, limit);
      ReadyAfterRemoval(disk, Elements(Names(disk)[..EvictCount(disk, size, limit)]), clock, i);
      FileNameIsGpi(clock[i]);
      PutNames(kept, f, d, size);
      PutAppends(kept, f, d, size);
      ReadyAfterPut(kept, d, size, clock, i);
    case Deq =>
      if Names(disk) != [] {
        RemoveFirst(disk, size);
        ReadyAfterRemoval(disk, {Names(disk)[0]}, clock, i);
      }
  }

  /** Every run on the directory is the run on the sequence: the file names implement a queue. */
  lemma {:induction false} RunRefinesFifo<D>(disk: Disk<D>, ops: seq<Fifo.Op<D>>, clock: seq<nat>,
                                             size: D -> nat, limit: int)
    requires |ops| <= |clock|
    requires GoodClock(clock) && Ready(disk, clock, 0)
    ensures var after := Run(disk, ops, clock, size, limit);
            Contents(after) == Fifo.Run(Contents(disk), ops, size, OtherBytes(disk, size), limit) &&
            OtherBytes(after, size) == OtherBytes(disk, size) &&
            Ready(after, clock, |ops|)
    decreases |ops|
  {
    if ops != [] {
      var n := |ops| - 1;
      RunRefinesFifo(disk, ops[..n], clock, size, limit);
      ApplyRefines(Run(disk, ops[..n], clock, size, limit), ops[n], clock, n, size, limit);
    }
  }

  // ----- which runs lose nothing but what is evicted

  /** The items that an operation evicts or hands out. */
  ghost function Leaving<D>(disk: Disk<D>, op: Fifo.Op<D>, size: D -> nat, limit: int): multiset<D>
  {
    match op
    case Enq(_) => multiset(Contents(disk)[..EvictCount(disk, size, limit)])
    case Deq => if Contents(disk) == [] then multiset{} else multiset{Contents(disk)[0]}
  }

  function Arriving<D>(op: Fifo.Op<D>): multiset<D>
  {
    match op
    case Enq(d) => multiset{d}
    case Deq => multiset{}
  }

  ghost function AllLeaving<D>(disk: Disk<D>, ops: seq<Fifo.Op<D>>, clock: seq<nat>,
                               size: D -> nat, limit: int): multiset<D>
    requires |ops| <= |clock|
    decreases |ops|
  {
    if ops == [] then multiset{}
    else
      var n := |ops| - 1;
      AllLeaving(disk, ops[..n], clock, size, limit) +
      Leaving(Run(disk, ops[..n], clock, size, limit), ops[n], size, limit)
  }

  function AllArriving<D>(ops: seq<Fifo.Op<D>>): multiset<D>
    decreases |ops|
  {
    if ops == [] then multiset{} else AllArriving(ops[..|ops| - 1]) + Arriving(ops[|ops| - 1])
  }

  /** If the operation writes, its file name is free once room has been made. */
  ghost predicate NameFree<D>(disk: Disk<D>, op: Fifo.Op<D>, now: nat, size: D -> nat, limit: int)
  {
    op.Enq? ==> FileName(now) !in Evict(disk, size, limit)
  }

  lemma MoveItems<D>(q: seq<D>, k: nat, added: multiset<D>, after: multiset<D>)
    requires k <= |q| && after <= multiset(q[k..]) + added
    ensures after + multiset(q[..k]) <= multiset(q) + added
    ensures after + multiset(q[..k]) == multiset(q) + added <==> after == multiset(q[k..]) + added
  {
    var gone, kept := multiset(q[..k]), multiset(q[k..]);
    assert q == q[..k] + q[k..];
    assert multiset(q) + added == kept + added + gone;
    assert (after + gone) - gone == after && (kept + added + gone) - gone == kept + added;
  }

  lemma EnqueueConserves<D>(disk: Disk<D>, d: D, f: string, size: D -> nat, limit: int)
    requires IsGpi(f)
    ensures var kept := Evict(disk, size, limit);
            var after := multiset(Contents(Put(kept, f, d)));
            var gone := multiset(Contents(disk)[..EvictCount(disk, size, limit)]);
            after + gone <= multiset(Contents(disk)) + multiset{d} &&
            (after + gone == multiset(Contents(disk)) + multiset{d} <==> f !in kept)
  {
    hide Contents, Put, Evict, OtherBytes, FileName, IsGpi, GpiNames, Names;
    var kept := Evict(disk, size, limit);
    EvictKeepsSuffix(disk, size, limit);
    PutLosesNothing(kept, f, d, size);
    MoveItems(Contents(disk), EvictCount(disk, size, limit), multiset{d}, multiset(Contents(Put(kept, f, d))));
  }

  lemma NoNames<D>(disk: Disk<D>)
    ensures Names(disk) == [] <==> Contents(disk) == []
  {
  }

  lemma DequeueConserves<D>(disk: Disk<D>, now: nat, size: D -> nat, limit: int)
    ensures multiset(Contents(Apply(disk, Fifo.Deq, now, size, limit))) + Leaving(disk, Fifo.Deq, size, limit) ==
            multiset(Contents(disk))
  {
    hide Contents, Names, OtherBytes;
    var q := Contents(disk);
    NoNames(disk);
    if q != [] {
      RemoveFirst(disk, size);
      assert q == [q[0]] + q[1..];
    }
  }

  lemma ApplyConserves<D>(disk: Disk<D>, op: Fifo.Op<D>, now: nat, size: D -> nat, limit: int)
    ensures var after, gone := multiset(Contents(Apply(disk, op, now, size, limit))), Leaving(disk, op, size, limit);
            after + gone <= multiset(Contents(disk)) + Arriving(op) &&
            (after + gone == multiset(Contents(disk)) + Arriving(op) <==> NameFree(disk, op, now, size, limit))
  {
    hide Contents, Put, Evict, EvictCount, FileName;
    match op
    case Enq(d) =>
      FileNameIsGpi(now);
      EnqueueConserves(disk, d, FileName(now), size, limit);
    case Deq =>
      DequeueConserves(disk, now, size, limit);
      assert multiset(Contents(disk)) + multiset{} == multiset(Contents(disk));
  }

  lemma Accumulate<D>(start: multiset<D>, before: multiset<D>, after: multiset<D>, left: multiset<D>,
                      came: multiset<D>, gone: multiset<D>, added: multiset<D>)
    requires before + left <= start + came && after + gone <= before + added
    ensures after + (left + gone) <= start + (came + added)
    ensures after + (left + gone) == start + (came + added) <==>
            before + left == start + came && after + gone == before + added
  {
    assert after + (left + gone) == after + gone + left;
    assert start + (came + added) == start + came + added;
    assert after + gone + left <= before + added + left == before + left + added <= start + came + added;
    assert (after + gone + left) - left == after + gone && (before + added + left) - left == before + added;
    assert (before + left + added) - added == before + left && (start + came + added) - added == start + came;
  }

  /** No write of the run finds its file name taken. */
  ghost predicate NamesFree<D>(disk: Disk<D>, ops: seq<Fifo.Op<D>>, clock: seq<nat>, size: D -> nat, limit: int)
    requires |ops| <= |clock|
  {
    forall k :: 0 <= k < |ops| ==>
      NameFree(Run(disk, ops[..k], clock, size, limit), ops[k], clock[k], size, limit)
  }

  lemma NamesFreeNext<D>(disk: Disk<D>, ops: seq<Fifo.Op<D>>, clock: seq<nat>, size: D -> nat, limit: int)
    requires 0 < |ops| <= |clock|
    ensures var n := |ops| - 1;
            NamesFree(disk, ops, clock, size, limit) <==>
            NamesFree(disk, ops[..n], clock, size, limit) &&
            NameFree(Run(disk, ops[..n], clock, size, limit), ops[n], clock[n], size, limit)
  {
    hide Run, NameFree;
    assert forall k :: 0 <= k < |ops| - 1 ==> ops[..|ops| - 1][..k] == ops[..k];
  }

  /** Over every run and every clock the queue invents no item, and every item is still queued,
      handed out or evicted if and only if no write finds its file name taken. */
  lemma {:induction false} RunConservesExactly<D>(disk: Disk<D>, ops: seq<Fifo.Op<D>>, clock: seq<nat>,
                                                  size: D -> nat, limit: int)
    requires |ops| <= |clock|
    ensures var after, gone := multiset(Contents(Run(disk, ops, clock, size, limit))),
                               AllLeaving(disk, ops, clock, size, limit);
            after + gone <= multiset(Contents(disk)) + AllArriving(ops) &&
            (after + gone == multiset(Contents(disk)) + AllArriving(ops) <==>
             NamesFree(disk, ops, clock, size, limit))
    decreases |ops|, 1
  {
    if ops == [] {
      assert multiset(Contents(disk)) + multiset{} == multiset(Contents(disk));
    } else {
      RunConservesNext(disk, ops, clock, size, limit);
    }
  }

  lemma {:induction false} RunConservesNext<D>(disk: Disk<D>, ops: seq<Fifo.Op<D>>, clock: seq<nat>,
                                               size: D -> nat, limit: int)
    requires 0 < |ops| <= |clock|
    ensures var after, gone := multiset(Contents(Run(disk, ops, clock, size, limit))),
                               AllLeaving(disk, ops, clock, size, limit);
            after + gone <= multiset(Contents(disk)) + AllArriving(ops) &&
            (after + gone == multiset(Contents(disk)) + AllArriving(ops) <==>
             NamesFree(disk, ops, clock, size, limit))
    decreases |ops|, 0
  {
    hide Contents, Apply, Leaving, NameFree, NamesFree;
    var n := |ops| - 1;
    var before := Run(disk, ops[..n], clock, size, limit);
    RunConservesExactly(disk, ops[..n], clock, size, limit);
    ApplyConserves(before, ops[n], clock[n], size, limit);
    NamesFreeNext(disk, ops, clock, size, limit);
    Accumulate(multiset(Contents(disk)), multiset(Contents(before)),
               multiset(Contents(Apply(before, ops[n], clock[n], size, limit))),
               AllLeaving(disk, ops[..n], clock, size, limit), AllArriving(ops[..n]),
               Leaving(before, ops[n], size, limit), Arriving(ops[n]));
  }

  /** The run has created no name but those of its readings. */
  lemma {:induction false} RunNames<D>(disk: Disk<D>, ops: seq<Fifo.Op<D>>, clock: seq<nat>,
                                       size: D -> nat, limit: int, f: string)
    requires |ops| <= |clock| && f in Run(disk, ops, clock, size, limit)
    ensures f in disk || exists j :: 0 <= j < |ops| && f == FileName(clock[j])
    decreases |ops|
  {
    hide Names, EvictCount, FileName, Elements;
    if ops != [] && f != FileName(clock[|ops| - 1]) {
      RunNames(disk, ops[..|ops| - 1], clock, size, limit, f);
    }
  }

  /** Readings that never repeat, in any order, lose nothing in a directory without their names. */
  lemma DistinctReadingsKeepAll<D>(disk: Disk<D>, ops: seq<Fifo.Op<D>>, clock: seq<nat>, size: D -> nat, limit: int)
    requires |ops| <= |clock|
    requires forall i, j :: 0 <= i < j < |ops| ==> clock[i] != clock[j]
    requires forall i :: 0 <= i < |ops| ==> FileName(clock[i]) !in disk
    ensures multiset(Contents(Run(disk, ops, clock, size, limit))) + AllLeaving(disk, ops, clock, size, limit) ==
            multiset(Contents(disk)) + AllArriving(ops)
  {
    hide FileName, Contents, AllLeaving, AllArriving, EvictCount, Elements;
    forall k | 0 <= k < |ops|
      ensures NameFree(Run(disk, ops[..k], clock, size, limit), ops[k], clock[k], size, limit)
    {
      var f := FileName(clock[k]);
      if f in Run(disk, ops[..k], clock, size, limit) {
        RunNames(disk, ops[..k], clock, size, limit, f);
        var j :| 0 <= j < k && f == FileName(clock[j]);
        FileNameInjective(clock[j], clock[k]);
        assert false;
      }
    }
    RunConservesExactly(disk, ops, clock, size, limit);
  }

  // ----- what the queue does not own

  /** A subdirectory, or a name that does not end in ".gpi". */
  ghost predicate Foreign<D>(disk: Disk<D>, n: string)
  {
    n in disk && (disk[n].Subdirectory? || |n| < 4 || n[|n| - 4..] != ".gpi")
  }

  lemma NamesExactly<D>(disk: Disk<D>, n: string)
    ensures n in Names(disk) <==> n in disk && !Foreign(disk, n)
  {
    IsGpiSuffix(n);
  }

  lemma ForeignStays<D>(disk: Disk<D>, op: Fifo.Op<D>, now: nat, size: D -> nat, limit: int, n: string)
    requires Foreign(disk, n)
    ensures var after := Apply(disk, op, now, size, limit); n in after && after[n] == disk[n]
  {
    hide Listing, IsGpi;
    NamesExactly(disk, n);
    match op
    case Enq(d) =>
      FileNameIsGpi(now);
      IsGpiSuffix(FileName(now));
      assert n in Evict(disk, size, limit) && Evict(disk, size, limit)[n] == disk[n];
    case Deq =>
      assert Names(disk) != [] ==> Names(disk)[0] in Names(disk);
  }

  /** No run removes, changes or hands out an entry that is not a regular file ending in ".gpi". */
  lemma {:induction false} ForeignEntriesStay<D>(disk: Disk<D>, ops: seq<Fifo.Op<D>>, clock: seq<nat>,
                                                 size: D -> nat, limit: int, n: string)
    requires |ops| <= |clock| && Foreign(disk, n)
    ensures var after := Run(disk, ops, clock, size, limit);
            n !in Names(after) && n in after && after[n] == disk[n]
    decreases |ops|
  {
    hide Names, Apply;
    if ops == [] {
      NamesExactly(disk, n);
    } else {
      var k := |ops| - 1;
      var before := Run(disk, ops[..k], clock, size, limit);
      ForeignEntriesStay(disk, ops[..k], clock, size, limit, n);
      ForeignStays(before, ops[k], clock[k], size, limit, n);
      NamesExactly(Run(disk, ops, clock, size, limit), n);
    }
  }

  /** One foreign entry above the limit, a subdirectory counted by its reported size, makes
      `enforceLimit` remove every queued file. */
  lemma OversizedEntryEmptiesQueue<D>(disk: Disk<D>, size: D -> nat, limit: int, n: string)
    requires Foreign(disk, n)
    requires limit < match disk[n] case Subdirectory(bytes) => bytes case Regular(d) => size(d)
    ensures Names(Evict(disk, size, limit)) == []
  {
    hide GpiNames, IsGpi;
    ForeignIsOther(disk, n);
    TotalRemove(disk, disk.Keys - GpiNames(disk), n, size);
    EvictKeepsSuffix(disk, size, limit);
    Fifo.EvictAll(Contents(disk), size, OtherBytes(disk, size), limit);
  }

  lemma ForeignIsOther<D>(disk: Disk<D>, n: string)
    requires Foreign(disk, n)
    ensures n in disk && n !in GpiNames(disk)
  {
    IsGpiSuffix(n);
  }

  // ----- which clocks make the queue first-in first-out

  lemma DataInContents<D>(disk: Disk<D>, n: string)
    requires n in GpiNames(disk)
    ensures disk[n].data in Contents(disk)
  {
    assert n in Names(disk);
    var i :| 0 <= i < |Names(disk)| && Names(disk)[i] == n;
    assert Contents(disk)[i] == disk[n].data;
  }

  /** If the last item of the queue is one it did not hold before, it lies under the new name. */
  lemma LastNameIsNew<D>(disk: Disk<D>, f: string, d: D)
    requires d !in Contents(disk) && !Blocked(disk, f)
    requires var q := Contents(Put(disk, f, d)); q != [] && q[|q| - 1] == d
    ensures var names := Names(Put(disk, f, d)); names != [] && names[|names| - 1] == f
  {
    var names := Names(Put(disk, f, d));
    var last := names[|names| - 1];
    assert last in names;
    if last != f {
      DataInContents(disk, last);
    }
  }

  lemma AddedMember<T>(s: set<T>, x: T)
    ensures |s + {x}| > |s| ==> x !in s
  {
    if x in s {
      assert s + {x} == s;
    }
  }

  lemma LastIsGreatest(names: seq<string>, n: string)
    requires StrictlySorted(names) && n in names && n != names[|names| - 1]
    ensures Less(n, names[|names| - 1])
  {
    var i :| 0 <= i < |names| && names[i] == n;
  }

  lemma LastNameAbove<D>(disk: Disk<D>, f: string, d: D, size: D -> nat)
    requires IsGpi(f) && !Blocked(disk, f)
    requires |Names(Put(disk, f, d))| > |Names(disk)|
    requires Names(Put(disk, f, d))[|Names(Put(disk, f, d))| - 1] == f
    ensures ListedLast(disk, f)
  {
    hide Put, Less, IsGpi, GpiNames, Listing, StrictlySorted, OtherBytes, Blocked;
    PutNames(disk, f, d, size);
    AddedMember(GpiNames(disk), f);
    ListingSorted(GpiNames(disk) + {f});
    forall n | n in GpiNames(disk)
      ensures Less(n, f)
    {
      LastIsGreatest(Listing(GpiNames(disk) + {f}), n);
    }
  }

  /** An item that the queue does not hold comes out last exactly when its name is listed last. */
  lemma PutAppendsItem<D>(disk: Disk<D>, f: string, d: D, size: D -> nat)
    requires IsGpi(f) && !Blocked(disk, f) && d !in Contents(disk)
    ensures Contents(Put(disk, f, d)) == Contents(disk) + [d] <==> ListedLast(disk, f)
  {
    hide Put, Blocked, Names;
    PutAppends(disk, f, d, size);
    if Contents(Put(disk, f, d)) == Contents(disk) + [d] {
      LastNameIsNew(disk, f, d);
      LastNameAbove(disk, f, d, size);
    }
  }

  lemma FirstWrite<D>(a: D, t0: nat, size: D -> nat, limit: int)
    requires size(a) <= limit
    ensures Evict(map[], size, limit) == map[]
    ensures var one := Put(map[], FileName(t0), a);
            GpiNames(one) == {FileName(t0)} && Contents(one) == [a] && Evict(one, size, limit) == one &&
            forall f :: !Blocked(one, f)
  {
    var empty: Disk<D> := map[];
    var one := Put(empty, FileName(t0), a);
    FileNameIsGpi(t0);
    PutNames(empty, FileName(t0), a, size);
    PutAppends(empty, FileName(t0), a, size);
    assert GpiNames(empty) == {} && Contents(empty) == [];
    TotalSplit(one, size);
    assert Fifo.Sum([a], size) == size(a) + Fifo.Sum([a][1..], size);
    assert one.Keys - GpiNames(one) == {};
    NothingToRemove(one, size, limit);
  }

  /** `i` dequeues. */
  function Idle<D>(i: nat): (ops: seq<Fifo.Op<D>>)
    ensures |ops| == i
  {
    if i == 0 then [] else Idle(i - 1) + [Fifo.Deq]
  }

  /** Dequeueing from an empty queue only lets the clock go on. */
  lemma {:induction false} IdleRun<D>(i: nat, clock: seq<nat>, size: D -> nat, limit: int)
    requires i <= |clock|
    ensures Run(map[], Idle(i), clock, size, limit) == map[]
    ensures Fifo.Run([], Idle(i), size, 0, limit) == []
  {
    if i > 0 {
      IdleRun(i - 1, clock, size, limit);
      assert Idle<D>(i)[..i - 1] == Idle(i - 1);
      var empty: Disk<D> := map[];
      assert GpiNames(empty) == {};
    }
  }

  /** Two items written at the readings `i` and `i + 1`. */
  function WritesAt<D>(i: nat, a: D, b: D): (ops: seq<Fifo.Op<D>>)
    ensures |ops| == i + 2
  {
    Idle(i) + [Fifo.Enq(a), Fifo.Enq(b)]
  }

  lemma EnqueueTwo<D>(a: D, b: D, size: D -> nat, limit: int)
    requires size(a) <= limit
    ensures Fifo.Enqueue([], a, size, 0, limit) == [a]
    ensures Fifo.Enqueue([a], b, size, 0, limit) == [a, b]
  {
    assert Fifo.Sum([a], size) == size(a) + Fifo.Sum([a][1..], size);
    Fifo.EvictNothing([a], size, 0, limit);
    assert [a][0..] + [b] == [a, b];
  }

  /** On sequences the two items come out in order. */
  lemma WritesOnFifo<D>(i: nat, a: D, b: D, size: D -> nat, limit: int)
    requires size(a) <= limit
    ensures Fifo.Run([], WritesAt(i, a, b), size, 0, limit) == [a, b]
  {
    hide Fifo.Enqueue, Idle;
    var ops := WritesAt(i, a, b);
    assert ops[..i + 1] == Idle(i) + [Fifo.Enq(a)] && ops[..i + 1][..i] == Idle(i);
    IdleRun(i, seq(i, _ => 0), size, limit);
    EnqueueTwo(a, b, size, limit);
    assert Fifo.Run([], ops[..i + 1], size, 0, limit) == [a];
  }

  /** On files they come out in order exactly when the first reading's name is listed before the
      second's. */
  lemma TwoWritesInOrder<D>(clock: seq<nat>, i: nat, a: D, b: D, size: D -> nat, limit: int)
    requires i + 1 < |clock| && a != b && size(a) <= limit
    ensures Contents(Run(map[], WritesAt(i, a, b), clock, size, limit)) == [a, b] <==>
            ListedBefore(clock[i], clock[i + 1])
  {
    hide Contents, Put, Evict, GpiNames, FileName, Less, ListedBefore, Blocked;
    var ops, empty: Disk<D> := WritesAt(i, a, b), map[];
    var one := Put(empty, FileName(clock[i]), a);
    FirstWrite(a, clock[i], size, limit);
    IdleRun(i, clock, size, limit);
    assert ops[..i + 1] == Idle(i) + [Fifo.Enq(a)] && ops[..i + 1][..i] == Idle(i);
    assert Run(empty, ops[..i + 1], clock, size, limit) == one;
    FileNameIsGpi(clock[i + 1]);
    PutAppendsItem(one, FileName(clock[i + 1]), b, size);
    FileNameOrder(clock[i], clock[i + 1]);
    assert [a] + [b] == [a, b];
  }

  /** Every run from an empty directory is the run of the first-in first-out sequence. */
  ghost predicate IsFifo<D(!new)>(clock: seq<nat>, size: D -> nat, limit: int)
  {
    forall ops: seq<Fifo.Op<D>> | |ops| <= |clock| ::
      Contents(Run(map[], ops, clock, size, limit)) == Fifo.Run([], ops, size, 0, limit)
  }

  /** If neighbouring readings are listed in order, all are. */
  lemma {:induction false} NeighboursSuffice(clock: seq<nat>, i: nat, j: nat)
    requires i < j < |clock|
    requires forall k :: 0 <= k < |clock| - 1 ==> ListedBefore(clock[k], clock[k + 1])
    ensures ListedBefore(clock[i], clock[j])
  {
    hide ListedBefore, Less, FileName;
    assert ListedBefore(clock[j - 1], clock[j - 1 + 1]);
    if i < j - 1 {
      NeighboursSuffice(clock, i, j - 1);
      FileNameOrder(clock[i], clock[j - 1]);
      FileNameOrder(clock[j - 1], clock[j]);
      FileNameOrder(clock[i], clock[j]);
      LessTransitive(FileName(clock[i]), FileName(clock[j - 1]), FileName(clock[j]));
    }
  }

  lemma NothingQueued<D>(clock: seq<nat>, size: D -> nat)
    ensures var empty: Disk<D> := map[];
            Contents(empty) == [] && OtherBytes(empty, size) == 0 && Ready(empty, clock, 0)
  {
    var empty: Disk<D> := map[];
    assert GpiNames(empty) == {};
  }

  /** The directory is a first-in first-out queue if and only if the clock is good, given two
      different items of which one fits the limit. */
  lemma FifoExactly<D(!new)>(clock: seq<nat>, a: D, b: D, size: D -> nat, limit: int)
    requires a != b && size(a) <= limit
    ensures IsFifo<D>(clock, size, limit) <==> GoodClock(clock)
  {
    hide Run, Contents, Fifo.Run, Ready, OtherBytes, ListedBefore;
    if IsFifo<D>(clock, size, limit) {
      forall k | 0 <= k < |clock| - 1
        ensures ListedBefore(clock[k], clock[k + 1])
      {
        TwoWritesInOrder(clock, k, a, b, size, limit);
        WritesOnFifo(k, a, b, size, limit);
      }
      forall i, j | 0 <= i < j < |clock|
        ensures ListedBefore(clock[i], clock[j])
      {
        NeighboursSuffice(clock, i, j);
      }
    }
    if GoodClock(clock) {
      forall ops: seq<Fifo.Op<D>> | |ops| <= |clock|
        ensures Contents(Run(map[], ops, clock, size, limit)) == Fifo.Run([], ops, size, 0, limit)
      {
        NothingQueued(clock, size);
        RunRefinesFifo(map[], ops, clock, size, limit);
      }
    }
  }

  // ----- the byte bound, whatever the clock

  ghost function QueuedBytes<D>(disk: Disk<D>, size: D -> nat): nat
  {
    Total(disk, GpiNames(disk), size)
  }

  /** A write adds at most the size of its item, also when it overwrites a file. */
  lemma PutBytes<D>(disk: Disk<D>, f: string, d: D, size: D -> nat)
    requires IsGpi(f)
    ensures QueuedBytes(Put(disk, f, d), size) <= QueuedBytes(disk, size) + size(d)
  {
    if !Blocked(disk, f) {
      var after, others := Put(disk, f, d), GpiNames(disk) - {f};
      PutNames(disk, f, d, size);
      TotalRemove(after, GpiNames(after), f, size);
      assert GpiNames(after) - {f} == others;
      TotalFrame(disk, after, others, size);
      if f in GpiNames(disk) {
        TotalRemove(disk, GpiNames(disk), f, size);
      } else {
        assert others == GpiNames(disk);
      }
    }
  }

  lemma QueuedBytesIsSum<D>(disk: Disk<D>, size: D -> nat)
    ensures QueuedBytes(disk, size) == Fifo.Sum(Contents(disk), size)
  {
    TotalOfRegular(disk, GpiNames(disk), size);
  }

  lemma EvictBytes<D>(disk: Disk<D>, size: D -> nat, limit: int)
    ensures QueuedBytes(Evict(disk, size, limit), size) <= Max(0, limit)
  {
    hide QueuedBytes, Evict, Contents, OtherBytes, Fifo.Survivors;
    EvictKeepsSuffix(disk, size, limit);
    QueuedBytesIsSum(Evict(disk, size, limit), size);
    Fifo.SurvivorsFit(Contents(disk), size, OtherBytes(disk, size), limit);
  }

  lemma RemoveFirstBytes<D>(disk: Disk<D>, size: D -> nat)
    requires Names(disk) != []
    ensures QueuedBytes(disk - {Names(disk)[0]}, size) <= QueuedBytes(disk, size)
  {
    var f := Names(disk)[0];
    assert f in Names(disk);
    RemoveGpi(disk, {f}, size);
    TotalRemove(disk, GpiNames(disk), f, size);
    TotalFrame(disk, disk - {f}, GpiNames(disk) - {f}, size);
  }

  /** The bytes in queued files over any run, for any clock: readings may repeat, step back or
      change their number of digits. */
  lemma {:induction false} RunBytesBounded<D>(disk: Disk<D>, ops: seq<Fifo.Op<D>>, clock: seq<nat>,
                                              size: D -> nat, limit: int, c: nat)
    requires |ops| <= |clock|
    requires QueuedBytes(disk, size) <= Max(0, limit) + c
    ensures QueuedBytes(Run(disk, ops, clock, size, limit), size) <=
            Max(0, limit) + Max(c, Fifo.Largest(ops, size))
    decreases |ops|
  {
    hide QueuedBytes, Evict, Put, Names;
    if ops != [] {
      var n := |ops| - 1;
      var before := Run(disk, ops[..n], clock, size, limit);
      RunBytesBounded(disk, ops[..n], clock, size, limit, c);
      match ops[n]
      case Enq(d) =>
        EvictBytes(before, size, limit);
        FileNameIsGpi(clock[n]);
        PutBytes(Evict(before, size, limit), FileName(clock[n]), d, size);
      case Deq =>
        if Names(before) != [] {
          RemoveFirstBytes(before, size);
        }
    }
  }

  // ----- the queue object

  function Insert(x: string, names: seq<string>): (r: seq<string>)
    ensures multiset(r) == multiset{x} + multiset(names)
  {
    if names == [] || !Less(names[0], x) then [x] + names
    else
      assert names == [names[0]] + names[1..];
      [names[0]] + Insert(x, names[1..])
  }

  /** `sort.Strings`. */
  function SortStrings(names: seq<string>): (r: seq<string>)
    ensures multiset(r) == multiset(names)
  {
    if names == [] then []
    else
      assert names == [names[0]] + names[1..];
      Insert(names[0], SortStrings(names[1..]))
  }

  lemma {:induction false} InsertSorted(x: string, names: seq<string>)
    requires StrictlySorted(names) && x !in names
    ensures StrictlySorted(Insert(x, names))
  {
    if names != [] {
      var rest := names[1..];
      LessTotal(names[0], x);
      assert names[0] in names;
      if Less(names[0], x) {
        InsertSorted(x, rest);
        var r := Insert(x, rest);
        forall i | 0 <= i < |r|
          ensures Less(names[0], r[i])
        {
          assert r[i] in multiset(r);
          if r[i] != x {
            assert r[i] in rest;
          }
        }
      } else {
        forall i | 0 <= i < |names|
          ensures Less(x, names[i])
        {
          if i > 0 {
            LessTransitive(x, names[0], names[i]);
          }
        }
      }
    }
  }

  lemma {:induction false} SortStringsSorts(names: seq<string>)
    requires forall i, j :: 0 <= i < j < |names| ==> names[i] != names[j]
    ensures StrictlySorted(SortStrings(names))
  {
    if names != [] {
      SortStringsSorts(names[1..]);
      var sorted := SortStrings(names[1..]);
      assert names[0] !in sorted by {
        assert names[0] !in multiset(sorted);
      }
      InsertSorted(names[0], sorted);
    }
  }

  class DiskQueue<D> {
    var disk: Disk<D>
    const maxSizeMB: int
    const size: D -> nat

    const maxBytes: int := maxSizeMB * 1024 * 1024

    /** Opens a directory that may already hold files of earlier runs. */
    constructor (disk: Disk<D>, maxSizeMB: int, size: D -> nat)
      ensures this.disk == disk && this.maxSizeMB == maxSizeMB && this.size == size
      ensures maxBytes == maxSizeMB * 1_048_576
    {
      this.disk := disk;
      this.maxSizeMB := maxSizeMB;
      this.size := size;
    }

    /** The `.gpi` file names, sorted. */
    method ListFiles() returns (names: seq<string>)
      ensures names == Names(disk)
    {
      names := [];
      var entries := disk.Keys;
      while entries != {}
        invariant entries <= disk.Keys
        invariant forall n :: n in names <==> n in GpiNames(disk) && n !in entries
        invariant forall i, j :: 0 <= i < j < |names| ==> names[i] != names[j]
        decreases |entries|
      {
        var e :| e in entries;
        entries := entries - {e};
        if disk[e].Regular? && IsGpi(e) {
          names := names + [e];
        }
      }
      SortStringsSorts(names);
      ghost var unsorted := names;
      names := SortStrings(names);
      assert forall n :: n in names <==> n in multiset(names);
      assert forall n :: n in unsorted <==> n in multiset(unsorted);
      ListingUnique(names, GpiNames(disk));
    }

    method Size() returns (n: nat)
      ensures n == |Contents(disk)|
    {
      var files := ListFiles();
      n := |files|;
    }

    /** The sizes of all directory entries added up. */
    method TotalSize() returns (totalSize: nat)
      ensures totalSize == Total(disk, disk.Keys, size)
    {
      totalSize := 0;
      var entries := disk.Keys;
      while entries != {}
        invariant entries <= disk.Keys
        invariant totalSize + Total(disk, entries, size) == Total(disk, disk.Keys, size)
        decreases |entries|
      {
        var e :| e in entries;
        TotalRemove(disk, entries, e, size);
        totalSize := totalSize + EntrySize(disk[e], size);
        entries := entries - {e};
      }
    }

    /** Removes oldest files until the directory total is within the limit. */
    method EnforceLimit()
      modifies this
      ensures disk == Evict(old(disk), size, maxBytes)
    {
      var totalSize: nat := TotalSize();
      ghost var before := disk;
      NothingRemoved(before, size, maxBytes, totalSize);
      if totalSize <= maxBytes {
        NothingToRemove(disk, size, maxBytes);
        return;
      }

      var files := ListFiles();
      var i := 0;
      while i < |files|
        invariant i <= |files|
        invariant Removed(before, size, maxBytes, i, disk, totalSize)
      {
        if totalSize <= maxBytes {
          break;
        }
        var f := files[i];
        RemoveNext(before, size, maxBytes, i, disk, totalSize);
        totalSize := totalSize - EntrySize(disk[f], size);
        disk := disk - {f};
        i := i + 1;
      }
      RemovedEnough(before, size, maxBytes, i, disk, totalSize);
    }

    /** Makes room, then writes `data` under a name taken from the clock. `ok` is false when
        the write fails because a subdirectory has that name. */
    method Enqueue(data: D, now: nat) returns (ok: bool)
      modifies this
      ensures ok == !Blocked(old(disk), FileName(now))
      ensures disk == Put(Evict(old(disk), size, maxBytes), FileName(now), data)
      ensures ok && ListedLast(old(disk), FileName(now)) ==>
                Contents(disk) == Fifo.Enqueue(old(Contents(disk)), data, size, OtherBytes(old(disk), size), maxBytes)
    {
      ghost var before := disk;
      EnforceLimit();
      var filename := FileName(now);
      EnqueueRefines(before, data, now, size, maxBytes);
      if filename in disk && disk[filename].Subdirectory? {
        return false;
      }
      disk := disk[filename := Regular(data)];
      ok := true;
    }

    /** Reads and removes the oldest file. */
    method Dequeue() returns (data: Option<D>)
      modifies this`disk
      ensures data.None? <==> old(Contents(disk)) == []
      ensures data.None? ==> disk == old(disk)
      ensures data.Some? ==>
                data.value == old(Contents(disk))[0] &&
                disk == old(disk) - {Names(old(disk))[0]} &&
                Contents(disk) == old(Contents(disk))[1..]
      ensures OtherBytes(disk, size) == OtherBytes(old(disk), size)
    {
      var files := ListFiles();
      if |files| == 0 {
        return None;
      }
      assert files[0] in files;
      RemoveFirst(disk, size);
      data := Some(disk[files[0]].data);
      disk := disk - {files[0]};
    }
  }

  // ----- the removal loop of `EnforceLimit`

  /** The first `i` files are gone, `totalSize` is what is left, and no shorter prefix sufficed. */
  ghost predicate Removed<D>(before: Disk<D>, size: D -> nat, limit: int, i: nat, disk: Disk<D>, totalSize: nat)
    requires i <= |Names(before)|
  {
    var q, other := Contents(before), OtherBytes(before, size);
    disk == before - Elements(Names(before)[..i]) &&
    totalSize == other + Fifo.Sum(q[i..], size) &&
    Fifo.AllOver(q, size, other, limit, i)
  }

  lemma RemoveNone<D>(disk: Disk<D>, names: seq<string>)
    ensures disk - Elements(names[..0]) == disk
  {
    assert Elements(names[..0]) == {};
  }

  lemma NothingRemoved<D>(disk: Disk<D>, size: D -> nat, limit: int, totalSize: nat)
    requires totalSize == Total(disk, disk.Keys, size)
    ensures Removed(disk, size, limit, 0, disk, totalSize)
  {
    TotalSplit(disk, size);
    RemoveNone(disk, Names(disk));
    Fifo.SumSplit(Contents(disk), 0, size);
  }

  lemma NothingToRemove<D>(disk: Disk<D>, size: D -> nat, limit: int)
    requires Total(disk, disk.Keys, size) <= limit
    ensures Evict(disk, size, limit) == disk
  {
    TotalSplit(disk, size);
    Fifo.EvictNothing(Contents(disk), size, OtherBytes(disk, size), limit);
    RemoveNone(disk, Names(disk));
  }

  /** One round: the next file is still there, carries the next item, and may go. */
  lemma RemoveNext<D>(before: Disk<D>, size: D -> nat, limit: int, i: nat, disk: Disk<D>, totalSize: nat)
    requires i < |Names(before)| && Removed(before, size, limit, i, disk, totalSize)
    requires totalSize > limit
    ensures var f := Names(before)[i];
            f in disk && disk[f] == Regular(Contents(before)[i]) &&
            EntrySize(disk[f], size) <= totalSize &&
            Removed(before, size, limit, i + 1, disk - {f}, totalSize - EntrySize(disk[f], size))
  {
    var files, q := Names(before), Contents(before);
    ListingSorted(GpiNames(before));
    SortedDistinct(files);
    NextElement(files, i);
    assert files[i] in files;
    assert q[i..][1..] == q[i + 1..];
    Fifo.AllOverNext(q, size, OtherBytes(before, size), limit, i);
  }

  lemma RemovedEnough<D>(before: Disk<D>, size: D -> nat, limit: int, i: nat, disk: Disk<D>, totalSize: nat)
    requires i <= |Names(before)| && Removed(before, size, limit, i, disk, totalSize)
    requires i == |Names(before)| || totalSize <= limit
    ensures disk == Evict(before, size, limit)
  {
    Fifo.EvictCountShortest(Contents(before), size, OtherBytes(before, size), limit, i);
  }

  lemma NextElement(files: seq<string>, i: nat)
    requires i < |files|
    requires forall i, j :: 0 <= i < j < |files| ==> files[i] != files[j]
    ensures files[i] !in Elements(files[..i])
    ensures Elements(files[..i + 1]) == Elements(files[..i]) + {files[i]}
  {
    assert files[..i + 1] == files[..i] + [files[i]];
  }
}
