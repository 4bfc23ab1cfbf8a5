/** A directory as a map from entry names to entries, with sorted listings and byte totals. */
module Directory {
  import opened FileNames
  import Fifo

  /** A regular file with its contents, or a subdirectory of which only the reported size matters. */
  datatype Entry<D> = Regular(data: D) | Subdirectory(bytes: nat)

  type Disk<D> = map<string, Entry<D>>

  // ----- sorted listings

  ghost predicate StrictlySorted(names: seq<string>)
  {
    forall i, j :: 0 <= i < j < |names| ==> Less(names[i], names[j])
  }

  ghost predicate IsMin(m: string, s: set<string>)
  {
    m in s && forall y :: y in s ==> m == y || Less(m, y)
  }

  lemma {:induction false} MinExists(s: set<string>)
    requires s != {}
    ensures exists m :: IsMin(m, s)
  {
    var x :| x in s;
    if s == {x} {
      assert IsMin(x, s);
    } else {
      var rest := s - {x};
      MinExists(rest);
      var m :| IsMin(m, rest);
      LessTotal(m, x);
      if Less(m, x) {
        assert IsMin(m, s);
      } else {
        forall y | y in s
          ensures x == y || Less(x, y)
        {
          if y != x && y != m {
            LessTransitive(x, m, y);
          }
        }
        assert IsMin(x, s);
      }
    }
  }

  lemma MinUnique(s: set<string>, a: string, b: string)
    requires IsMin(a, s) && IsMin(b, s)
    ensures a == b
  {
    LessAsymmetric(a, b);
  }

  ghost function Min(s: set<string>): (m: string)
    requires s != {}
    ensures IsMin(m, s)
  {
    MinExists(s);
    var m :| IsMin(m, s);
    m
  }

  /** The names of `s` in string order. */
  ghost function Listing(s: set<string>): (names: seq<string>)
    ensures |names| == |s|
    ensures forall x :: x in names <==> x in s
  {
    if s == {} then [] else var m := Min(s); [m] + Listing(s - {m})
  }

  lemma {:induction false} ListingSorted(s: set<string>)
    ensures StrictlySorted(Listing(s))
  {
    if s != {} {
      var m := Min(s);
      var rest := Listing(s - {m});
      ListingSorted(s - {m});
      forall i, j | 0 <= i < j < |Listing(s)|
        ensures Less(Listing(s)[i], Listing(s)[j])
      {
        if i == 0 {
          assert rest[j - 1] in s - {m};
        } else {
          assert Less(rest[i - 1], rest[j - 1]);
        }
      }
    }
  }

  lemma SortedDistinct(names: seq<string>)
    requires StrictlySorted(names)
    ensures forall i, j :: 0 <= i < j < |names| ==> names[i] != names[j]
  {
    forall i, j | 0 <= i < j < |names|
      ensures names[i] != names[j]
    {
      LessAsymmetric(names[i], names[j]);
    }
  }

  /** Any strictly sorted sequence of exactly the names of `s` is the listing of `s`. */
  lemma {:induction false} ListingUnique(names: seq<string>, s: set<string>)
    requires StrictlySorted(names)
    requires forall x :: x in names <==> x in s
    ensures names == Listing(s)
  {
    if names == [] {
      assert forall x :: x in s ==> x in names;
    } else {
      SortedDistinct(names);
      var m := names[0];
      forall y | y in s
        ensures m == y || Less(m, y)
      {
        var i :| 0 <= i < |names| && names[i] == y;
      }
      assert m in s;
      MinUnique(s, m, Min(s));
      forall x
        ensures x in names[1..] <==> x in s - {m}
      {
        if x in names[1..] {
          var i :| 0 <= i < |names[1..]| && names[1..][i] == x;
          assert names[i + 1] == x;
        }
        if x in s - {m} {
          var i :| 0 <= i < |names| && names[i] == x;
          assert names[1..][i - 1] == x;
        }
      }
      ListingUnique(names[1..], s - {m});
    }
  }

  ghost function Elements(names: seq<string>): set<string>
  {
    set x | x in names
  }

  lemma DropPrefixStep(s: set<string>, m: string, rest: seq<string>, k: nat)
    requires 1 <= k <= |rest| + 1
    ensures s - Elements(([m] + rest)[..k]) == s - {m} - Elements(rest[..k - 1])
    ensures ([m] + rest)[k..] == rest[k - 1..]
  {
    assert ([m] + rest)[..k] == [m] + rest[..k - 1];
    var t := rest[..k - 1];
    assert forall x :: x in [m] + t <==> x == m || x in t;
  }

  /** Deleting the first `k` listed names leaves the rest of the listing. */
  lemma {:induction false} ListingDropPrefix(s: set<string>, k: nat)
    requires k <= |s|
    ensures Listing(s - Elements(Listing(s)[..k])) == Listing(s)[k..]
  {
    if k == 0 {
      assert s - Elements([]) == s;
      assert Listing(s)[..0] == [];
    } else {
      var m := Min(s);
      ListingDropPrefix(s - {m}, k - 1);
      DropPrefixStep(s, m, Listing(s - {m}), k);
    }
  }

  lemma ListingAddMin(s: set<string>, f: string)
    requires f !in s && forall y :: y in s ==> Less(f, y)
    ensures Listing(s + {f}) == [f] + Listing(s)
  {
    MinUnique(s + {f}, f, Min(s + {f}));
    assert s + {f} - {f} == s;
  }

  lemma ListingAddAboveMin(s: set<string>, f: string)
    requires s != {} && f !in s && Less(Min(s), f)
    ensures Listing(s + {f}) == [Min(s)] + Listing(s - {Min(s)} + {f})
  {
    var m := Min(s);
    MinUnique(s + {f}, m, Min(s + {f}));
    assert s + {f} - {m} == s - {m} + {f};
  }

  lemma InsertCons(m: string, rest: seq<string>, f: string, j: nat)
    requires j <= |rest|
    ensures [m] + (rest[..j] + [f] + rest[j..]) == ([m] + rest)[..j + 1] + [f] + ([m] + rest)[j + 1..]
  {
  }

  lemma ListingCons(s: set<string>)
    requires s != {}
    ensures Listing(s) == [Min(s)] + Listing(s - {Min(s)})
  {
  }

  /** A new name is listed between the names below it and the names above it. */
  lemma {:induction false} ListingInsert(s: set<string>, f: string) returns (i: nat)
    requires f !in s
    ensures i <= |s|
    ensures Listing(s + {f}) == Listing(s)[..i] + [f] + Listing(s)[i..]
  {
    hide Listing, Less;
    if forall y :: y in s ==> Less(f, y) {
      i := 0;
      ListingAddMin(s, f);
    } else {
      var m := Min(s);
      ListingCons(s);
      assert Less(m, f) by {
        MinBelow(s, f);
      }
      ListingAddAboveMin(s, f);
      var j := ListingInsert(s - {m}, f);
      i := j + 1;
      InsertCons(m, Listing(s - {m}), f, j);
    }
  }

  lemma MinBelow(s: set<string>, f: string)
    requires s != {} && f !in s
    requires !(forall y :: y in s ==> Less(f, y))
    ensures Less(Min(s), f)
  {
    var m := Min(s);
    LessTotal(m, f);
    if Less(f, m) {
      forall y | y in s
        ensures Less(f, y)
      {
        if y != m {
          LessTransitive(f, m, y);
        }
      }
      assert false;
    }
  }

  lemma SortedAppend(names: seq<string>, f: string)
    requires StrictlySorted(names)
    ensures StrictlySorted(names + [f]) <==> forall n :: n in names ==> Less(n, f)
  {
    if StrictlySorted(names + [f]) {
      forall n | n in names
        ensures Less(n, f)
      {
        var i :| 0 <= i < |names| && names[i] == n;
        assert Less((names + [f])[i], (names + [f])[|names|]);
      }
    }
    if forall n :: n in names ==> Less(n, f) {
      assert forall i :: 0 <= i < |names| ==> names[i] in names;
    }
  }

  /** A name above all the others is listed last, and only such a name is. */
  lemma ListingAppend(s: set<string>, f: string)
    ensures Listing(s + {f}) == Listing(s) + [f] <==> forall n :: n in s ==> Less(n, f)
  {
    var names := Listing(s);
    ListingSorted(s);
    SortedAppend(names, f);
    if StrictlySorted(names + [f]) {
      ListingUnique(names + [f], s + {f});
    } else {
      ListingSorted(s + {f});
    }
  }

  // ----- the queue's part of a directory

  /** The names `listFiles` returns: not a directory, extension ".gpi". */
  ghost function GpiNames<D>(disk: Disk<D>): set<string>
  {
    set n | n in disk && disk[n].Regular? && IsGpi(n)
  }

  ghost function Names<D>(disk: Disk<D>): seq<string>
  {
    Listing(GpiNames(disk))
  }

  ghost function DataOf<D>(disk: Disk<D>, names: seq<string>): (q: seq<D>)
    requires forall n :: n in names ==> n in disk && disk[n].Regular?
    ensures |q| == |names|
  {
    seq(|names|, i requires 0 <= i < |names| => assert names[i] in names; disk[names[i]].data)
  }

  /** The queued items, oldest name first. */
  ghost function Contents<D>(disk: Disk<D>): seq<D>
  {
    DataOf(disk, Names(disk))
  }

  lemma DataOfSuffix<D>(d1: Disk<D>, d2: Disk<D>, names: seq<string>, k: nat)
    requires k <= |names|
    requires forall n :: n in names ==> n in d1 && d1[n].Regular?
    requires forall n :: n in names[k..] ==> n in d2 && n in d1 && d2[n] == d1[n]
    ensures forall n :: n in names[k..] ==> n in d2 && d2[n].Regular?
    ensures DataOf(d2, names[k..]) == DataOf(d1, names)[k..]
  {
  }

  lemma DataOfAppend<D>(d1: Disk<D>, d2: Disk<D>, names: seq<string>, f: string, d: D)
    requires forall n :: n in names ==> n in d1 && d1[n].Regular? && n in d2 && d2[n] == d1[n]
    requires f in d2 && d2[f] == Regular(d)
    ensures DataOf(d2, names + [f]) == DataOf(d1, names) + [d]
  {
  }

  lemma DataOfInsert<D>(d1: Disk<D>, d2: Disk<D>, names: seq<string>, i: nat, f: string, d: D)
    requires i <= |names|
    requires forall n :: n in names ==> n in d1 && d1[n].Regular? && n in d2 && d2[n] == d1[n]
    requires f in d2 && d2[f] == Regular(d)
    requires forall n :: n in names[..i] + [f] + names[i..] ==> n in d2 && d2[n].Regular?
    ensures DataOf(d2, names[..i] + [f] + names[i..]) ==
            DataOf(d1, names)[..i] + [d] + DataOf(d1, names)[i..]
  {
  }

  lemma DataOfReplace<D>(disk: Disk<D>, names: seq<string>, i: nat, d: D)
    requires i < |names| && forall n :: n in names ==> n in disk && disk[n].Regular?
    requires forall j, k :: 0 <= j < k < |names| ==> names[j] != names[k]
    ensures DataOf(disk[names[i] := Regular(d)], names) == DataOf(disk, names)[i := d]
  {
    assert names[i] in names;
  }

  // ----- byte totals

  function EntrySize<D>(e: Entry<D>, size: D -> nat): nat
  {
    match e
    case Regular(d) => size(d)
    case Subdirectory(b) => b
  }

  ghost function Total<D>(disk: Disk<D>, s: set<string>, size: D -> nat): nat
    requires s <= disk.Keys
  {
    if s == {} then 0
    else var m := Min(s); EntrySize(disk[m], size) + Total(disk, s - {m}, size)
  }

  lemma {:induction false} TotalRemove<D>(disk: Disk<D>, s: set<string>, x: string, size: D -> nat)
    requires s <= disk.Keys && x in s
    ensures Total(disk, s, size) == EntrySize(disk[x], size) + Total(disk, s - {x}, size)
  {
    var m := Min(s);
    if x != m {
      TotalRemove(disk, s - {m}, x, size);
      assert m in s - {x};
      MinUnique(s - {x}, m, Min(s - {x}));
      assert s - {m} - {x} == s - {x} - {m};
    }
  }

  lemma {:induction false} TotalUnion<D>(disk: Disk<D>, a: set<string>, b: set<string>, size: D -> nat)
    requires a <= disk.Keys && b <= disk.Keys && a !! b
    ensures Total(disk, a + b, size) == Total(disk, a, size) + Total(disk, b, size)
  {
    if a == {} {
      assert a + b == b;
    } else {
      var m := Min(a);
      TotalUnion(disk, a - {m}, b, size);
      TotalRemove(disk, a + b, m, size);
      assert a + b - {m} == (a - {m}) + b;
    }
  }

  lemma {:induction false} TotalFrame<D>(d1: Disk<D>, d2: Disk<D>, s: set<string>, size: D -> nat)
    requires s <= d1.Keys && s <= d2.Keys
    requires forall n :: n in s ==> d1[n] == d2[n]
    ensures Total(d1, s, size) == Total(d2, s, size)
  {
    if s != {} {
      TotalFrame(d1, d2, s - {Min(s)}, size);
    }
  }

  lemma {:induction false} TotalOfRegular<D>(disk: Disk<D>, s: set<string>, size: D -> nat)
    requires s <= disk.Keys && forall n :: n in s ==> disk[n].Regular?
    ensures Total(disk, s, size) == Fifo.Sum(DataOf(disk, Listing(s)), size)
  {
    if s != {} {
      var m := Min(s);
      TotalOfRegular(disk, s - {m}, size);
      assert DataOf(disk, Listing(s))[1..] == DataOf(disk, Listing(s - {m}));
    }
  }

  /** The bytes that `enforceLimit` counts but never removes. */
  ghost function OtherBytes<D>(disk: Disk<D>, size: D -> nat): nat
  {
    Total(disk, disk.Keys - GpiNames(disk), size)
  }

  lemma TotalSplit<D>(disk: Disk<D>, size: D -> nat)
    ensures Total(disk, disk.Keys, size) == OtherBytes(disk, size) + Fifo.Sum(Contents(disk), size)
  {
    var gpi := GpiNames(disk);
    TotalUnion(disk, disk.Keys - gpi, gpi, size);
    assert disk.Keys - gpi + gpi == disk.Keys;
    TotalOfRegular(disk, gpi, size);
  }
}
