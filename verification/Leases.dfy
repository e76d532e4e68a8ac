/** Leases on a provider's buffer, and the first-fit search for a free block. */
module Leases {
  import opened Bytes

  const LEASE_SECONDS: real := 120.0

  datatype Lease = Lease(offset: nat, length: nat, expires: real) {
    function End(): nat {
      offset + length
    }

    predicate Alive(now: real) {
      now < expires
    }

    /** The lease and the block of `len` bytes at `at` share a byte. */
    predicate Meets(at: int, len: nat) {
      at < End() && offset < at + len
    }
  }

  /** The requested number of bytes in whole sectors. */
  function RoundUp(requested: nat): nat {
    (requested + SECTOR_SIZE - 1) / SECTOR_SIZE * SECTOR_SIZE
  }

  /** The least whole number of sectors that is large enough. */
  lemma RoundUpLeast(requested: nat)
    ensures RoundUp(requested) % SECTOR_SIZE == 0
    ensures requested <= RoundUp(requested) < requested + SECTOR_SIZE
    ensures RoundUp(requested) == 0 <==> requested == 0
  {
  }

  // ---- First fit ----

  predicate Sorted(leases: seq<Lease>) {
    forall i, j :: 0 <= i < j < |leases| ==> leases[i].offset <= leases[j].offset
  }

  /** The scan: the cursor moves past each lease that the block would run into. */
  function Scan(leases: seq<Lease>, cursor: nat, length: nat, size: nat): Option<nat>
    decreases |leases|
  {
    if leases == [] then if cursor + length <= size then Some(cursor) else None
    else if cursor + length <= leases[0].offset then Some(cursor)
    else Scan(leases[1..], Max(cursor, leases[0].End()), length, size)
  }

  /** A block of `length` bytes at `at` lies in the buffer and meets no lease. */
  predicate Fits(leases: seq<Lease>, at: int, length: nat, size: nat) {
    0 <= at && at + length <= size && forall i :: 0 <= i < |leases| ==> !leases[i].Meets(at, length)
  }

  predicate Placed(leases: seq<Lease>, size: nat) {
    forall i :: 0 <= i < |leases| ==> leases[i].length > 0 && leases[i].End() <= size
  }

  lemma {:induction false} ScanLeast(passed: seq<Lease>, rest: seq<Lease>, cursor: nat, length: nat, size: nat)
    requires length > 0 && Sorted(rest) && Placed(rest, size)
    requires forall i :: 0 <= i < |passed| ==> passed[i].End() <= cursor
    requires forall at :: at < cursor ==> !Fits(passed, at, length, size)
    ensures match Scan(rest, cursor, length, size)
            case Some(found) =>
              && Fits(passed + rest, found, length, size)
              && forall at :: at < found ==> !Fits(passed + rest, at, length, size)
            case None => forall at :: !Fits(passed + rest, at, length, size)
    decreases |rest|
  {
    var all := passed + rest;
    forall at | Fits(all, at, length, size) ensures Fits(passed, at, length, size) {
      assert forall i :: 0 <= i < |passed| ==> all[i] == passed[i];
    }
    if rest == [] {
      assert all == passed;
    } else if cursor + length > rest[0].offset {
      var first, further := rest[0], rest[1..];
      var next := Max(cursor, first.End());
      forall at | Fits(passed + [first], at, length, size) ensures at >= next {
        assert (passed + [first])[|passed|] == first;
        assert Fits(passed, at, length, size) by {
          assert forall i :: 0 <= i < |passed| ==> (passed + [first])[i] == passed[i];
        }
      }
      assert passed + [first] + further == all;
      ScanLeast(passed + [first], further, next, length, size);
    }
  }

  /** First fit is complete and least: over any leases in offset order, overlapping or not, it
      finds the smallest offset at which the block fits, and fails only if it fits nowhere. */
  lemma FirstFit(leases: seq<Lease>, length: nat, size: nat)
    requires length > 0 && Sorted(leases) && Placed(leases, size)
    ensures match Scan(leases, 0, length, size)
            case Some(found) =>
              && Fits(leases, found, length, size)
              && forall at :: Fits(leases, at, length, size) ==> found <= at
            case None => forall at :: !Fits(leases, at, length, size)
  {
    ScanLeast([], leases, 0, length, size);
    assert [] + leases == leases;
  }

  /** The found block starts at a sector boundary if every lease ends at one. */
  lemma {:induction false} ScanAligned(leases: seq<Lease>, cursor: nat, length: nat, size: nat)
    requires cursor % SECTOR_SIZE == 0
    requires forall i :: 0 <= i < |leases| ==> leases[i].End() % SECTOR_SIZE == 0
    ensures var found := Scan(leases, cursor, length, size); found.Some? ==> found.value % SECTOR_SIZE == 0
    decreases |leases|
  {
    if leases != [] && cursor + length > leases[0].offset {
      ScanAligned(leases[1..], Max(cursor, leases[0].End()), length, size);
    }
  }

  // ---- Tables of leases ----

  type Table = map<nat, Lease>

  /** Every lease is a run of whole sectors inside the buffer, under an id already given out. */
  predicate WellPlaced(t: Table, size: nat, nextId: nat) {
    forall id :: id in t ==>
      && id < nextId
      && t[id].length > 0 && t[id].End() <= size
      && t[id].offset % SECTOR_SIZE == 0 && t[id].length % SECTOR_SIZE == 0
  }

  /** No two leases alive at the same moment share a byte. */
  predicate AliveDisjoint(t: Table, now: real) {
    forall i, j :: i in t && j in t && i != j && t[i].Alive(now) && t[j].Alive(now) ==>
      !t[i].Meets(t[j].offset, t[j].length)
  }

  /** No two leases share a byte, expired or not. */
  predicate AllDisjoint(t: Table) {
    forall i, j :: i in t && j in t && i != j ==> !t[i].Meets(t[j].offset, t[j].length)
  }

  /** The block lies in the buffer and meets none of the leases named by `ids`. */
  predicate Free(t: Table, ids: set<nat>, at: int, length: nat, size: nat)
    requires ids <= t.Keys
  {
    0 <= at && at + length <= size && forall id :: id in ids ==> !t[id].Meets(at, length)
  }

  /** `found` is the smallest free place for the block, and None only when there is none. */
  ghost predicate IsFirstFit(t: Table, ids: set<nat>, length: nat, size: nat, found: Option<nat>)
    requires ids <= t.Keys
  {
    match found
    case Some(o) => Free(t, ids, o, length, size) && forall at :: Free(t, ids, at, length, size) ==> o <= at
    case None => forall at :: !Free(t, ids, at, length, size)
  }

  predicate Named(t: Table, ids: set<nat>, lease: Lease)
    requires ids <= t.Keys
  {
    exists id :: id in ids && t[id] == lease
  }

  /** The list has the leases named by `ids`, and no others. */
  predicate Lists(leases: seq<Lease>, t: Table, ids: set<nat>)
    requires ids <= t.Keys
  {
    && (forall id :: id in ids ==> t[id] in leases)
    && (forall i :: 0 <= i < |leases| ==> Named(t, ids, leases[i]))
  }

  lemma ListFits(leases: seq<Lease>, t: Table, ids: set<nat>, at: int, length: nat, size: nat)
    requires ids <= t.Keys && Lists(leases, t, ids)
    ensures Fits(leases, at, length, size) <==> Free(t, ids, at, length, size)
  {
    if Free(t, ids, at, length, size) {
      forall i | 0 <= i < |leases| ensures !leases[i].Meets(at, length) {
        assert Named(t, ids, leases[i]);
      }
    }
  }

  /** The scan of the leases in offset order is a first fit on the table. */
  lemma ScanIsFirstFit(leases: seq<Lease>, t: Table, ids: set<nat>, length: nat, size: nat, nextId: nat)
    requires length > 0 && ids <= t.Keys && Lists(leases, t, ids) && Sorted(leases) && WellPlaced(t, size, nextId)
    ensures IsFirstFit(t, ids, length, size, Scan(leases, 0, length, size))
  {
    assert Placed(leases, size) by {
      forall i | 0 <= i < |leases| ensures leases[i].length > 0 && leases[i].End() <= size {
        assert Named(t, ids, leases[i]);
      }
    }
    FirstFit(leases, length, size);
    forall at ensures Fits(leases, at, length, size) <==> Free(t, ids, at, length, size) {
      ListFits(leases, t, ids, at, length, size);
    }
  }

  /** A first fit starts at a sector boundary: at 0 or where a lease ends. */
  lemma FirstFitAligned(t: Table, ids: set<nat>, length: nat, size: nat, nextId: nat, o: nat)
    requires ids <= t.Keys && WellPlaced(t, size, nextId) && length > 0
    requires IsFirstFit(t, ids, length, size, Some(o))
    ensures o % SECTOR_SIZE == 0
  {
    if o > 0 {
      assert !Free(t, ids, o - 1, length, size);
      var id :| id in ids && t[id].Meets(o - 1, length);
      assert t[id].End() == o;
    }
  }

  /** A cleanup between `from` and `to` drops only leases that have expired by `to`, and all that had
      expired by `from`. */
  predicate Cleaned(t: Table, dropped: set<nat>, from: real, to: real) {
    && dropped <= t.Keys
    && (forall id :: id in dropped ==> !t[id].Alive(to))
    && (forall id :: id in t && id !in dropped ==> t[id].Alive(from))
  }

  /** `u` has no lease that `t` has not, up to expiry times. */
  predicate Within(u: Table, t: Table) {
    forall id :: id in u ==> id in t && u[id].offset == t[id].offset && u[id].length == t[id].length
  }

  lemma WithinKeeps(u: Table, t: Table, size: nat, nextId: nat)
    requires Within(u, t)
    ensures WellPlaced(t, size, nextId) ==> WellPlaced(u, size, nextId)
    ensures AllDisjoint(t) ==> AllDisjoint(u)
  {
  }

  /** Leases stay apart as long as none is alive later that was not alive before. */
  lemma StillApart(t: Table, u: Table, before: real, after: real)
    requires AliveDisjoint(t, before) && Within(u, t)
    requires forall id :: id in u && u[id].Alive(after) ==> t[id].Alive(before)
    ensures AliveDisjoint(u, after)
  {
  }

  /** A first fit depends on the leases it looks at and on no other. */
  lemma FirstFitWithin(t: Table, u: Table, ids: set<nat>, length: nat, size: nat, found: Option<nat>)
    requires ids <= t.Keys && ids <= u.Keys && forall id :: id in ids ==> t[id] == u[id]
    requires IsFirstFit(t, ids, length, size, found)
    ensures IsFirstFit(u, ids, length, size, found)
  {
    assert forall at :: Free(t, ids, at, length, size) <==> Free(u, ids, at, length, size);
  }

  // ---- Conservation ----

  function AliveLength(t: Table, now: real, n: nat): nat {
    if n == 0 then 0
    else (if n - 1 in t && t[n - 1].Alive(now) then t[n - 1].length else 0) + AliveLength(t, now, n - 1)
  }

  function Range(low: nat, high: nat): (r: set<nat>)
    requires low <= high
    ensures |r| == high - low
    ensures forall i :: i in r <==> low <= i < high
    decreases high
  {
    if low == high then {} else Range(low, high - 1) + {high - 1}
  }

  /** The offsets of the lease with that id, if it is alive. */
  function Block(t: Table, now: real, id: nat): (r: set<nat>)
    ensures |r| == if id in t && t[id].Alive(now) then t[id].length else 0
  {
    if id in t && t[id].Alive(now) then Range(t[id].offset, t[id].End()) else {}
  }

  /** The offsets held by the alive leases with an id below `n`. */
  function Held(t: Table, now: real, n: nat): set<nat> {
    if n == 0 then {} else Block(t, now, n - 1) + Held(t, now, n - 1)
  }

  lemma BlocksApart(t: Table, now: real, i: nat, j: nat)
    requires AliveDisjoint(t, now) && i != j
    ensures Block(t, now, i) !! Block(t, now, j)
  {
    hide Range;
    if i in t && j in t {
      assert t[i].Meets(t[j].offset, t[j].length) || Block(t, now, i) !! Block(t, now, j);
    }
  }

  lemma {:induction false} HeldApart(t: Table, now: real, n: nat, id: nat)
    requires AliveDisjoint(t, now) && n <= id
    ensures Held(t, now, n) !! Block(t, now, id)
  {
    hide AliveDisjoint, Block, Range;
    if n > 0 {
      HeldApart(t, now, n - 1, id);
      BlocksApart(t, now, n - 1, id);
    }
  }

  lemma {:induction false} HeldSize(t: Table, now: real, n: nat)
    requires AliveDisjoint(t, now)
    ensures |Held(t, now, n)| == AliveLength(t, now, n)
  {
    hide AliveDisjoint, Block, Range;
    if n > 0 {
      HeldSize(t, now, n - 1);
      HeldApart(t, now, n - 1, n - 1);
    }
  }

  lemma {:induction false} HeldInside(t: Table, now: real, n: nat, size: nat, nextId: nat)
    requires WellPlaced(t, size, nextId)
    ensures Held(t, now, n) <= Range(0, size)
  {
    hide Range;
    if n > 0 {
      HeldInside(t, now, n - 1, size, nextId);
    }
  }

  /** The lengths of the leases alive at one moment sum to at most the size of the buffer. */
  lemma Conservation(t: Table, now: real, size: nat, nextId: nat)
    requires WellPlaced(t, size, nextId) && AliveDisjoint(t, now)
    ensures AliveLength(t, now, nextId) <= size
  {
    hide WellPlaced, AliveDisjoint, Held, Range;
    HeldSize(t, now, nextId);
    HeldInside(t, now, nextId, size, nextId);
    var held, all := Held(t, now, nextId), Range(0, size);
    assert all == held + (all - held);
  }
}
