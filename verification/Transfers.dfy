/** The chunked reads and writes of the client that keeps one lease, over a network that may break at
    every request, and exactly when they do what they were asked to. */
module Transfers {
  import opened Bytes
  import opened ServiceSpec
  import Leases
  import AllocatorRuns
  import AllocatorSpec

  datatype Ask = AskRead(n: nat) | AskWrite(data: bytes) {
    function Size(): nat {
      if AskRead? then n else |data|
    }
  }

  /** A request as it leaves the client: an access at an absolute address, a BORROW with the grant that
      came back, a KEEPALIVE, a RELEASE. */
  datatype Message =
    | Access(address: nat, ask: Ask)
    | Lend(length: nat, reply: Option<Grant>)
    | Renew(id: nat)
    | GiveBack(id: nat)

  // ---- One request ----

  /** The server's memory once the request is served, or not. */
  function Served(memory: bytes, address: nat, ask: Ask, served: bool): (after: bytes)
    ensures |after| == |memory|
  {
    if served && ask.AskWrite? && address + |ask.data| <= |memory| then Splice(memory, address, ask.data) else memory
  }

  predicate Granted(size: nat, g: Grant) {
    g.base + g.length <= size
  }

  /** A grant zeroes its block. */
  function Zeroed(memory: bytes, g: Grant): (after: bytes)
    ensures |after| == |memory|
  {
    if Granted(|memory|, g) then Splice(memory, g.base, Zeros(g.length)) else memory
  }

  function MemoryAfter(memory: bytes, address: nat, ask: Ask, luck: Luck): (after: bytes)
    ensures |after| == |memory|
  {
    match luck
    case AtOnce => Served(memory, address, ask, true)
    case NoLease(first) => Served(memory, address, ask, first)
    case Retried(first, g, served, _) => Served(Zeroed(Served(memory, address, ask, first), g), address, ask, served)
  }

  /** The requests sent: without a socket no first one; before a retry a BORROW of `want` bytes, and the
      retry has the address of the first attempt. */
  function Attempts(connected: bool, want: nat, address: nat, ask: Ask, luck: Luck): seq<Message> {
    var first := if connected then [Access(address, ask)] else [];
    match luck
    case AtOnce => first
    case NoLease(_) => first + [Lend(want, None)]
    case Retried(_, g, _, _) => first + [Lend(want, Some(g)), Access(address, ask)]
  }

  /** Without a socket nothing works at once, and no first attempt is served. */
  predicate Reachable(connected: bool, luck: Luck) {
    connected || (match luck case AtOnce => false case NoLease(first) => !first case Retried(first, _, _, _) => !first)
  }

  /** What can happen on a buffer of `size` bytes to a client that borrows `want` bytes at a time: only
      a request inside the buffer is answered, and only a block inside the buffer is granted. */
  predicate Possible(size: nat, want: nat, address: nat, n: nat, luck: Luck) {
    match luck
    case AtOnce => address + n <= size
    case NoLease(_) => true
    case Retried(_, g, served, works) =>
      Granted(size, g) && g.length == want && (works ==> served && address + n <= size)
  }

  // ---- Chunks ----

  /** How many of `total` bytes the first `k` chunks cover. */
  function Reach(total: nat, k: nat): (r: nat)
    ensures r <= total
  {
    if k == 0 then 0 else Min(total, Reach(total, k - 1) + MAX_TRANSFER)
  }

  /** Chunk `k` starts at `k` transfers, is small enough for the provider, and lies in the lease if the
      whole range does: it passes the provider's check as long as the lease is alive. */
  lemma {:induction false} ChunkPasses(offset: nat, total: nat, lease: Leases.Lease, k: nat)
    requires offset + total <= lease.length && Reach(total, k) < total
    ensures Reach(total, k) == k * MAX_TRANSFER
    ensures var n := Reach(total, k + 1) - Reach(total, k);
            && 0 < n <= MAX_TRANSFER
            && AllocatorSpec.Covers(lease, lease.offset + offset + Reach(total, k), n)
  {
    if k > 0 {
      ChunkPasses(offset, total, lease, k - 1);
    }
  }

  // ---- The loops ----

  /** The client after its requests. */
  function After(c: Client, lucks: seq<Luck>): Client {
    if lucks == [] then c else Step(After(c, lucks[..|lucks| - 1]), Request(lucks[|lucks| - 1]))
  }

  /** Where chunk `|lucks|` goes: the base is read anew for every chunk. */
  function Address(c: Client, offset: nat, total: nat, lucks: seq<Luck>): nat {
    After(c, lucks).base + offset + Reach(total, |lucks|)
  }

  /** The part of the data in chunk `k`. */
  function Piece(data: bytes, k: nat): (p: bytes)
    ensures |p| == Reach(|data|, k + 1) - Reach(|data|, k)
  {
    data[Reach(|data|, k)..Reach(|data|, k + 1)]
  }

  function PieceSize(total: nat, k: nat): nat {
    Reach(total, k + 1) - Reach(total, k)
  }

  /** The server's memory after the first chunks of a write. */
  function Written(c: Client, memory: bytes, offset: nat, data: bytes, lucks: seq<Luck>): (after: bytes)
    ensures |after| == |memory|
  {
    if lucks == [] then memory
    else
      var k := |lucks| - 1;
      MemoryAfter(Written(c, memory, offset, data, lucks[..k]), Address(c, offset, |data|, lucks[..k]),
                  AskWrite(Piece(data, k)), lucks[k])
  }

  /** The server's memory after the first chunks of a read, and the bytes read. */
  function ReadOver(c: Client, memory: bytes, offset: nat, total: nat, lucks: seq<Luck>): (r: (bytes, bytes))
    ensures |r.0| == |memory|
  {
    if lucks == [] then (memory, [])
    else
      var k := |lucks| - 1;
      var (before, out) := ReadOver(c, memory, offset, total, lucks[..k]);
      var address, n := Address(c, offset, total, lucks[..k]), PieceSize(total, k);
      var after := MemoryAfter(before, address, AskRead(n), lucks[k]);
      (after, if address + n <= |memory| then out + Slice(after, address, n) else out)
  }

  /** The requests that a write sends. */
  function WriteAsks(c: Client, want: nat, offset: nat, data: bytes, lucks: seq<Luck>): seq<Message> {
    if lucks == [] then []
    else
      var k := |lucks| - 1;
      WriteAsks(c, want, offset, data, lucks[..k])
      + Attempts(After(c, lucks[..k]).connected, want, Address(c, offset, |data|, lucks[..k]), AskWrite(Piece(data, k)),
                 lucks[k])
  }

  function ReadAsks(c: Client, want: nat, offset: nat, total: nat, lucks: seq<Luck>): seq<Message> {
    if lucks == [] then []
    else
      var k := |lucks| - 1;
      ReadAsks(c, want, offset, total, lucks[..k])
      + Attempts(After(c, lucks[..k]).connected, want, Address(c, offset, total, lucks[..k]),
                 AskRead(PieceSize(total, k)), lucks[k])
  }

  /** What can happen to the first chunks of a transfer; all but the last got an answer. */
  predicate Progress(size: nat, want: nat, c: Client, offset: nat, total: nat, lucks: seq<Luck>) {
    lucks == [] ||
    var k := |lucks| - 1;
    && Progress(size, want, c, offset, total, lucks[..k])
    && (k > 0 ==> lucks[k - 1].Works())
    && Reach(total, k) < total
    && Reachable(After(c, lucks[..k]).connected, lucks[k])
    && Possible(size, want, Address(c, offset, total, lucks[..k]), PieceSize(total, k), lucks[k])
  }

  /** What can happen to the first chunks when each of them got an answer. */
  predicate Answered(size: nat, want: nat, c: Client, offset: nat, total: nat, lucks: seq<Luck>) {
    && Progress(size, want, c, offset, total, lucks)
    && (lucks != [] ==> lucks[|lucks| - 1].Works())
  }

  /** Every chunk got an answer. */
  predicate Completed(size: nat, want: nat, c: Client, offset: nat, total: nat, lucks: seq<Luck>) {
    Answered(size, want, c, offset, total, lucks) && Reach(total, |lucks|) == total
  }

  /** Nothing broke. */
  predicate Calm(lucks: seq<Luck>) {
    forall k :: 0 <= k < |lucks| ==> lucks[k].AtOnce?
  }

  lemma {:induction false} AnsweredWorks(size: nat, want: nat, c: Client, offset: nat, total: nat, lucks: seq<Luck>)
    requires Answered(size, want, c, offset, total, lucks)
    ensures forall k :: 0 <= k < |lucks| ==> lucks[k].Works()
  {
    hide Possible, Reach;
    if lucks != [] {
      AnsweredWorks(size, want, c, offset, total, lucks[..|lucks| - 1]);
    }
  }

  lemma {:induction false} CalmClient(c: Client, lucks: seq<Luck>)
    requires Calm(lucks)
    ensures After(c, lucks) == c
  {
    if lucks != [] {
      CalmClient(c, lucks[..|lucks| - 1]);
    }
  }

  lemma CalmLast(size: nat, want: nat, c: Client, offset: nat, total: nat, lucks: seq<Luck>, ask: Ask)
    requires Answered(size, want, c, offset, total, lucks) && Calm(lucks) && lucks != []
    ensures var k := |lucks| - 1;
            Attempts(After(c, lucks[..k]).connected, want, Address(c, offset, total, lucks[..k]), ask, lucks[k])
            == [Access(c.base + offset + Reach(total, k), ask)]
  {
    hide Reach, Step, Possible, After;
    CalmClient(c, lucks[..|lucks| - 1]);
  }

  /** When nothing breaks, chunk `k` is asked for once, at the base plus the offset plus `k` transfers. */
  lemma {:induction false} CalmWriteAsks(size: nat, want: nat, c: Client, offset: nat, data: bytes, lucks: seq<Luck>)
    requires Answered(size, want, c, offset, |data|, lucks) && Calm(lucks)
    ensures var asks := WriteAsks(c, want, offset, data, lucks);
            && |asks| == |lucks|
            && forall k :: 0 <= k < |lucks| ==>
                 asks[k] == Access(c.base + offset + Reach(|data|, k), AskWrite(Piece(data, k)))
  {
    hide Reach, Piece, Step, Possible, After, Attempts, Address;
    if lucks != [] {
      var k := |lucks| - 1;
      AnsweredFront(size, want, c, offset, |data|, lucks);
      CalmLast(size, want, c, offset, |data|, lucks, AskWrite(Piece(data, k)));
      CalmWriteAsks(size, want, c, offset, data, lucks[..k]);
    }
  }

  lemma {:induction false} CalmReadAsks(size: nat, want: nat, c: Client, offset: nat, total: nat, lucks: seq<Luck>)
    requires Answered(size, want, c, offset, total, lucks) && Calm(lucks)
    ensures var asks := ReadAsks(c, want, offset, total, lucks);
            && |asks| == |lucks|
            && forall k :: 0 <= k < |lucks| ==>
                 asks[k] == Access(c.base + offset + Reach(total, k), AskRead(Reach(total, k + 1) - Reach(total, k)))
  {
    hide Reach, Step, Possible, After, Attempts, Address;
    if lucks != [] {
      var k := |lucks| - 1;
      AnsweredFront(size, want, c, offset, total, lucks);
      CalmLast(size, want, c, offset, total, lucks, AskRead(PieceSize(total, k)));
      CalmReadAsks(size, want, c, offset, total, lucks[..k]);
    }
  }

  // ---- Writes ----

  /** No chunk was retried but perhaps the first, and then the new lease starts where the old one did. */
  predicate Steady(c: Client, lucks: seq<Luck>) {
    forall k :: 0 <= k < |lucks| && lucks[k].Retried? ==> k == 0 && lucks[k].grant.base == c.base
  }

  /** The client finds the data where it put it. */
  predicate Lands(c: Client, memory: bytes, offset: nat, data: bytes, lucks: seq<Luck>) {
    var base := After(c, lucks).base;
    && base + offset + |data| <= |memory|
    && Slice(Written(c, memory, offset, data, lucks), base + offset, |data|) == data
  }

  lemma StepBase(c: Client, luck: Luck)
    requires luck.Works()
    ensures Step(c, Request(luck)).base == if luck.Retried? then luck.grant.base else c.base
  {
  }

  lemma AnsweredFront(size: nat, want: nat, c: Client, offset: nat, total: nat, lucks: seq<Luck>)
    requires Answered(size, want, c, offset, total, lucks) && lucks != []
    ensures Answered(size, want, c, offset, total, lucks[..|lucks| - 1])
  {
  }

  lemma SliceGrows(before: bytes, at: nat, data: bytes, done: nat, next: nat)
    requires done <= next <= |data| && at + next <= |before|
    requires Slice(before, at, done) == data[..done]
    ensures Slice(Splice(before, at + done, data[done..next]), at, next) == data[..next]
  {
    var after := Splice(before, at + done, data[done..next]);
    SliceBeside(before, at + done, data[done..next], at, done);
    SliceSpliced(before, at + done, data[done..next]);
    SliceInTwo(after, at, done, next - done);
    assert data[..done] + data[done..next] == data[..next];
  }

  /** While the lease stays where it was, the written part reads back. */
  lemma {:induction false} SteadyWrite(size: nat, want: nat, c: Client, memory: bytes, offset: nat, data: bytes,
                                       lucks: seq<Luck>)
    requires |memory| == size && Answered(size, want, c, offset, |data|, lucks) && Steady(c, lucks)
    ensures After(c, lucks).base == c.base
    ensures var done := Reach(|data|, |lucks|);
            done > 0 ==>
              && c.base + offset + done <= size
              && Slice(Written(c, memory, offset, data, lucks), c.base + offset, done) == data[..done]
  {
    hide Splice, Slice, Possible, Step;
    if lucks != [] {
      var k := |lucks| - 1;
      AnsweredFront(size, want, c, offset, |data|, lucks);
      SteadyWrite(size, want, c, memory, offset, data, lucks[..k]);
      StepBase(After(c, lucks[..k]), lucks[k]);
      var before, after := Written(c, memory, offset, data, lucks[..k]), Written(c, memory, offset, data, lucks);
      WriteServed(size, want, before, Address(c, offset, |data|, lucks[..k]), Piece(data, k), lucks[k]);
      if lucks[k].Retried? {
        assert Piece(data, 0) == data[..Reach(|data|, 1)];
        SliceSpliced(Zeroed(Served(before, c.base + offset, AskWrite(Piece(data, 0)), lucks[k].first), lucks[k].grant),
                     c.base + offset, Piece(data, 0));
      } else {
        if k == 0 {
          NothingSliced(before, c.base + offset);
        }
        SliceGrows(before, c.base + offset, data, Reach(|data|, k), Reach(|data|, k + 1));
      }
    }
  }

  lemma NothingSliced(memory: bytes, at: nat)
    ensures at <= |memory| ==> Slice(memory, at, 0) == []
  {
  }

  /** An answered write was carried out last of all. */
  lemma WriteServed(size: nat, want: nat, before: bytes, address: nat, data: bytes, luck: Luck)
    requires |before| == size && Possible(size, want, address, |data|, luck) && luck.Works()
    ensures address + |data| <= size
    ensures MemoryAfter(before, address, AskWrite(data), luck) ==
            Splice(if luck.Retried? then Zeroed(Served(before, address, AskWrite(data), luck.first), luck.grant)
                   else before, address, data)
  {
  }

  /** Ones in the first chunk, then zeros. */
  function FirstMarked(total: nat): (d: bytes)
    ensures |d| == total
  {
    Repeat(1, Reach(total, 1)) + Zeros(total - Reach(total, 1))
  }

  lemma {:induction false} ReachGrows(total: nat, j: nat, k: nat)
    requires j <= k
    ensures Reach(total, j) <= Reach(total, k)
  {
    if j < k {
      ReachGrows(total, j, k - 1);
    }
  }

  lemma LaterPiece(total: nat, k: nat)
    requires k > 0
    ensures Piece(FirstMarked(total), k) == Zeros(PieceSize(total, k))
  {
    hide Reach;
    ReachGrows(total, 1, k);
    ReachGrows(total, k, k + 1);
  }

  lemma FirstPiece(total: nat)
    ensures Piece(FirstMarked(total), 0) == Repeat(1, Reach(total, 1))
  {
  }

  predicate ZeroAt(base: nat, after: bytes, offset: nat, total: nat, t: nat) {
    t < Reach(total, 1) && base + offset + t < |after| && after[base + offset + t] == 0
  }

  /** A client that reads at this base finds a zero in its first chunk. */
  ghost predicate Missed(base: nat, after: bytes, offset: nat, total: nat) {
    exists t: nat :: ZeroAt(base, after, offset, total, t)
  }

  lemma MarkMissing(base: nat, after: bytes, offset: nat, total: nat)
    requires Missed(base, after, offset, total) && base + offset + total <= |after|
    ensures Slice(after, base + offset, total) != FirstMarked(total)
  {
    var t: nat :| ZeroAt(base, after, offset, total, t);
    assert Slice(after, base + offset, total)[t] == 0;
    assert FirstMarked(total)[t] == 1;
  }

  lemma ZeroedAt(memory: bytes, g: Grant, i: nat)
    requires Granted(|memory|, g) && g.base <= i < g.base + g.length
    ensures Zeroed(memory, g)[i] == 0
  {
  }

  /** A first chunk retried under a lease that starts elsewhere is not where the client looks for it. */
  lemma MissedFirst(size: nat, want: nat, c: Client, memory: bytes, offset: nat, total: nat, luck: Luck)
    requires |memory| == size && 0 < total && offset + total <= want
    requires Possible(size, want, c.base + offset, Reach(total, 1), luck) && luck.Works() && luck.Retried?
    requires luck.grant.base != c.base
    ensures var after := MemoryAfter(memory, c.base + offset, AskWrite(Repeat(1, Reach(total, 1))), luck);
            Missed(luck.grant.base, after, offset, total)
  {
    hide Splice, Zeros;
    var g, n, piece := luck.grant, Reach(total, 1), Repeat(1, Reach(total, 1));
    var zeroed := Zeroed(Served(memory, c.base + offset, AskWrite(piece), luck.first), g);
    var t := if c.base > g.base then 0 else n - 1;
    WriteServed(size, want, memory, c.base + offset, piece, luck);
    ZeroedAt(Served(memory, c.base + offset, AskWrite(piece), luck.first), g, g.base + offset + t);
    SpliceAt(zeroed, c.base + offset, piece, g.base + offset + t);
    assert ZeroAt(g.base, MemoryAfter(memory, c.base + offset, AskWrite(piece), luck), offset, total, t);
  }

  /** A later chunk writes zeros, and a later grant zeroes the block: a zero found stays one. */
  lemma MissedLater(size: nat, want: nat, base: nat, before: bytes, address: nat, offset: nat, total: nat, k: nat,
                    luck: Luck)
    requires |before| == size && 0 < total && offset + total <= want && k > 0
    requires Possible(size, want, address, PieceSize(total, k), luck) && luck.Works()
    requires luck.Retried? || Missed(base, before, offset, total)
    ensures var after := MemoryAfter(before, address, AskWrite(Zeros(PieceSize(total, k))), luck);
            Missed(if luck.Retried? then luck.grant.base else base, after, offset, total)
  {
    hide Splice, Reach;
    ReachPositive(total);
    ReachGrows(total, k, k + 1);
    var piece := Zeros(PieceSize(total, k));
    var after := MemoryAfter(before, address, AskWrite(piece), luck);
    WriteServed(size, want, before, address, piece, luck);
    if luck.Retried? {
      var g := luck.grant;
      var zeroed := Zeroed(Served(before, address, AskWrite(piece), luck.first), g);
      ZeroedAt(Served(before, address, AskWrite(piece), luck.first), g, g.base + offset);
      SpliceAt(zeroed, address, piece, g.base + offset);
      assert ZeroAt(g.base, after, offset, total, 0);
    } else {
      var t: nat :| ZeroAt(base, before, offset, total, t);
      SpliceAt(before, address, piece, base + offset + t);
      assert ZeroAt(base, after, offset, total, t);
    }
  }

  lemma ReachPositive(total: nat)
    ensures total > 0 ==> 0 < Reach(total, 1) <= total
  {
  }

  lemma UnsteadyFront(c: Client, lucks: seq<Luck>)
    requires lucks != [] && !Steady(c, lucks) && !lucks[|lucks| - 1].Retried?
    ensures !Steady(c, lucks[..|lucks| - 1])
  {
    var k :| 0 <= k < |lucks| && lucks[k].Retried? && !(k == 0 && lucks[k].grant.base == c.base);
    assert lucks[..|lucks| - 1][k] == lucks[k];
  }

  lemma {:induction false} UnsteadyWrite(size: nat, want: nat, c: Client, memory: bytes, offset: nat, total: nat,
                                         lucks: seq<Luck>)
    requires |memory| == size && 0 < total && offset + total <= want
    requires Answered(size, want, c, offset, total, lucks) && !Steady(c, lucks)
    ensures Missed(After(c, lucks).base, Written(c, memory, offset, FirstMarked(total), lucks), offset, total)
  {
    hide Splice, Slice, Possible, Step, MemoryAfter, FirstMarked, Piece, Reach;
    var k := |lucks| - 1;
    var data := FirstMarked(total);
    AnsweredFront(size, want, c, offset, total, lucks);
    StepBase(After(c, lucks[..k]), lucks[k]);
    var before := Written(c, memory, offset, data, lucks[..k]);
    if k == 0 {
      FirstPiece(total);
      ReachNothing(total);
      MissedFirst(size, want, c, memory, offset, total, lucks[0]);
    } else {
      LaterPiece(total, k);
      if !lucks[k].Retried? {
        UnsteadyFront(c, lucks);
        UnsteadyWrite(size, want, c, memory, offset, total, lucks[..k]);
      }
      MissedLater(size, want, After(c, lucks[..k]).base, before, Address(c, offset, total, lucks[..k]), offset, total,
                  k, lucks[k]);
    }
  }

  lemma ReachNothing(total: nat)
    ensures Reach(total, 0) == 0
  {
  }

  lemma SteadyLands(size: nat, want: nat, c: Client, memory: bytes, offset: nat, data: bytes, lucks: seq<Luck>)
    requires |memory| == size && data != []
    requires Completed(size, want, c, offset, |data|, lucks) && Steady(c, lucks)
    ensures Lands(c, memory, offset, data, lucks)
  {
    hide Splice, Written, After, Reach, Progress, Steady;
    SteadyWrite(size, want, c, memory, offset, data, lucks);
    assert data[..|data|] == data;
  }

  /** Exactly when a write that was answered throughout has landed, whatever its data: if no chunk was
      retried, or only the first, under a lease that starts where the old one did. Otherwise the client
      misses data that it was told was written, whatever the memory held. */
  lemma WriteLandsIff(size: nat, want: nat, c: Client, memory: bytes, offset: nat, total: nat, lucks: seq<Luck>)
    requires |memory| == size && 0 < total && offset + total <= want
    requires Completed(size, want, c, offset, total, lucks)
    ensures Steady(c, lucks) <==> forall data: bytes :: |data| == total ==> Lands(c, memory, offset, data, lucks)
  {
    hide Splice, Written, After, Reach, Progress, Steady;
    if Steady(c, lucks) {
      forall data: bytes | |data| == total ensures Lands(c, memory, offset, data, lucks) {
        SteadyLands(size, want, c, memory, offset, data, lucks);
      }
    } else {
      var data := FirstMarked(total);
      UnsteadyWrite(size, want, c, memory, offset, total, lucks);
      if After(c, lucks).base + offset + total <= size {
        MarkMissing(After(c, lucks).base, Written(c, memory, offset, data, lucks), offset, total);
      }
      assert !Lands(c, memory, offset, data, lucks);
    }
  }

  /** If nothing broke, a write is one slice assignment, and changes nothing of the client. */
  lemma {:induction false} CalmWrite(size: nat, want: nat, c: Client, memory: bytes, offset: nat, data: bytes,
                                     lucks: seq<Luck>)
    requires |memory| == size && Answered(size, want, c, offset, |data|, lucks) && Calm(lucks)
    ensures After(c, lucks) == c
    ensures var done := Reach(|data|, |lucks|);
            if done == 0 then Written(c, memory, offset, data, lucks) == memory
            else
              && c.base + offset + done <= size
              && Written(c, memory, offset, data, lucks) == Splice(memory, c.base + offset, data[..done])
  {
    hide Splice, Possible, Step, MemoryAfter;
    CalmClient(c, lucks);
    if lucks != [] {
      var k := |lucks| - 1;
      AnsweredFront(size, want, c, offset, |data|, lucks);
      CalmWrite(size, want, c, memory, offset, data, lucks[..k]);
      ReachGrows(|data|, k, k + 1);
      var before := Written(c, memory, offset, data, lucks[..k]);
      WriteServed(size, want, before, Address(c, offset, |data|, lucks[..k]), Piece(data, k), lucks[k]);
      var done, next := Reach(|data|, k), Reach(|data|, k + 1);
      assert data[..next][..done] == data[..done] && data[..next][done..] == Piece(data, k);
      if done > 0 {
        SpliceInTwo(memory, c.base + offset, data[..next], done);
      }
    }
  }

  // ---- Reads ----

  predicate Inside(g: Grant, address: nat, n: nat) {
    g.base <= address && address + n <= g.base + g.length
  }

  /** No chunk was retried; or the first was, and the place it was read from, which is that of the old
      lease, lies in the new one. */
  predicate Settled(c: Client, offset: nat, total: nat, lucks: seq<Luck>) {
    Calm(lucks) || (lucks != [] && lucks[0].Retried? && Inside(lucks[0].grant, c.base + offset, Reach(total, 1)))
  }

  /** The bytes read are those that the client's lease has in the end. */
  predicate Sees(c: Client, memory: bytes, offset: nat, total: nat, lucks: seq<Luck>) {
    var base, (after, out) := After(c, lucks).base, ReadOver(c, memory, offset, total, lucks);
    base + offset + total <= |memory| && out == Slice(after, base + offset, total)
  }

  /** An answered read takes the bytes of the memory as they then are. */
  lemma ReadServed(size: nat, want: nat, before: bytes, address: nat, n: nat, luck: Luck)
    requires |before| == size && Possible(size, want, address, n, luck) && luck.Works()
    ensures address + n <= size
    ensures MemoryAfter(before, address, AskRead(n), luck) ==
            if luck.Retried? then Zeroed(before, luck.grant) else before
  {
  }

  /** Without a retry a read is one slice of the lease, and changes nothing. */
  lemma {:induction false} CalmRead(size: nat, want: nat, c: Client, memory: bytes, offset: nat, total: nat,
                                    lucks: seq<Luck>)
    requires |memory| == size && Answered(size, want, c, offset, total, lucks) && Calm(lucks)
    ensures After(c, lucks) == c
    ensures var (after, out) := ReadOver(c, memory, offset, total, lucks); var done := Reach(total, |lucks|);
            && after == memory
            && if done == 0 then out == []
               else c.base + offset + done <= size && out == Slice(memory, c.base + offset, done)
  {
    hide Slice, Possible, Step, MemoryAfter;
    CalmClient(c, lucks);
    if lucks != [] {
      var k := |lucks| - 1;
      AnsweredFront(size, want, c, offset, total, lucks);
      CalmRead(size, want, c, memory, offset, total, lucks[..k]);
      ReachGrows(total, k, k + 1);
      ReadServed(size, want, memory, c.base + offset + Reach(total, k), PieceSize(total, k), lucks[k]);
      if Reach(total, k) > 0 {
        SliceInTwo(memory, c.base + offset, Reach(total, k), PieceSize(total, k));
      }
    }
  }

  predicate ZeroBlock(memory: bytes, base: nat, n: nat) {
    base + n <= |memory| && forall i :: base <= i < base + n ==> memory[i] == 0
  }

  lemma ZeroedBlock(memory: bytes, g: Grant)
    requires Granted(|memory|, g)
    ensures ZeroBlock(Zeroed(memory, g), g.base, g.length)
    ensures forall i :: 0 <= i < |memory| && memory[i] == 0 ==> Zeroed(memory, g)[i] == 0
  {
  }

  lemma ZeroSlice(memory: bytes, base: nat, n: nat, address: nat, m: nat)
    requires ZeroBlock(memory, base, n) && base <= address && address + m <= base + n
    ensures Slice(memory, address, m) == Zeros(m)
  {
  }

  /** After a retry the client's lease holds zeros, as long as it only reads. */
  lemma {:induction false} LatestZero(size: nat, want: nat, c: Client, memory: bytes, offset: nat, total: nat,
                                      lucks: seq<Luck>)
    requires |memory| == size && Answered(size, want, c, offset, total, lucks)
    requires exists k :: 0 <= k < |lucks| && lucks[k].Retried?
    ensures ZeroBlock(ReadOver(c, memory, offset, total, lucks).0, After(c, lucks).base, want)
  {
    hide Splice, Slice, Possible, Step, MemoryAfter, ZeroBlock, Zeroed;
    var k := |lucks| - 1;
    AnsweredFront(size, want, c, offset, total, lucks);
    StepBase(After(c, lucks[..k]), lucks[k]);
    var before := ReadOver(c, memory, offset, total, lucks[..k]).0;
    ReadServed(size, want, before, Address(c, offset, total, lucks[..k]), PieceSize(total, k), lucks[k]);
    if lucks[k].Retried? {
      GrantedHere(size, want, Address(c, offset, total, lucks[..k]), PieceSize(total, k), lucks[k]);
      ZeroedBlock(before, lucks[k].grant);
    } else {
      var j :| 0 <= j < |lucks| && lucks[j].Retried?;
      assert lucks[..k][j].Retried?;
      LatestZero(size, want, c, memory, offset, total, lucks[..k]);
    }
  }

  lemma GrantedHere(size: nat, want: nat, address: nat, n: nat, luck: Luck)
    requires Possible(size, want, address, n, luck) && luck.Retried?
    ensures Granted(size, luck.grant) && luck.grant.length == want
  {
  }

  /** If the first chunk was retried inside the new lease, everything reads as zeros. */
  lemma {:induction false} SettledRead(size: nat, want: nat, c: Client, memory: bytes, offset: nat, total: nat,
                                       lucks: seq<Luck>)
    requires |memory| == size && Answered(size, want, c, offset, total, lucks) && offset + total <= want
    requires lucks != [] && lucks[0].Retried? && Inside(lucks[0].grant, c.base + offset, Reach(total, 1))
    ensures ReadOver(c, memory, offset, total, lucks).1 == Zeros(Reach(total, |lucks|))
  {
    hide Splice, Slice, Possible, Step, MemoryAfter, ZeroBlock, Zeroed;
    var k := |lucks| - 1;
    AnsweredFront(size, want, c, offset, total, lucks);
    ReachGrows(total, k, k + 1);
    var (before, out) := ReadOver(c, memory, offset, total, lucks[..k]);
    var address, n := Address(c, offset, total, lucks[..k]), PieceSize(total, k);
    ReadServed(size, want, before, address, n, lucks[k]);
    if k == 0 {
      GrantedHere(size, want, address, n, lucks[0]);
      ZeroedBlock(memory, lucks[0].grant);
      ZeroSlice(Zeroed(memory, lucks[0].grant), lucks[0].grant.base, want, address, n);
      assert [] + Zeros(n) == Zeros(n);
      return;
    }
    assert lucks[..k][0] == lucks[0];
    SettledRead(size, want, c, memory, offset, total, lucks[..k]);
    LatestZero(size, want, c, memory, offset, total, lucks[..k]);
    var base := After(c, lucks[..k]).base;
    if lucks[k].Retried? {
      GrantedHere(size, want, address, n, lucks[k]);
      ZeroedBlock(before, lucks[k].grant);
      StillZero(before, lucks[k].grant, base, want);
      ZeroSlice(Zeroed(before, lucks[k].grant), base, want, address, n);
    } else {
      ZeroSlice(before, base, want, address, n);
    }
    assert Zeros(Reach(total, k)) + Zeros(n) == Zeros(Reach(total, k + 1));
  }

  lemma StillZero(memory: bytes, g: Grant, base: nat, n: nat)
    requires ZeroBlock(memory, base, n) && Granted(|memory|, g)
    ensures ZeroBlock(Zeroed(memory, g), base, n)
  {
    ZeroedBlock(memory, g);
  }

  predicate OneAt(out: bytes, total: nat, j: nat) {
    j < Reach(total, 1) && j < |out| && out[j] == 1
  }

  /** Over a memory of ones, an unsettled read finds a one in its first chunk. */
  lemma {:induction false} FirstOne(size: nat, want: nat, c: Client, offset: nat, total: nat, lucks: seq<Luck>)
    returns (j: nat)
    requires Answered(size, want, c, offset, total, lucks) && lucks != [] && total > 0
    requires !(lucks[0].Retried? && Inside(lucks[0].grant, c.base + offset, Reach(total, 1)))
    ensures OneAt(ReadOver(c, Repeat(1, size), offset, total, lucks).1, total, j)
  {
    hide Possible, Step, Zeroed, Splice;
    var k := |lucks| - 1;
    AnsweredFront(size, want, c, offset, total, lucks);
    if k == 0 {
      j := FirstChunkOne(size, want, c.base + offset, Reach(total, 1), lucks[0]);
      ReadServed(size, want, Repeat(1, size), c.base + offset, Reach(total, 1), lucks[0]);
    } else {
      assert lucks[..k][0] == lucks[0];
      j := FirstOne(size, want, c, offset, total, lucks[..k]);
    }
  }

  lemma FirstChunkOne(size: nat, want: nat, address: nat, n: nat, luck: Luck) returns (j: nat)
    requires Possible(size, want, address, n, luck) && luck.Works() && n > 0
    requires !(luck.Retried? && Inside(luck.grant, address, n))
    ensures address + n <= size && j < n
    ensures (if luck.Retried? then Zeroed(Repeat(1, size), luck.grant) else Repeat(1, size))[address + j] == 1
  {
    j := if luck.Retried? && address >= luck.grant.base then n - 1 else 0;
  }

  lemma SettledSees(size: nat, want: nat, c: Client, memory: bytes, offset: nat, total: nat, lucks: seq<Luck>)
    requires |memory| == size && 0 < total && offset + total <= want
    requires Completed(size, want, c, offset, total, lucks) && Settled(c, offset, total, lucks)
    ensures Sees(c, memory, offset, total, lucks)
  {
    hide Slice, ReadOver, After, Reach, Progress, Inside;
    ReachNothing(total);
    if Calm(lucks) {
      CalmRead(size, want, c, memory, offset, total, lucks);
      return;
    }
    LatestZero(size, want, c, memory, offset, total, lucks);
    SettledRead(size, want, c, memory, offset, total, lucks);
    var after := ReadOver(c, memory, offset, total, lucks).0;
    ZeroSlice(after, After(c, lucks).base, want, After(c, lucks).base + offset, total);
  }

  /** Exactly when a read that was answered throughout returns, whatever the memory held, what the
      client's lease holds in the end. */
  lemma ReadSeesIff(size: nat, want: nat, c: Client, offset: nat, total: nat, lucks: seq<Luck>)
    requires 0 < total && offset + total <= want && Completed(size, want, c, offset, total, lucks)
    ensures Settled(c, offset, total, lucks) <==>
            forall memory: bytes :: |memory| == size ==> Sees(c, memory, offset, total, lucks)
  {
    hide Slice, ReadOver, After, Reach, Progress, Inside;
    if Settled(c, offset, total, lucks) {
      forall memory: bytes | |memory| == size ensures Sees(c, memory, offset, total, lucks) {
        SettledSees(size, want, c, memory, offset, total, lucks);
      }
      return;
    }
    ReachNothing(total);
    AnsweredWorks(size, want, c, offset, total, lucks);
    var memory := Repeat(1, size);
    var j := FirstOne(size, want, c, offset, total, lucks);
    LatestZero(size, want, c, memory, offset, total, lucks);
    var (after, out) := ReadOver(c, memory, offset, total, lucks);
    ReachWithin(total);
    ZeroSlice(after, After(c, lucks).base, want, After(c, lucks).base + offset, total);
    assert Zeros(total)[j] == 0;
    assert !Sees(c, memory, offset, total, lucks);
  }

  lemma ReachWithin(total: nat)
    ensures Reach(total, 1) <= total
  {
  }

  /** A write that has landed, and a read after it without a retry, return the data. */
  lemma WriteThenRead(size: nat, want: nat, c: Client, memory: bytes, offset: nat, data: bytes, writing: seq<Luck>,
                      reading: seq<Luck>)
    requires |memory| == size && Completed(size, want, c, offset, |data|, writing) && Steady(c, writing)
    requires Completed(size, want, After(c, writing), offset, |data|, reading)
    requires Calm(reading)
    ensures ReadOver(After(c, writing), Written(c, memory, offset, data, writing), offset, |data|, reading).1 == data
  {
    hide Slice, ReadOver, Written, After, Reach, Progress;
    var middle := Written(c, memory, offset, data, writing);
    SteadyWrite(size, want, c, memory, offset, data, writing);
    CalmRead(size, want, After(c, writing), middle, offset, |data|, reading);
    assert data[..|data|] == data;
  }

  // ---- Where a new lease can lie ----

  /** As long as the lease that the client lost is still alive when the server stamps the new one, the
      new block starts elsewhere and has no byte of the range that the retry goes to. Then a retried
      write does not land, and a retried read does not see the new lease: only once the old lease has
      run out can a retry hit. */
  lemma LiveLeaseMissed(s: AllocatorSpec.Server, e: AllocatorSpec.Event, id: nat, g: Grant, c: Client, offset: nat,
                        total: nat, lucks: seq<Luck>)
    requires AllocatorSpec.Invariant(s) && AllocatorSpec.Legal(s, e)
    requires AllocatorSpec.Step(s, e).1 == AllocatorSpec.Granted(g.id, g.base, g.length)
    requires id in s.leases && s.leases[id].Alive(e.stamp)
    requires c.base == s.leases[id].offset && 0 < total && offset + total <= s.leases[id].length
    requires lucks != [] && lucks[0].Retried? && lucks[0].grant == g
    ensures g.base != c.base
    ensures c.base + offset + total <= g.base || g.base + g.length <= c.base + offset
    ensures !Steady(c, lucks) && !Settled(c, offset, total, lucks)
  {
    hide AllocatorSpec.Legal, AllocatorSpec.Step, Leases.WellPlaced, Leases.AliveDisjoint, Leases.AllDisjoint, Reach,
      Leases.RoundUp;
    AllocatorSpec.GrantApart(s, e);
    AllocatorSpec.GrantLooks(s, e);
    ReachPositive(total);
    LeaseNotEmpty(s, id);
    assert lucks[0].Retried?;
  }

  /** So over whole runs: a client whose lease is not released, and whose new lease is stamped before
      the old one is due, LEASE_SECONDS after its last keepalive, retries in vain, whatever other clients
      did in between. */
  lemma EarlyRetryMisses(s: AllocatorSpec.Server, events: seq<AllocatorSpec.Event>, e: AllocatorSpec.Event, id: nat,
                         g: Grant, c: Client, offset: nat, total: nat, lucks: seq<Luck>)
    requires AllocatorSpec.Invariant(s) && AllocatorSpec.Alive(s, id) && AllocatorRuns.LegalRun(s, events)
    requires AllocatorRuns.KeptUp(s.leases[id].expires, events, id)
    requires AllocatorSpec.Legal(AllocatorRuns.Run(s, events).0, e)
    requires AllocatorSpec.Step(AllocatorRuns.Run(s, events).0, e).1 == AllocatorSpec.Granted(g.id, g.base, g.length)
    requires e.stamp < AllocatorRuns.Due(s.leases[id].expires, events, id)
    requires c.base == s.leases[id].offset && 0 < total && offset + total <= s.leases[id].length
    requires lucks != [] && lucks[0].Retried? && lucks[0].grant == g
    ensures g.base != c.base
    ensures c.base + offset + total <= g.base || g.base + g.length <= c.base + offset
    ensures !Steady(c, lucks) && !Settled(c, offset, total, lucks)
  {
    hide AllocatorSpec.Invariant, AllocatorSpec.Legal, AllocatorSpec.Step, AllocatorRuns.Run, AllocatorRuns.LegalRun,
      AllocatorRuns.KeptUp, AllocatorRuns.Due, Steady, Settled;
    AllocatorRuns.KeepAliveSafety(s, events, id);
    LiveLeaseMissed(AllocatorRuns.Run(s, events).0, e, id, g, c, offset, total, lucks);
  }

  lemma LeaseNotEmpty(s: AllocatorSpec.Server, id: nat)
    requires AllocatorSpec.Invariant(s) && id in s.leases
    ensures s.leases[id].length > 0
  {
  }
}
