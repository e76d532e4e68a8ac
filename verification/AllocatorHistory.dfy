/** What an allocator holds, read off its requests and replies alone: every byte of the buffer, and every
    lease that is alive. */
module AllocatorHistory {
  import opened Bytes
  import opened Leases
  import opened AllocatorSpec
  import opened AllocatorRuns

  // ---- Bytes ----

  /** What a request with this reply makes of the byte at offset `i`. */
  function ByteAfter(before: byte, request: Request, reply: Reply, i: nat): byte {
    match request
    case Write(offset, data) =>
      if reply.Done? && offset <= i < offset + |data| then data[i - offset] else before
    case BlockWrite(sector, _, data) =>
      if reply.Done? && 512 * sector <= i < 512 * sector + |data| then data[i - 512 * sector] else before
    case Borrow(_) =>
      if reply.Granted? && reply.offset <= i < reply.offset + reply.length then 0 else before
    case _ => before
  }

  /** On the PC an access is let through only inside the buffer. */
  lemma HeldInside(s: Server, e: Event, offset: nat, length: nat)
    requires Invariant(s) && s.kind.PC? && Guarded(s, offset, length, e.holder, e.end) && e.holder.Some?
    ensures offset + length <= s.size && length <= 1048576
  {
  }

  /** The reply to an access: the phone serves exactly what lies in the buffer and in one transfer of a
      MiB, in bytes or in sectors of 512; the PC serves only inside the buffer, and knows no sectors. A
      read returns the bytes of its range. */
  lemma AccessReply(s: Server, e: Event)
    requires Invariant(s) && Legal(s, e)
    ensures var reply := Step(s, e).1;
            match e.request
            case Read(offset, length) =>
              && (reply.Data? || reply.Failed?)
              && (s.kind.Phone? ==> (reply.Data? <==> length <= 1048576 && offset + length <= s.size))
              && (reply.Data? ==>
                    && offset + length <= s.size && |reply.data| == length
                    && forall k :: 0 <= k < length ==> reply.data[k] == s.memory[offset + k])
            case Write(offset, data) =>
              && (reply.Done? || reply.Failed?)
              && (s.kind.Phone? ==> (reply.Done? <==> |data| <= 1048576 && offset + |data| <= s.size))
              && (reply.Done? ==> offset + |data| <= s.size)
            case BlockRead(sector, count) =>
              && (reply.Data? || reply.Failed?)
              && (reply.Data? <==> s.kind.Phone? && 512 * count <= 1048576 && 512 * (sector + count) <= s.size)
              && (reply.Data? ==>
                    && |reply.data| == 512 * count
                    && forall k :: 0 <= k < 512 * count ==> reply.data[k] == s.memory[512 * sector + k])
            case BlockWrite(sector, count, data) =>
              && |data| == 512 * count
              && (reply.Done? || reply.Failed?)
              && (reply.Done? <==> s.kind.Phone? && 512 * count <= 1048576 && 512 * (sector + count) <= s.size)
            case _ => true
  {
    hide WellPlaced, AliveDisjoint, AllDisjoint, RoundUp, IsFirstFit, Splice, Zeros, Cleaned, SeenAlive, LookedUp,
      LegalBorrow, Guarded;
    match e.request
    case Read(offset, length) => if s.kind.PC? && e.holder.Some? { HeldInside(s, e, offset, length); }
    case Write(offset, data) => if s.kind.PC? && e.holder.Some? { HeldInside(s, e, offset, |data|); }
    case BlockRead(sector, count) => SectorsInside(sector, count, s.size);
    case BlockWrite(sector, count, _) => SectorsInside(sector, count, s.size);
    case _ =>
  }

  lemma SectorsInside(sector: nat, count: nat, size: nat)
    requires size % SECTOR_SIZE == 0
    ensures SectorsAllowed(sector, count, size) <==> 512 * count <= 1048576 && 512 * (sector + count) <= size
  {
  }

  /** Every byte after a step, on phone and PC: the byte of a write that was done there, 0 in a granted
      block, and the old byte everywhere else. */
  lemma StepByte(s: Server, e: Event, i: nat)
    requires Invariant(s) && Legal(s, e) && i < s.size
    ensures var (after, reply) := Step(s, e);
            |after.memory| == s.size && after.memory[i] == ByteAfter(s.memory[i], e.request, reply, i)
  {
    hide WellPlaced, AliveDisjoint, AllDisjoint, RoundUp, IsFirstFit, Cleaned, SeenAlive, LookedUp, LegalBorrow,
      Guarded, Zeros, Slice, Admitted, SectorsAllowed, Lendable;
    AccessReply(s, e);
    if Step(s, e).1.Granted? {
      StepClock(s, e);
      GrantLooks(s, e);
      GrantZeroes(s, e);
    }
  }

  /** The byte at an offset after a run that began with zeros. */
  function ByteOf(events: seq<Event>, replies: seq<Reply>, i: nat): byte
    requires |events| == |replies|
  {
    if events == [] then 0
    else
      var n := |events| - 1;
      ByteAfter(ByteOf(events[..n], replies[..n], i), events[n].request, replies[n], i)
  }

  /** In every run, on phone and PC, each byte of the buffer is the one last written or zeroed there. */
  lemma {:induction false} MemoryIsHistory(kind: Kind, size: nat, now: real, events: seq<Event>, i: nat)
    requires Invariant(Started(kind, size, now)) && LegalRun(Started(kind, size, now), events) && i < size
    ensures var (s, replies) := Run(Started(kind, size, now), events);
            |s.memory| == size && s.memory[i] == ByteOf(events, replies, i)
  {
    hide Invariant, Legal, Step, ByteAfter;
    var start := Started(kind, size, now);
    if events == [] {
      StartedByte(kind, size, now, i);
    } else {
      var n := |events| - 1;
      MemoryIsHistory(kind, size, now, events[..n], i);
      StepByte(Run(start, events[..n]).0, events[n], i);
      assert Run(start, events).1[..n] == Run(start, events[..n]).1;
    }
  }

  lemma StartedByte(kind: Kind, size: nat, now: real, i: nat)
    requires Invariant(Started(kind, size, now)) && i < size
    ensures Run(Started(kind, size, now), []).0.memory[i] == 0
  {
  }

  /** So in every run a READ or BLOCK_READ that is served returns at each offset the byte last written or
      zeroed there, and the phone serves exactly those inside the buffer and one transfer. */
  lemma ReadsReturnHistory(kind: Kind, size: nat, now: real, events: seq<Event>, e: Event, start: nat, length: nat)
    requires Invariant(Started(kind, size, now)) && LegalRun(Started(kind, size, now), events)
    requires Legal(Run(Started(kind, size, now), events).0, e)
    requires match e.request
             case Read(offset, n) => start == offset && length == n
             case BlockRead(sector, count) => start == 512 * sector && length == 512 * count
             case _ => false
    ensures var (s, replies) := Run(Started(kind, size, now), events); var reply := Step(s, e).1;
            && (reply.Data? || reply.Failed?)
            && (kind.Phone? ==> (reply.Data? <==> length <= 1048576 && start + length <= size))
            && (reply.Data? ==>
                  && |reply.data| == length
                  && forall k :: 0 <= k < length ==> reply.data[k] == ByteOf(events, replies, start + k))
  {
    hide Invariant, Legal, Step, ByteOf, LegalRun, Run;
    var (s, replies) := Run(Started(kind, size, now), events);
    AccessReply(s, e);
    var reply := Step(s, e).1;
    if reply.Data? {
      forall k | 0 <= k < length ensures reply.data[k] == ByteOf(events, replies, start + k) {
        MemoryIsHistory(kind, size, now, events, start + k);
      }
    }
  }

  // ---- Leases ----

  /** What a request with this reply makes of the lease with that id, as the clients count it. */
  function LeaseAfter(before: Option<Lease>, request: Request, reply: Reply, stamp: real, id: nat): Option<Lease> {
    if reply.Granted? && reply.id == id then Some(Lease(reply.offset, reply.length, stamp + 120.0))
    else if reply.Done? && request == Release(id) then None
    else if reply.Done? && request == KeepAlive(id) && before.Some? then
      Some(before.value.(expires := stamp + 120.0))
    else before
  }

  function Entry(t: Table, id: nat): Option<Lease> {
    if id in t then Some(t[id]) else None
  }

  lemma DroppedExpired(s: Server, e: Event, id: nat)
    requires Invariant(s) && Legal(s, e) && id in e.dropped
    ensures id in s.leases && !s.leases[id].Alive(e.stamp)
  {
    hide WellPlaced, AliveDisjoint, AllDisjoint, RoundUp, IsFirstFit, SeenAlive, Guarded;
  }

  /** Every entry of the table after a step: what the reply says of it, unless a look at the clock found
      the lease expired and deleted it. */
  lemma StepEntry(s: Server, e: Event, id: nat)
    requires Invariant(s) && Legal(s, e)
    ensures var (after, reply) := Step(s, e);
            && (id in e.dropped ==> id in s.leases && !s.leases[id].Alive(e.stamp))
            && Entry(after.leases, id) ==
               (if id in e.dropped && !(reply.Granted? && reply.id == id) then None
                else LeaseAfter(Entry(s.leases, id), e.request, reply, e.stamp, id))
  {
    hide Legal, Invariant, RoundUp, Zeros, Splice, Slice, Admitted, SectorsAllowed, Lendable;
    if id in e.dropped {
      DroppedExpired(s, e, id);
    }
  }

  /** A release, on phone and PC: the id is gone afterwards. The PC answers Done exactly if it had the id;
      the phone if the lease is alive at the end, and only if it was alive at the beginning. */
  lemma ReleaseOutcome(s: Server, e: Event, id: nat)
    requires Invariant(s) && Legal(s, e) && e.request == Release(id)
    ensures var (after, reply) := Step(s, e);
            && id !in after.leases
            && (reply.Done? || reply.Failed?)
            && (s.kind.PC? ==> (reply.Done? <==> id in s.leases))
            && (id in s.leases && s.leases[id].Alive(e.stamp) ==> reply.Done?)
            && (s.kind.Phone? && reply.Done? ==> Alive(s, id))
            && (forall other :: other in s.leases && other != id ==>
                  other in after.leases && after.leases[other] == s.leases[other])
  {
    hide WellPlaced, AliveDisjoint, AllDisjoint;
  }

  /** A keepalive is answered Done if the lease is alive when it is stamped, and only if it was alive at
      the beginning; the lease is then due 120 seconds after the stamp, and if not Done it is gone. */
  lemma KeepAliveOutcome(s: Server, e: Event, id: nat)
    requires Invariant(s) && Legal(s, e) && e.request == KeepAlive(id)
    ensures var (after, reply) := Step(s, e);
            && (reply.Done? || reply.Failed?)
            && (id in s.leases && s.leases[id].Alive(e.stamp) ==> reply.Done?)
            && (reply.Done? ==> Alive(s, id))
            && (id in after.leases <==> reply.Done?)
            && (reply.Done? ==> after.leases[id] == s.leases[id].(expires := e.stamp + 120.0))
  {
    hide WellPlaced, AliveDisjoint, AllDisjoint;
  }

  /** The requests that clean up leave no entry that had expired when they began. */
  lemma SweepOutcome(s: Server, e: Event, id: nat)
    requires Invariant(s) && Legal(s, e) && id in Step(s, e).0.leases
    requires e.request.Info? || (e.request.KeepAlive? && s.kind.PC?)
             || (e.request.Borrow? && (s.kind.Phone? || 0 < RoundUp(e.request.requested) <= s.size))
    ensures Alive(s, id) || (Step(s, e).1.Granted? && Step(s, e).1.id == id)
  {
    hide WellPlaced, AliveDisjoint, AllDisjoint, RoundUp, IsFirstFit, SeenAlive, Guarded, Zeros, Splice, Slice,
      LookedUp;
  }

  /** The lease with that id, from requests, replies and stamps alone. */
  function LeaseOf(events: seq<Event>, replies: seq<Reply>, id: nat): Option<Lease>
    requires |events| == |replies|
  {
    if events == [] then None
    else
      var n := |events| - 1;
      LeaseAfter(LeaseOf(events[..n], replies[..n], id), events[n].request, replies[n], events[n].stamp, id)
  }

  /** What clients count and what the table holds agree up to entries that have run out. */
  predicate Agree(counted: Option<Lease>, entry: Option<Lease>, now: real) {
    && (entry.Some? ==> counted == entry)
    && (counted.Some? && counted.value.Alive(now) ==> entry == counted)
  }

  lemma StepAgrees(s: Server, e: Event, id: nat, counted: Option<Lease>)
    requires Invariant(s) && Legal(s, e) && Agree(counted, Entry(s.leases, id), s.now)
    ensures var (after, reply) := Step(s, e);
            Agree(LeaseAfter(counted, e.request, reply, e.stamp, id), Entry(after.leases, id), after.now)
  {
    hide Legal, Step, Invariant;
    StepEntry(s, e, id);
    StepClock(s, e);
    NextIdIsFresh(s);
    if e.request == KeepAlive(id) {
      KeepAliveOutcome(s, e, id);
    }
    if e.request == Release(id) {
      ReleaseOutcome(s, e, id);
    }
  }

  /** Which leases are alive after a run, exactly: those granted, not released since, and not yet due, as
      requests, replies and stamps alone tell; and each has the block it was granted. */
  lemma {:induction false} AliveIsHistory(kind: Kind, size: nat, now: real, events: seq<Event>, id: nat)
    requires Invariant(Started(kind, size, now)) && LegalRun(Started(kind, size, now), events)
    ensures var (s, replies) := Run(Started(kind, size, now), events); var counted := LeaseOf(events, replies, id);
            && Agree(counted, Entry(s.leases, id), s.now)
            && (Alive(s, id) <==> counted.Some? && counted.value.Alive(s.now))
  {
    hide Invariant, Legal, Step, LeaseAfter;
    var start := Started(kind, size, now);
    if events == [] {
      StartedEmpty(kind, size, now, id);
    } else {
      var n := |events| - 1;
      var (s, replies) := Run(start, events[..n]);
      AliveIsHistory(kind, size, now, events[..n], id);
      StepAgrees(s, events[n], id, LeaseOf(events[..n], replies, id));
      assert Run(start, events).1[..n] == replies;
    }
  }

  lemma StartedEmpty(kind: Kind, size: nat, now: real, id: nat)
    requires Invariant(Started(kind, size, now))
    ensures Entry(Run(Started(kind, size, now), []).0.leases, id) == None
  {
  }

  // ---- What a release is worth ----

  lemma StepKeepsFree(s: Server, e: Event, at: nat, length: nat)
    requires Invariant(s) && Legal(s, e) && FreeOfAlive(s, s.now, at, length)
    requires var reply := Step(s, e).1; reply.Granted? ==> !BlocksMeet(at, length, reply.offset, reply.length)
    ensures var after := Step(s, e).0; FreeOfAlive(after, after.now, at, length)
  {
    hide Legal, Step, Invariant;
    StepClock(s, e);
    var after := Step(s, e).0;
    forall id | id in after.leases && after.leases[id].Alive(after.now) ensures !after.leases[id].Meets(at, length) {
      AliveBefore(s, e, id);
      StepEntry(s, e, id);
    }
  }

  lemma {:induction false} RunKeepsFree(s: Server, events: seq<Event>, at: nat, length: nat)
    requires Invariant(s) && LegalRun(s, events) && FreeOfAlive(s, s.now, at, length)
    requires forall r :: r in Run(s, events).1 && r.Granted? ==> !BlocksMeet(at, length, r.offset, r.length)
    ensures var after := Run(s, events).0; FreeOfAlive(after, after.now, at, length)
  {
    hide Legal, Step, Invariant, FreeOfAlive;
    if events != [] {
      var front, e := events[..|events| - 1], events[|events| - 1];
      assert forall r :: r in Run(s, front).1 ==> r in Run(s, events).1;
      RunKeepsFree(s, front, at, length);
      StepKeepsFree(Run(s, front).0, e, at, length);
    }
  }

  lemma ReleasedFree(s: Server, e: Event, id: nat)
    requires Invariant(s) && Legal(s, e) && e.request == Release(id) && Step(s, e).1.Done?
    ensures id in s.leases
    ensures var after := Step(s, e).0; FreeOfAlive(after, after.now, s.leases[id].offset, s.leases[id].length)
  {
    hide Legal, Step;
    ReleaseOutcome(s, e, id);
    StepClock(s, e);
    StepWithin(s, e);
    var after := Step(s, e).0;
    forall other | other in after.leases && after.leases[other].Alive(after.now)
      ensures !after.leases[other].Meets(s.leases[id].offset, s.leases[id].length)
    {
      assert Alive(after, other);
      AliveBefore(s, e, other);
    }
  }

  /** What a release is worth, on phone and PC: once it is answered Done, a borrow that fits the released
      block is granted, as long as no grant since has taken a byte of it, whatever else happened. */
  lemma ReleaseServes(s: Server, e: Event, id: nat, events: seq<Event>, b: Event)
    requires Invariant(s) && Legal(s, e) && e.request == Release(id) && Step(s, e).1.Done?
    requires id in s.leases && Invariant(Step(s, e).0) && LegalRun(Step(s, e).0, events)
    requires forall r :: r in Run(Step(s, e).0, events).1 && r.Granted? ==>
               !BlocksMeet(s.leases[id].offset, s.leases[id].length, r.offset, r.length)
    requires Legal(Run(Step(s, e).0, events).0, b) && b.request.Borrow?
    requires 0 < b.request.requested <= s.leases[id].length
    ensures Step(Run(Step(s, e).0, events).0, b).1.Granted?
  {
    hide Legal, Step, Run, LegalRun, RoundUp, FreeOfAlive;
    var lease, last := s.leases[id], Run(Step(s, e).0, events).0;
    var length := RoundUp(b.request.requested);
    StepClock(s, e);
    ReleasedFree(s, e, id);
    RunKeepsFree(Step(s, e).0, events, lease.offset, lease.length);
    FitsReleased(s, id, b.request.requested);
    SmallerFree(last, lease.offset, lease.length, length);
    BorrowServed(last, b, b.request.requested);
  }

  lemma FitsReleased(s: Server, id: nat, requested: nat)
    requires Invariant(s) && id in s.leases && 0 < requested <= s.leases[id].length
    ensures 0 < RoundUp(requested) <= s.leases[id].length <= s.size
  {
    RoundUpLeast(requested);
    var sectors, n := s.leases[id].length / SECTOR_SIZE, (requested + SECTOR_SIZE - 1) / SECTOR_SIZE;
  }

  lemma SmallerFree(s: Server, at: nat, length: nat, less: nat)
    requires FreeOfAlive(s, s.now, at, length) && less <= length
    ensures FreeOfAlive(s, s.now, at, less)
  {
  }

  // ---- Counting ----

  /** The leases alive at a moment. */
  function AliveAt(s: Server, t: real): set<nat> {
    set id | id in s.leases && s.leases[id].Alive(t)
  }

  lemma SubsetSize(a: set<nat>, b: set<nat>)
    requires a <= b
    ensures |a| <= |b|
  {
    assert b == a + (b - a);
  }

  /** INFO counts at least the leases alive at its end and at most those alive at its beginning. */
  lemma InfoCounts(s: Server, e: Event)
    requires Invariant(s) && Legal(s, e) && e.request.Info?
    ensures var reply := Step(s, e).1;
            reply.Active? && |AliveAt(s, e.stamp)| <= reply.leases <= |AliveAt(s, s.now)|
  {
    var left := s.leases - e.dropped;
    SubsetSize(AliveAt(s, e.stamp), left.Keys);
    SubsetSize(left.Keys, AliveAt(s, s.now));
    assert |left| == |left.Keys|;
  }

  /** BLOCK_INFO on the phone gives the sector size, 512, and how many sectors make up the buffer; the PC
      does not know it. PING is answered by both. Neither changes anything but the clock. */
  lemma PlainReplies(s: Server, e: Event)
    requires Invariant(s) && Legal(s, e) && (e.request.BlockInfo? || e.request.Ping?)
    ensures var (after, reply) := Step(s, e);
            && after == s.(now := e.end)
            && (e.request.Ping? ==> reply == Pong)
            && (e.request.BlockInfo? ==>
                  if s.kind.PC? then reply == Failed
                  else reply.Sectors? && reply.sectorSize == 512 && 512 * reply.count == s.size)
  {
    assert s.leases - {} == s.leases;
  }
}
