/** The two lease allocators as one state machine: a request is one atomic step, and the clock may
    advance within it. The PC provider cleans up before it looks at a lease and lets a read or write
    through only inside an alive lease. The phone checks a lease only when that lease is named, and
    skips expired leases in its search without deleting them, so that expired entries may stay in the
    table under blocks granted again; its reads and writes look at the buffer bounds alone. */
module AllocatorSpec {
  import opened Bytes
  import opened Leases

  datatype Kind = Phone | PC

  datatype Request =
    | Info
    | Ping
    | Borrow(requested: nat)
    | Release(id: nat)
    | KeepAlive(id: nat)
    | Read(offset: nat, length: nat)
    | Write(offset: nat, data: bytes)
    | BlockInfo
    | BlockRead(sector: nat, count: nat)
    | BlockWrite(sector: nat, count: nat, data: bytes)

  datatype Reply =
    | Granted(id: nat, offset: nat, length: nat)
    | Active(leases: nat)
    | Pong
    | Sectors(sectorSize: nat, count: nat)
    | Data(data: bytes)
    | Done
    | Failed

  datatype Server = Server(kind: Kind, size: nat, memory: bytes, leases: Table, nextId: nat, now: real)

  /** A request with what its clock readings decided: the leases deleted, those that the search looks
      at, the block found, the lease that lets an access through, the moment a lease is stamped, and
      the end of the step. */
  datatype Event = Event(request: Request, dropped: set<nat>, seen: set<nat>, found: Option<nat>, holder: Option<nat>,
                         stamp: real, end: real)

  /** An event whose clock readings all gave one moment, with no search and no access. */
  function Moment(request: Request, dropped: set<nat>, now: real): Event {
    Event(request, dropped, {}, None, None, now, now)
  }

  predicate ValidRange(offset: int, length: int, size: nat) {
    offset >= 0 && length >= 0 && offset <= size && length <= size - offset
  }

  /** The phone's check of a byte access: within the buffer and within one transfer. */
  predicate BytesAllowed(offset: nat, length: nat, size: nat) {
    length <= MAX_TRANSFER && ValidRange(offset, length, size)
  }

  /** The same for whole sectors. */
  predicate SectorsAllowed(sector: nat, count: nat, size: nat) {
    sector <= size / SECTOR_SIZE && count <= size / SECTOR_SIZE - sector && count * SECTOR_SIZE <= MAX_TRANSFER
  }

  predicate Covers(lease: Lease, offset: nat, length: nat) {
    lease.offset <= offset && offset + length <= lease.End()
  }

  /** The PC's check of a byte access found an alive lease around the range, or there was none. */
  predicate Guarded(s: Server, offset: nat, length: nat, holder: Option<nat>, end: real) {
    match holder
    case Some(id) =>
      length <= MAX_TRANSFER && id in s.leases && Covers(s.leases[id], offset, length) && s.leases[id].Alive(s.now)
    case None =>
      length > MAX_TRANSFER ||
      forall id :: id in s.leases && Covers(s.leases[id], offset, length) ==> !s.leases[id].Alive(end)
  }

  predicate Lendable(s: Server, requested: nat) {
    0 < RoundUp(requested) <= s.size
  }

  /** The leases looked at are those seen alive; the others had expired by `to`. */
  predicate SeenAlive(t: Table, seen: set<nat>, from: real, to: real) {
    && seen <= t.Keys
    && (forall id :: id in seen ==> t[id].Alive(from))
    && (forall id :: id in t && id !in seen ==> !t[id].Alive(to))
  }

  /** What a look at the clock found stays found as time goes by. */
  lemma FoundLater(t: Table, dropped: set<nat>, seen: set<nat>, from: real, middle: real, to: real, end: real)
    requires from <= middle <= to <= end
    ensures Cleaned(t, dropped, from, to) ==> Cleaned(t, dropped, from, end)
    ensures SeenAlive(t - dropped, seen, middle, to) ==> SeenAlive(t - dropped, seen, from, end)
  {
  }

  /** Looking one lease up deletes it if it is found expired. */
  predicate LookedUp(t: Table, id: nat, dropped: set<nat>, from: real, to: real) {
    && dropped <= {id} * t.Keys
    && (id in dropped ==> !t[id].Alive(to))
    && (id in t && id !in dropped ==> t[id].Alive(from))
  }

  /** The phone cleans up first, and then searches the leases seen alive; the PC refuses a bad length
      first, and then cleans up and searches what is left. */
  ghost predicate LegalBorrow(s: Server, e: Event, requested: nat) {
    if s.kind.PC? && !Lendable(s, requested) then e.dropped == {}
    else
      && Cleaned(s.leases, e.dropped, s.now, e.stamp)
      && (Lendable(s, requested) ==>
          && (if s.kind.PC? then e.seen == s.leases.Keys - e.dropped
              else SeenAlive(s.leases - e.dropped, e.seen, s.now, e.stamp))
          && IsFirstFit(s.leases, e.seen, RoundUp(requested), s.size, e.found))
  }

  ghost predicate Legal(s: Server, e: Event) {
    && s.now <= e.stamp <= e.end
    && match e.request
       case Borrow(requested) => LegalBorrow(s, e, requested)
       case Release(id) =>
         if s.kind.PC? then e.dropped == {} else LookedUp(s.leases, id, e.dropped, s.now, e.stamp)
       case KeepAlive(id) =>
         if s.kind.PC? then Cleaned(s.leases, e.dropped, s.now, e.stamp)
         else LookedUp(s.leases, id, e.dropped, s.now, e.stamp)
       case Info => Cleaned(s.leases, e.dropped, s.now, e.stamp)
       case Read(offset, length) => e.dropped == {} && (s.kind.PC? ==> Guarded(s, offset, length, e.holder, e.end))
       case Write(offset, data) => e.dropped == {} && (s.kind.PC? ==> Guarded(s, offset, |data|, e.holder, e.end))
       case BlockWrite(_, count, data) => e.dropped == {} && |data| == count * SECTOR_SIZE
       case _ => e.dropped == {}
  }

  /** Leases alive at the same moment are apart. On the phone an expired one may lie under another; on
      the PC none does. */
  predicate Invariant(s: Server) {
    && |s.memory| == s.size && s.size % SECTOR_SIZE == 0
    && WellPlaced(s.leases, s.size, s.nextId)
    && AliveDisjoint(s.leases, s.now)
    && (s.kind.PC? ==> AllDisjoint(s.leases))
  }

  /** The access of the event is let through. */
  predicate Admitted(s: Server, e: Event, offset: nat, length: nat) {
    if s.kind.PC? then e.holder.Some? else BytesAllowed(offset, length, s.size)
  }

  function Step(s: Server, e: Event): (r: (Server, Reply))
    requires Invariant(s) && Legal(s, e)
  {
    var base := s.(leases := s.leases - e.dropped, now := e.end);
    match e.request
    case Info => (base, Active(|base.leases|))
    case Ping => (base, Pong)
    case Borrow(requested) =>
      if !Lendable(s, requested) || e.found.None? then (base, Failed)
      else
        var length, offset := RoundUp(requested), e.found.value;
        (base.(leases := base.leases[s.nextId := Lease(offset, length, e.stamp + LEASE_SECONDS)],
               nextId := s.nextId + 1,
               memory := Splice(s.memory, offset, Zeros(length))),
         Granted(s.nextId, offset, length))
    case Release(id) =>
      if id in base.leases then (base.(leases := base.leases - {id}), Done) else (base, Failed)
    case KeepAlive(id) =>
      if id in base.leases then
        (base.(leases := base.leases[id := base.leases[id].(expires := e.stamp + LEASE_SECONDS)]), Done)
      else (base, Failed)
    case Read(offset, length) =>
      if Admitted(s, e, offset, length) then (base, Data(Slice(s.memory, offset, length))) else (base, Failed)
    case Write(offset, data) =>
      if Admitted(s, e, offset, |data|) then (base.(memory := Splice(s.memory, offset, data)), Done)
      else (base, Failed)
    case BlockInfo => (base, if s.kind.PC? then Failed else Sectors(SECTOR_SIZE, s.size / SECTOR_SIZE))
    case BlockRead(sector, count) =>
      if s.kind.Phone? && SectorsAllowed(sector, count, s.size) then
        (base, Data(Slice(s.memory, sector * SECTOR_SIZE, count * SECTOR_SIZE)))
      else (base, Failed)
    case BlockWrite(sector, count, data) =>
      if s.kind.Phone? && SectorsAllowed(sector, count, s.size) then
        (base.(memory := Splice(s.memory, sector * SECTOR_SIZE, data)), Done)
      else (base, Failed)
  }

  predicate Alive(s: Server, id: nat) {
    id in s.leases && s.leases[id].Alive(s.now)
  }

  lemma NextIdIsFresh(s: Server)
    requires Invariant(s)
    ensures s.nextId !in s.leases
  {
  }

  lemma CleanedPlaced(s: Server, dropped: set<nat>)
    requires Invariant(s)
    ensures WellPlaced(s.leases - dropped, s.size, s.nextId)
  {
    WithinKeeps(s.leases - dropped, s.leases, s.size, s.nextId);
  }

  lemma FoundRoom(s: Server, seen: set<nat>, length: nat, found: Option<nat>)
    requires Invariant(s) && seen <= s.leases.Keys && found.Some? && IsFirstFit(s.leases, seen, length, s.size, found)
    ensures found.value + length <= |s.memory|
  {
  }

  // ---- The invariant, one concern at a time ----

  lemma StepClock(s: Server, e: Event)
    requires Invariant(s) && Legal(s, e)
    ensures var (after, reply) := Step(s, e);
            && s.now <= e.stamp <= e.end == after.now
            && after.nextId == s.nextId + (if reply.Granted? then 1 else 0)
            && after.size == s.size && after.kind == s.kind
            && (reply.Granted? ==>
                  e.request.Borrow? && Lendable(s, e.request.requested) && e.found.Some? && reply.id == s.nextId)
  {
    hide IsFirstFit, RoundUp, WellPlaced, AliveDisjoint, AllDisjoint, Splice, Slice, Zeros, BytesAllowed,
      SectorsAllowed, Cleaned, SeenAlive, LookedUp, Guarded;
  }

  lemma StepMemory(s: Server, e: Event)
    requires Invariant(s) && Legal(s, e)
    ensures |Step(s, e).0.memory| == s.size
  {
    hide RoundUp, WellPlaced, AliveDisjoint, AllDisjoint, Zeros, Cleaned, SeenAlive, LookedUp, IsFirstFit;
  }

  lemma StepWithin(s: Server, e: Event)
    requires Invariant(s) && Legal(s, e) && !Step(s, e).1.Granted?
    ensures Within(Step(s, e).0.leases, s.leases)
  {
    hide Legal, Invariant, RoundUp, Splice, Slice, Zeros, Admitted, SectorsAllowed, Lendable;
  }

  /** Only a lease found alive is ever renewed. */
  lemma AliveBefore(s: Server, e: Event, id: nat)
    requires Invariant(s) && Legal(s, e) && Alive(Step(s, e).0, id)
    ensures Alive(s, id) || (Step(s, e).1.Granted? && id == s.nextId)
  {
    hide IsFirstFit, RoundUp, WellPlaced, AliveDisjoint, AllDisjoint, Splice, Slice, Zeros, BytesAllowed,
      SectorsAllowed, Guarded, SeenAlive;
  }

  /** A granted block is a first fit among leases that include all those alive when it is stamped. */
  lemma GrantLooks(s: Server, e: Event)
    requires Invariant(s) && Legal(s, e) && Step(s, e).1.Granted?
    ensures e.request.Borrow? && e.found.Some? && e.seen <= s.leases.Keys
    ensures var length := RoundUp(e.request.requested);
            && 0 < length && length % SECTOR_SIZE == 0
            && IsFirstFit(s.leases, e.seen, length, s.size, e.found)
            && Step(s, e).1 == Granted(s.nextId, e.found.value, length)
            && Step(s, e).0.leases
               == (s.leases - e.dropped)[s.nextId := Lease(e.found.value, length, e.stamp + LEASE_SECONDS)]
    ensures forall id :: id in s.leases && s.leases[id].Alive(e.stamp) ==> id in e.seen
    ensures s.kind.PC? ==> e.seen == s.leases.Keys - e.dropped
  {
    hide IsFirstFit, RoundUp, WellPlaced, AliveDisjoint, AllDisjoint, Splice, Slice, Zeros, BytesAllowed,
      SectorsAllowed, Guarded;
    StepClock(s, e);
    RoundUpLeast(e.request.requested);
  }

  /** A granted block shares no byte with a lease alive when it is stamped. */
  lemma GrantApart(s: Server, e: Event)
    requires Invariant(s) && Legal(s, e) && Step(s, e).1.Granted?
    ensures e.request.Borrow? && e.found.Some?
    ensures forall id :: id in s.leases && s.leases[id].Alive(e.stamp) ==>
              !s.leases[id].Meets(e.found.value, RoundUp(e.request.requested))
  {
    hide Legal, Step, RoundUp, WellPlaced, AliveDisjoint, AllDisjoint;
    GrantLooks(s, e);
    assert Free(s.leases, e.seen, e.found.value, RoundUp(e.request.requested), s.size);
  }

  lemma GrantInvariant(s: Server, e: Event)
    requires Invariant(s) && Legal(s, e) && Step(s, e).1.Granted?
    ensures Invariant(Step(s, e).0)
  {
    hide Legal, Step, RoundUp, IsFirstFit, AliveDisjoint, AllDisjoint, WellPlaced;
    StepMemory(s, e);
    StepClock(s, e);
    GrantLooks(s, e);
    GrantApart(s, e);
    var length, o := RoundUp(e.request.requested), e.found.value;
    var kept := s.leases - e.dropped;
    WithinKeeps(kept, s.leases, s.size, s.nextId);
    FirstFitAligned(s.leases, e.seen, length, s.size, s.nextId, o);
    GrantPlaced(s, e.seen, kept, o, length, e.stamp + LEASE_SECONDS);
    GrantAlive(s, kept, o, length, e.stamp, e.end);
    if s.kind.PC? {
      GrantDisjoint(kept, s, e.seen, o, length, e.stamp + LEASE_SECONDS);
    }
  }

  lemma GrantPlaced(s: Server, seen: set<nat>, kept: Table, o: nat, length: nat, expires: real)
    requires seen <= s.leases.Keys && IsFirstFit(s.leases, seen, length, s.size, Some(o))
    requires WellPlaced(kept, s.size, s.nextId) && 0 < length && length % SECTOR_SIZE == 0 && o % SECTOR_SIZE == 0
    ensures WellPlaced(kept[s.nextId := Lease(o, length, expires)], s.size, s.nextId + 1)
  {
    assert Free(s.leases, seen, o, length, s.size);
  }

  lemma GrantAlive(s: Server, kept: Table, o: nat, length: nat, stamp: real, end: real)
    requires AliveDisjoint(s.leases, s.now) && Within(kept, s.leases) && s.now <= stamp <= end
    requires forall id :: id in kept ==> kept[id] == s.leases[id]
    requires forall id :: id in s.leases && s.leases[id].Alive(stamp) ==> !s.leases[id].Meets(o, length)
    ensures AliveDisjoint(kept[s.nextId := Lease(o, length, stamp + LEASE_SECONDS)], end)
  {
    var after := kept[s.nextId := Lease(o, length, stamp + LEASE_SECONDS)];
    forall i, j | i in after && j in after && i != j && after[i].Alive(end) && after[j].Alive(end)
      ensures !after[i].Meets(after[j].offset, after[j].length)
    {
      assert i != s.nextId ==> i in s.leases && s.leases[i].Alive(stamp) && s.leases[i].Alive(s.now);
      assert j != s.nextId ==> j in s.leases && s.leases[j].Alive(stamp) && s.leases[j].Alive(s.now);
    }
  }

  lemma GrantDisjoint(kept: Table, s: Server, seen: set<nat>, o: nat, length: nat, expires: real)
    requires seen <= s.leases.Keys && IsFirstFit(s.leases, seen, length, s.size, Some(o))
    requires AllDisjoint(kept) && kept.Keys == seen && forall id :: id in kept ==> kept[id] == s.leases[id]
    ensures AllDisjoint(kept[s.nextId := Lease(o, length, expires)])
  {
    assert Free(s.leases, seen, o, length, s.size);
  }

  /** Every step keeps the alive leases inside the buffer and apart, never takes an id back, and never
      turns the clock back, although on the phone expired entries may stay behind, because only a
      lease found alive is ever renewed. */
  lemma StepInvariant(s: Server, e: Event)
    requires Invariant(s) && Legal(s, e)
    ensures Invariant(Step(s, e).0)
    ensures var after := Step(s, e).0;
            s.nextId <= after.nextId && s.now <= after.now && after.size == s.size && after.kind == s.kind
  {
    hide Step, Legal, IsFirstFit, RoundUp, WellPlaced, AliveDisjoint, AllDisjoint;
    StepClock(s, e);
    if Step(s, e).1.Granted? {
      GrantInvariant(s, e);
      return;
    }
    StepMemory(s, e);
    StepWithin(s, e);
    WithinKeeps(Step(s, e).0.leases, s.leases, s.size, s.nextId);
    var after := Step(s, e).0;
    forall id | id in after.leases && after.leases[id].Alive(e.end) ensures s.leases[id].Alive(s.now) {
      AliveBefore(s, e, id);
    }
    StillApart(s.leases, after.leases, s.now, e.end);
  }

  /** A borrow, spelled out. */
  lemma BorrowIs(s: Server, e: Event, requested: nat)
    requires Invariant(s) && e.request == Borrow(requested) && s.now <= e.stamp <= e.end
    requires LegalBorrow(s, e, requested)
    ensures Legal(s, e) && Invariant(Step(s, e).0)
    ensures var base, length := s.(leases := s.leases - e.dropped, now := e.end), RoundUp(requested);
            if !Lendable(s, requested) || e.found.None? then Step(s, e) == (base, Failed)
            else
              && e.found.value + length <= s.size
              && Step(s, e) == (
                base.(leases := base.leases[s.nextId := Lease(e.found.value, length, e.stamp + LEASE_SECONDS)],
                      nextId := s.nextId + 1,
                      memory := Splice(s.memory, e.found.value, Zeros(length))),
                Granted(s.nextId, e.found.value, length))
  {
    hide RoundUp, WellPlaced, AliveDisjoint, AllDisjoint, Cleaned, SeenAlive, Splice, Zeros;
    StepInvariant(s, e);
  }

  /** A keepalive, spelled out. */
  lemma KeepAliveIs(s: Server, e: Event, id: nat)
    requires Invariant(s) && e.request == KeepAlive(id) && s.now <= e.stamp <= e.end
    requires s.kind.PC? ==> Cleaned(s.leases, e.dropped, s.now, e.stamp)
    requires s.kind.Phone? ==> LookedUp(s.leases, id, e.dropped, s.now, e.stamp)
    ensures Legal(s, e) && Invariant(Step(s, e).0)
    ensures var base := s.(leases := s.leases - e.dropped, now := e.end);
            Step(s, e) ==
            if id in base.leases then
              (base.(leases := base.leases[id := base.leases[id].(expires := e.stamp + LEASE_SECONDS)]), Done)
            else (base, Failed)
  {
    hide WellPlaced, AliveDisjoint, AllDisjoint, Cleaned, LookedUp;
    StepInvariant(s, e);
  }

  // ---- What a step promises ----

  /** The block lies in the buffer and meets no lease alive at the moment. */
  predicate FreeOfAlive(s: Server, now: real, at: int, length: nat) {
    && 0 <= at && at + length <= s.size
    && forall id :: id in s.leases && s.leases[id].Alive(now) ==> !s.leases[id].Meets(at, length)
  }

  lemma LooksAtAlive(s: Server, e: Event)
    requires Invariant(s) && Legal(s, e) && e.request.Borrow? && Lendable(s, e.request.requested)
    ensures e.seen <= s.leases.Keys && forall id :: id in e.seen ==> s.leases[id].Alive(s.now)
    ensures IsFirstFit(s.leases, e.seen, RoundUp(e.request.requested), s.size, e.found)
    ensures Step(s, e).1.Granted? <==> e.found.Some?
  {
    hide IsFirstFit, RoundUp, WellPlaced, AliveDisjoint, AllDisjoint, Splice, Zeros;
  }

  /** A borrow of an allowed size is granted whenever its rounded-up block fits among the leases alive
      when the step begins, and then no later in the buffer than the first such place, and clear of
      every lease alive when it is stamped. The block starts as zeros, and no other byte changes. */
  lemma BorrowServed(s: Server, e: Event, requested: nat)
    requires Invariant(s) && Legal(s, e) && e.request == Borrow(requested)
    ensures var length := RoundUp(requested); var (after, reply) := Step(s, e);
            && (Lendable(s, requested) && (exists at :: FreeOfAlive(s, s.now, at, length)) ==> reply.Granted?)
            && (reply.Granted? ==>
                  && Lendable(s, requested) && reply.length == length && reply.id !in s.leases
                  && FreeOfAlive(s, e.stamp, reply.offset, length)
                  && (forall at :: FreeOfAlive(s, s.now, at, length) ==> reply.offset <= at)
                  && |after.memory| == s.size
                  && (forall i :: 0 <= i < s.size ==>
                        after.memory[i] == if reply.offset <= i < reply.offset + length then 0 else s.memory[i]))
  {
    hide Legal, Step, RoundUp, WellPlaced, AliveDisjoint, AllDisjoint;
    var length := RoundUp(requested);
    StepClock(s, e);
    if !Lendable(s, requested) {
      return;
    }
    LooksAtAlive(s, e);
    forall at | FreeOfAlive(s, s.now, at, length) ensures Free(s.leases, e.seen, at, length, s.size) {
    }
    if Step(s, e).1.Granted? {
      GrantLooks(s, e);
      GrantApart(s, e);
      NextIdIsFresh(s);
      GrantZeroes(s, e);
      assert Free(s.leases, e.seen, e.found.value, length, s.size);
    }
  }

  lemma GrantZeroes(s: Server, e: Event)
    requires Invariant(s) && Legal(s, e) && Step(s, e).1.Granted?
    ensures var (after, reply) := Step(s, e);
            && |after.memory| == s.size
            && (forall i :: 0 <= i < s.size ==>
                  after.memory[i] == if reply.offset <= i < reply.offset + reply.length then 0 else s.memory[i])
  {
    hide RoundUp, AliveDisjoint, AllDisjoint, WellPlaced, Legal, Lendable, Admitted, SectorsAllowed, IsFirstFit;
    StepClock(s, e);
    GrantLooks(s, e);
    FoundRoom(s, e.seen, RoundUp(e.request.requested), e.found);
  }

  lemma SectorsAreBytes(sector: nat, count: nat, size: nat)
    requires size % SECTOR_SIZE == 0
    ensures SectorsAllowed(sector, count, size) <==> BytesAllowed(sector * SECTOR_SIZE, count * SECTOR_SIZE, size)
  {
  }

  /** On the phone a read right after a write of the same range returns what was written, the write and
      the read in bytes or in whole sectors. */
  lemma ReadBack(s: Server, w: Event, r: Event)
    requires Invariant(s) && Legal(s, w) && s.kind.Phone?
    requires (w.request.Write? && r.request == Read(w.request.offset, |w.request.data|))
             || (w.request.BlockWrite? && r.request == BlockRead(w.request.sector, w.request.count))
             || (w.request.BlockWrite? && r.request == Read(w.request.sector * SECTOR_SIZE, |w.request.data|))
    ensures var (after, reply) := Step(s, w);
            && Invariant(after)
            && after.leases == s.leases
            && (reply == Failed ==> after.memory == s.memory)
            && (reply == Failed <==>
                  !BytesAllowed(if w.request.Write? then w.request.offset else w.request.sector * SECTOR_SIZE,
                                |w.request.data|, s.size))
            && (Legal(after, r) ==>
                  Step(after, r).1 == if reply == Failed then Failed else Data(w.request.data))
  {
    hide Splice, Slice, WellPlaced, AliveDisjoint, AllDisjoint, BytesAllowed, SectorsAllowed;
    StepInvariant(s, w);
    var at := if w.request.Write? then w.request.offset else w.request.sector * SECTOR_SIZE;
    if w.request.BlockWrite? {
      SectorsAreBytes(w.request.sector, w.request.count, s.size);
    }
    if Step(s, w).1 != Failed {
      AllowedInside(at, |w.request.data|, s.size);
      SliceSpliced(s.memory, at, w.request.data);
    }
  }

  lemma AllowedInside(offset: nat, length: nat, size: nat)
    requires BytesAllowed(offset, length, size)
    ensures offset + length <= size
  {
  }
}
