/** The PC provider's one flat memory against one private buffer per lease: what a borrower reads is what
    was last written to its lease. */
module ProviderBuffers {
  import opened Bytes
  import opened Leases
  import opened AllocatorSpec
  import opened AllocatorRuns

  /** What a borrower sees of its lease: where it starts and what it holds. */
  datatype Buffer = Buffer(base: nat, data: bytes) {
    predicate Has(offset: nat, length: nat) {
      base <= offset && offset + length <= base + |data|
    }
  }

  /** The buffer of a lease, cut out of the one flat memory. */
  function BufferOf(s: Server, id: nat): (b: Buffer)
    requires Invariant(s) && id in s.leases
  {
    Buffer(s.leases[id].offset, Slice(s.memory, s.leases[id].offset, s.leases[id].length))
  }

  /** The buffers of the leases alive now. */
  function Buffers(s: Server): (b: map<nat, Buffer>)
    requires Invariant(s)
  {
    map id | id in s.leases && Alive(s, id) :: BufferOf(s, id)
  }

  /** What the request does to one buffer, given that the reply was not a failure: a non-empty write
      inside it is carried out, nothing else changes it. */
  function OnBuffer(b: Buffer, request: Request, reply: Reply): Buffer {
    if request.Write? && reply.Done? && request.data != [] && b.Has(request.offset, |request.data|) then
      b.(data := Splice(b.data, request.offset - b.base, request.data))
    else b
  }

  /** The same request on separate buffers, given the reply: a grant adds a zeroed buffer, a release
      takes a buffer away, a write changes the buffers that have its range. */
  function OnBuffers(b: map<nat, Buffer>, request: Request, reply: Reply): map<nat, Buffer> {
    match request
    case Borrow(_) => if reply.Granted? then b[reply.id := Buffer(reply.offset, Zeros(reply.length))] else b
    case Release(id) => if reply.Done? then b - {id} else b
    case _ => map id | id in b :: OnBuffer(b[id], request, reply)
  }

  lemma WriteRefines(s: Server, e: Event, id: nat)
    requires Invariant(s) && s.kind.PC? && Legal(s, e)
    requires e.request.Write? && e.holder.Some? && id in s.leases
    ensures Invariant(Step(s, e).0)
    ensures BufferOf(Step(s, e).0, id) == OnBuffer(BufferOf(s, id), e.request, Done)
    ensures e.request.data != [] ==> (BufferOf(s, id).Has(e.request.offset, |e.request.data|) <==> id == e.holder.value)
  {
    hide IsFirstFit, Splice, Slice;
    StepInvariant(s, e);
    var Write(offset, data) := e.request;
    var lease, holder := s.leases[id], s.leases[e.holder.value];
    assert id != e.holder.value ==> !lease.Meets(holder.offset, holder.length);
    if id == e.holder.value {
      SliceAround(s.memory, offset - lease.offset, data, lease.offset, lease.length);
      SpliceNothing(Slice(s.memory, lease.offset, lease.length), offset - lease.offset);
    } else if data == [] {
      SpliceNothing(s.memory, offset);
    } else {
      SliceBeside(s.memory, offset, data, lease.offset, lease.length);
    }
  }

  lemma GrantRefines(s: Server, e: Event, id: nat)
    requires Invariant(s) && s.kind.PC? && Legal(s, e) && id in Step(s, e).0.leases && Step(s, e).1.Granted?
    ensures Invariant(Step(s, e).0)
    ensures s.nextId !in s.leases && (id == s.nextId || id in s.leases)
    ensures var (after, reply) := Step(s, e);
            BufferOf(after, id) == if id == s.nextId then Buffer(reply.offset, Zeros(reply.length)) else BufferOf(s, id)
  {
    hide RoundUp, Splice, Slice, IsFirstFit, Legal, WellPlaced, AliveDisjoint, AllDisjoint;
    StepInvariant(s, e);
    StepClock(s, e);
    GrantLooks(s, e);
    NextIdIsFresh(s);
    var length, o := RoundUp(e.request.requested), e.found.value;
    FoundRoom(s, e.seen, length, e.found);
    if id == s.nextId {
      SliceSpliced(s.memory, o, Zeros(length));
    } else {
      GrantBeside(s, e.seen, length, o, id);
      SliceBeside(s.memory, o, Zeros(length), s.leases[id].offset, s.leases[id].length);
    }
  }

  lemma GrantBeside(s: Server, seen: set<nat>, length: nat, o: nat, id: nat)
    requires Invariant(s) && seen <= s.leases.Keys && IsFirstFit(s.leases, seen, length, s.size, Some(o)) && id in seen
    ensures s.leases[id].End() <= o || o + length <= s.leases[id].offset
    ensures s.leases[id].End() <= s.size
  {
    assert Free(s.leases, seen, o, length, s.size);
    assert !s.leases[id].Meets(o, length);
  }

  /** Only a write let through and a grant change a byte of the PC's memory. */
  lemma QuietStep(s: Server, e: Event)
    requires Invariant(s) && s.kind.PC? && Legal(s, e)
    ensures var (after, reply) := Step(s, e);
            && (reply.Granted? || (e.request.Write? && reply.Done?) || after.memory == s.memory)
            && (e.request.Write? ==> (reply.Done? <==> e.holder.Some?))
            && (e.request.Release? && reply.Done? ==> e.request.id !in after.leases)
  {
    hide IsFirstFit, Splice, Slice, RoundUp, WellPlaced, AliveDisjoint, AllDisjoint, Covers, Guarded, Cleaned, Zeros;
  }

  /** A lease that stays in the table keeps its bytes but for a write inside it. */
  lemma StepBuffer(s: Server, e: Event, id: nat)
    requires Invariant(s) && s.kind.PC? && Legal(s, e) && id in s.leases && id in Step(s, e).0.leases
    ensures Invariant(Step(s, e).0)
    ensures BufferOf(Step(s, e).0, id) == OnBuffer(BufferOf(s, id), e.request, Step(s, e).1)
  {
    hide Splice, Slice, Legal, Step, Invariant;
    StepInvariant(s, e);
    QuietStep(s, e);
    StepClock(s, e);
    if e.request.Write? && Step(s, e).1.Done? {
      WriteRefines(s, e, id);
    } else if Step(s, e).1.Granted? {
      NextIdIsFresh(s);
      GrantRefines(s, e, id);
    } else {
      StepWithin(s, e);
    }
  }

  /** The step stamps the lease: grants it or renews it. */
  predicate Stamped(e: Event, reply: Reply, id: nat) {
    (e.request == Request.KeepAlive(id) && reply.Done?) || (reply.Granted? && reply.id == id)
  }

  /** The lease has expired by the end of the step. */
  predicate RanOut(s: Server, e: Event, reply: Reply, id: nat) {
    if Stamped(e, reply, id) then e.stamp + LEASE_SECONDS <= e.end else id in s.leases && !s.leases[id].Alive(e.end)
  }

  lemma BufferKept(s: Server, e: Event, id: nat)
    requires Invariant(s) && s.kind.PC? && Legal(s, e) && Alive(Step(s, e).0, id)
    ensures Invariant(Step(s, e).0)
    ensures var (after, reply) := Step(s, e); var expected := OnBuffers(Buffers(s), e.request, reply);
            id in expected && Buffers(after)[id] == expected[id]
  {
    hide Legal, Step, Invariant, BufferOf;
    StepInvariant(s, e);
    StepClock(s, e);
    QuietStep(s, e);
    NextIdIsFresh(s);
    AliveBefore(s, e, id);
    if id in s.leases {
      StepBuffer(s, e, id);
    } else {
      GrantRefines(s, e, id);
    }
  }

  lemma ExpectedIds(b: map<nat, Buffer>, request: Request, reply: Reply, id: nat)
    requires id in OnBuffers(b, request, reply)
    ensures (id in b && !(request == Release(id) && reply.Done?)) || (reply.Granted? && reply.id == id)
  {
  }

  lemma LeaseOutcome(s: Server, e: Event, id: nat)
    requires Invariant(s) && s.kind.PC? && Legal(s, e) && !Step(s, e).1.Granted?
    requires Alive(s, id) && !(e.request == Release(id) && Step(s, e).1.Done?)
    ensures Alive(Step(s, e).0, id) <==> !RanOut(s, e, Step(s, e).1, id)
  {
    hide IsFirstFit, Splice, Slice, RoundUp, AllDisjoint, AliveDisjoint, WellPlaced, Covers, Guarded, Zeros, SeenAlive,
      LookedUp, BytesAllowed, SectorsAllowed;
  }

  lemma GrantOutcome(s: Server, e: Event, id: nat)
    requires Invariant(s) && s.kind.PC? && Legal(s, e) && Step(s, e).1.Granted? && (Alive(s, id) || id == s.nextId)
    ensures Alive(Step(s, e).0, id) <==> !RanOut(s, e, Step(s, e).1, id)
  {
    hide IsFirstFit, Splice, Slice, RoundUp, AllDisjoint, AliveDisjoint, WellPlaced, Zeros;
    StepClock(s, e);
    NextIdIsFresh(s);
  }

  lemma BufferLost(s: Server, e: Event, id: nat)
    requires Invariant(s) && s.kind.PC? && Legal(s, e)
    requires id in OnBuffers(Buffers(s), e.request, Step(s, e).1)
    ensures Alive(Step(s, e).0, id) <==> !RanOut(s, e, Step(s, e).1, id)
  {
    hide Legal, Step, Invariant, BufferOf, OnBuffers, RanOut;
    ExpectedIds(Buffers(s), e.request, Step(s, e).1, id);
    StepClock(s, e);
    if Step(s, e).1.Granted? {
      GrantOutcome(s, e, id);
    } else {
      LeaseOutcome(s, e, id);
    }
  }

  /** One flat memory behaves as separate buffers. After any step the buffers of the alive leases are
      what the request makes of the buffers before, and one is missing exactly if its time ran out. */
  lemma StepRefines(s: Server, e: Event)
    requires Invariant(s) && s.kind.PC? && Legal(s, e)
    ensures Invariant(Step(s, e).0)
    ensures var (after, reply) := Step(s, e); var expected := OnBuffers(Buffers(s), e.request, reply);
            && (forall id :: id in Buffers(after) ==> id in expected && Buffers(after)[id] == expected[id])
            && (forall id :: id in expected ==> (id in Buffers(after) <==> !RanOut(s, e, reply, id)))
  {
    hide IsFirstFit, Step, Legal, Invariant, BufferOf, OnBuffers, RanOut;
    StepInvariant(s, e);
    var (after, reply) := Step(s, e);
    var expected := OnBuffers(Buffers(s), e.request, reply);
    forall id | id in Buffers(after) ensures id in expected && Buffers(after)[id] == expected[id] {
      BufferKept(s, e, id);
    }
    forall id | id in expected ensures id in Buffers(after) <==> !RanOut(s, e, reply, id) {
      BufferLost(s, e, id);
    }
  }

  // ---- Whole runs ----

  /** What a borrower expects its lease to hold, from the requests and replies alone: zeros when it
      was granted, then every write that lies inside it. */
  function Replay(events: seq<Event>, replies: seq<Reply>, id: nat): Option<Buffer>
    requires |events| == |replies|
  {
    if events == [] then None
    else
      var n := |events| - 1;
      if replies[n].Granted? && replies[n].id == id then Some(Buffer(replies[n].offset, Zeros(replies[n].length)))
      else
        match Replay(events[..n], replies[..n], id)
        case None => None
        case Some(b) => Some(OnBuffer(b, events[n].request, replies[n]))
  }

  lemma StepReplay(s: Server, e: Event, id: nat, held: Option<Buffer>)
    requires Invariant(s) && s.kind.PC? && Legal(s, e) && Alive(Step(s, e).0, id)
    requires Alive(s, id) ==> held == Some(BufferOf(s, id))
    ensures Invariant(Step(s, e).0)
    ensures var (after, reply) := Step(s, e);
            Some(BufferOf(after, id)) ==
            if reply.Granted? && reply.id == id then Some(Buffer(reply.offset, Zeros(reply.length)))
            else match held case None => None case Some(b) => Some(OnBuffer(b, e.request, reply))
  {
    hide Legal, Step, Invariant, BufferOf, OnBuffer;
    StepInvariant(s, e);
    StepClock(s, e);
    NextIdIsFresh(s);
    AliveBefore(s, e, id);
    if id in s.leases {
      StepBuffer(s, e, id);
    } else {
      GrantRefines(s, e, id);
    }
  }

  /** The last writes are what a lease holds: in every run, the block of an alive lease has exactly
      the zeros of its grant overwritten by the writes inside it since, whatever other borrowers,
      expiries and releases come between. */
  lemma {:induction false} LastWrites(size: nat, now: real, events: seq<Event>, id: nat)
    requires Invariant(Started(PC, size, now)) && LegalRun(Started(PC, size, now), events)
    ensures var (s, replies) := Run(Started(PC, size, now), events);
            Alive(s, id) ==> Replay(events, replies, id) == Some(BufferOf(s, id))
  {
    hide Invariant, Legal, Step, BufferOf, OnBuffer;
    var start := Started(PC, size, now);
    if events != [] {
      var n := |events| - 1;
      var (s, replies) := Run(start, events[..n]);
      LastWrites(size, now, events[..n], id);
      assert Run(start, events).1[..n] == replies;
      if Alive(Run(start, events).0, id) {
        StepReplay(s, events[n], id, Replay(events[..n], replies, id));
      }
    }
  }

  /** The lease is alive and its block has the range. */
  predicate Lets(s: Server, id: nat, offset: nat, length: nat)
    requires Invariant(s)
  {
    Alive(s, id) && BufferOf(s, id).Has(offset, length)
  }

  /** An access that is let through lies in the block of an alive lease, in exactly one if it is not
      empty; one of an allowed size that is refused lies in no block still alive afterwards. */
  lemma AccessGuard(s: Server, e: Event, offset: nat, length: nat)
    requires Invariant(s) && s.kind.PC? && Legal(s, e)
    requires match e.request
             case Read(o, l) => o == offset && l == length
             case Write(o, data) => o == offset && |data| == length
             case _ => false
    ensures Invariant(Step(s, e).0)
    ensures Step(s, e).1 != Failed ==> exists id :: Lets(s, id, offset, length)
    ensures forall i, j :: length > 0 && Lets(s, i, offset, length) && Lets(s, j, offset, length) ==> i == j
    ensures Step(s, e).1 == Failed && length <= MAX_TRANSFER ==> forall id :: !Lets(Step(s, e).0, id, offset, length)
  {
    hide IsFirstFit, Splice, Slice, RoundUp;
    StepInvariant(s, e);
    if e.holder.Some? {
      assert Lets(s, e.holder.value, offset, length);
    }
    OneHolder(s, offset, length);
  }

  lemma OneHolder(s: Server, offset: nat, length: nat)
    requires Invariant(s)
    ensures forall i, j :: length > 0 && Lets(s, i, offset, length) && Lets(s, j, offset, length) ==> i == j
  {
    forall i, j | length > 0 && Lets(s, i, offset, length) && Lets(s, j, offset, length) ensures i == j {
      assert s.leases[i].Meets(s.leases[j].offset, s.leases[j].length);
    }
  }

  /** A read that is let through returns the bytes last written to the one lease it lies in. */
  lemma {:induction false} ReadReturnsLastWrites(size: nat, now: real, events: seq<Event>, e: Event)
    requires Invariant(Started(PC, size, now)) && LegalRun(Started(PC, size, now), events)
    requires Legal(Run(Started(PC, size, now), events).0, e)
    requires e.request.Read? && Step(Run(Started(PC, size, now), events).0, e).1.Data?
    ensures var (s, replies) := Run(Started(PC, size, now), events);
            var Read(offset, length) := e.request;
            exists id :: Alive(s, id) &&
              match Replay(events, replies, id)
              case None => false
              case Some(b) => b.Has(offset, length) && Step(s, e).1 == Data(Slice(b.data, offset - b.base, length))
  {
    hide IsFirstFit, Splice, Slice, RoundUp, LegalRun, Run, Replay, AllDisjoint;
    var (s, replies) := Run(Started(PC, size, now), events);
    var id := e.holder.value;
    var Read(offset, length) := e.request;
    LastWrites(size, now, events, id);
    SliceOfSlice(s.memory, s.leases[id].offset, s.leases[id].length, offset - s.leases[id].offset, length);
  }
}
