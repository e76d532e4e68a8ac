/** The phone's server as the object that serves the borrowers. */
module TermuxServers {
  import opened Bytes
  import opened Leases
  import opened LeaseBooks
  import opened AllocatorSpec

  class RAMLinkServer {
    const size: nat
    const memory: array<byte>
    const book: LeaseBook

    constructor (sizeMb: pos, clock: Clock)
      ensures Valid() && fresh(memory) && fresh(book) && book.clock == clock && book.repr == {}
      ensures State() == Server(Phone, sizeMb * 1024 * 1024, Zeros(sizeMb * 1024 * 1024), map[], 1, clock.now)
    {
      size := sizeMb * 1024 * 1024 / SECTOR_SIZE * SECTOR_SIZE;
      memory := new byte[sizeMb * 1024 * 1024 / SECTOR_SIZE * SECTOR_SIZE](_ => 0);
      book := new LeaseBook(clock);
      new;
      assert memory[..] == Zeros(size);
    }

    ghost function State(): Server
      reads memory, book, book.clock
    {
      Server(Phone, size, memory[..], book.table, book.nextLeaseId, book.clock.now)
    }

    ghost predicate Valid()
      reads memory, book, book.repr, book.clock
    {
      book.Stored() && Invariant(State())
    }

    /** What every request does: it is one legal step, and the object follows it. */
    twostate predicate Stepped(e: Event, reply: Reply)
      reads memory, book, book.repr, book.clock
    {
      && Valid() && fresh(book.repr - old(book.repr))
      && old(Invariant(State())) && Legal(old(State()), e)
      && (State(), reply) == Step(old(State()), e)
    }

    /** The leases that a look at the clock finds alive; none is deleted. */
    method AliveLeases() returns (seen: set<nat>)
      requires book.Stored()
      modifies book.clock
      ensures old(book.clock.now) <= book.clock.now
      ensures SeenAlive(book.table, seen, old(book.clock.now), book.clock.now)
    {
      var pending := book.leases.Keys;
      seen := {};
      while pending != {}
        invariant pending <= book.leases.Keys && seen <= book.leases.Keys && old(book.clock.now) <= book.clock.now
        invariant forall id :: id in seen ==> book.table[id].Alive(old(book.clock.now))
        invariant forall id :: id in book.table && id !in seen && id !in pending ==>
          !book.table[id].Alive(book.clock.now)
      {
        var id :| id in pending;
        var lease := book.leases[id];
        var alive := lease.Alive(book.clock);
        if alive {
          seen := seen + {id};
        }
        pending := pending - {id};
      }
    }

    /** The cursor scan over the leases found alive. */
    method FindFreeRegion(length: nat) returns (found: Option<nat>, ghost seen: set<nat>)
      requires book.Stored() && WellPlaced(book.table, size, book.nextLeaseId) && length > 0
      modifies book.clock
      ensures old(book.clock.now) <= book.clock.now
      ensures SeenAlive(book.table, seen, old(book.clock.now), book.clock.now)
      ensures seen <= book.table.Keys && IsFirstFit(book.table, seen, length, size, found)
    {
      hide IsFirstFit, WellPlaced, Lists, Sorted;
      var alive := AliveLeases();
      seen := alive;
      var list := book.SortedByOffset(alive);
      found := FirstGap(list, length, size);
      ScanIsFirstFit(list, book.table, alive, length, size, book.nextLeaseId);
    }

    /** Enters a lease and zeroes its block. */
    method Place(offset: nat, length: nat) returns (leaseId: nat)
      requires book.Stored() && offset + length <= memory.Length
      modifies book, memory, book.clock
      ensures book.Stored() && fresh(book.repr - old(book.repr)) && old(book.clock.now) <= book.clock.now
      ensures leaseId == old(book.nextLeaseId)
      ensures State() == Server(
        Phone, size, Splice(old(memory[..]), offset, Zeros(length)),
        old(book.table)[leaseId := Lease(offset, length, book.clock.now + LEASE_SECONDS)],
        leaseId + 1, book.clock.now)
    {
      hide Splice, Zeros;
      leaseId := book.Enter(offset, length);
      Store(memory, offset, Zeros(length));
    }

    method Borrow(requested: nat) returns (reply: Reply, ghost e: Event)
      requires Valid()
      modifies book, memory, book.clock
      ensures Stepped(e, reply) && e.request == Request.Borrow(requested)
    {
      hide Legal, Step, Invariant, RoundUp, Splice, Zeros, IsFirstFit, Cleaned, SeenAlive, WellPlaced, LeaseBook.Stored;
      ghost var before := State();
      var length := RoundUp(requested);
      ghost var dropped := book.Cleanup();
      if length <= 0 || length > size {
        e := Moment(Request.Borrow(requested), dropped, book.clock.now);
        BorrowIs(before, e, requested);
        return Failed, e;
      }
      CleanedPlaced(before, dropped);
      ghost var cleaned := book.clock.now;
      var found;
      ghost var seen;
      found, seen := FindFreeRegion(length);
      FirstFitWithin(book.table, before.leases, seen, length, size, found);
      ghost var looked := book.clock.now;
      FoundLater(before.leases, dropped, seen, before.now, cleaned, cleaned, looked);
      FoundLater(before.leases, dropped, seen, before.now, cleaned, looked, looked);
      e := Event(Request.Borrow(requested), dropped, seen, found, None, book.clock.now, book.clock.now);
      BorrowIs(before, e, requested);
      if found.None? {
        return Failed, e;
      }
      FoundRoom(before, seen, length, found);
      var leaseId := Place(found.value, length);
      FoundLater(before.leases, dropped, seen, before.now, before.now, looked, book.clock.now);
      e := Event(Request.Borrow(requested), dropped, seen, found, None, book.clock.now, book.clock.now);
      BorrowIs(before, e, requested);
      reply := Granted(leaseId, found.value, length);
    }

    /** Finds a lease that is alive; one found expired is deleted. */
    method GetLease(id: nat) returns (lease: Option<LeaseRecord>, ghost dropped: set<nat>)
      requires book.Stored()
      modifies book`leases, book`table, book.clock
      ensures book.Stored() && old(book.clock.now) <= book.clock.now
      ensures LookedUp(old(book.table), id, dropped, old(book.clock.now), book.clock.now)
      ensures book.table == old(book.table) - dropped
      ensures lease == if id in book.leases then Some(book.leases[id]) else None
    {
      dropped := {};
      assert book.table - {} == book.table;
      if id !in book.leases {
        return None, dropped;
      }
      var record := book.leases[id];
      var alive := record.Alive(book.clock);
      if !alive {
        book.Remove(id);
        return None, {id};
      }
      lease := Some(record);
    }

    method Release(id: nat) returns (reply: Reply, ghost e: Event)
      requires Valid()
      modifies book, book.clock
      ensures Stepped(e, reply) && e.request == Request.Release(id)
    {
      hide IsFirstFit, WellPlaced, AliveDisjoint;
      ghost var before := State();
      var lease;
      ghost var dropped;
      lease, dropped := GetLease(id);
      e := Moment(Request.Release(id), dropped, book.clock.now);
      StepInvariant(before, e);
      if lease.None? {
        return Failed, e;
      }
      book.Remove(id);
      reply := Done;
    }

    method KeepAlive(id: nat) returns (reply: Reply, ghost e: Event)
      requires Valid()
      modifies book, book.repr, book.clock
      ensures Stepped(e, reply) && e.request == Request.KeepAlive(id)
    {
      hide Legal, Step, Invariant, LeaseBook.Stored;
      ghost var before := State();
      var lease;
      ghost var dropped;
      lease, dropped := GetLease(id);
      if lease.None? {
        e := Moment(Request.KeepAlive(id), dropped, book.clock.now);
        KeepAliveIs(before, e, id);
        return Failed, e;
      }
      book.Renew(id);
      e := Moment(Request.KeepAlive(id), dropped, book.clock.now);
      KeepAliveIs(before, e, id);
      reply := Done;
    }

    method Info() returns (reply: Reply, ghost e: Event)
      requires Valid()
      modifies book`leases, book`table, book.clock
      ensures Stepped(e, reply) && e.request == Request.Info
    {
      hide IsFirstFit, WellPlaced, AliveDisjoint, RoundUp, Lendable, Cleaned;
      ghost var before := State();
      ghost var dropped := book.Cleanup();
      e := Moment(Request.Info, dropped, book.clock.now);
      reply := Active(book.Count());
      assert State() == before.(leases := before.leases - dropped, now := e.end);
      assert (State(), reply) == Step(before, e);
      StepInvariant(before, e);
    }

    method Read(offset: nat, length: nat) returns (reply: Reply, ghost e: Event)
      requires Valid()
      ensures Stepped(e, reply) && e.request == Request.Read(offset, length)
    {
      hide WellPlaced, AliveDisjoint;
      e := Moment(Request.Read(offset, length), {}, book.clock.now);
      assert State().leases - {} == State().leases;
      if length > MAX_TRANSFER || !ValidRange(offset, length, size) {
        return Failed, e;
      }
      reply := Data(memory[offset..offset + length]);
    }

    method Write(offset: nat, data: bytes) returns (reply: Reply, ghost e: Event)
      requires Valid()
      modifies memory
      ensures Stepped(e, reply) && e.request == Request.Write(offset, data)
    {
      hide WellPlaced, AliveDisjoint, Splice;
      e := Moment(Request.Write(offset, data), {}, book.clock.now);
      assert State().leases - {} == State().leases;
      if |data| > MAX_TRANSFER || !ValidRange(offset, |data|, size) {
        return Failed, e;
      }
      Store(memory, offset, data);
      reply := Done;
    }

    method BlockRead(sector: nat, count: nat) returns (reply: Reply, ghost e: Event)
      requires Valid()
      ensures Stepped(e, reply) && e.request == Request.BlockRead(sector, count)
    {
      hide WellPlaced, AliveDisjoint;
      e := Moment(Request.BlockRead(sector, count), {}, book.clock.now);
      assert State().leases - {} == State().leases;
      var sectors := size / SECTOR_SIZE;
      if sector > sectors || count > sectors - sector || count * SECTOR_SIZE > MAX_TRANSFER {
        return Failed, e;
      }
      SectorsAreBytes(sector, count, size);
      reply := Data(memory[sector * SECTOR_SIZE..sector * SECTOR_SIZE + count * SECTOR_SIZE]);
    }

    /** The payload of a block write is as many whole sectors as its header says. */
    method BlockWrite(sector: nat, count: nat, data: bytes) returns (reply: Reply, ghost e: Event)
      requires Valid() && |data| == count * SECTOR_SIZE
      modifies memory
      ensures Stepped(e, reply) && e.request == Request.BlockWrite(sector, count, data)
    {
      hide WellPlaced, AliveDisjoint, Splice;
      e := Moment(Request.BlockWrite(sector, count, data), {}, book.clock.now);
      assert State().leases - {} == State().leases;
      var sectors := size / SECTOR_SIZE;
      if sector > sectors || count > sectors - sector || count * SECTOR_SIZE > MAX_TRANSFER {
        return Failed, e;
      }
      SectorsAreBytes(sector, count, size);
      Store(memory, sector * SECTOR_SIZE, data);
      reply := Done;
    }

    /** One request is one step of the state machine. */
    method Handle(request: Request) returns (reply: Reply, ghost e: Event)
      requires Valid()
      requires request.BlockWrite? ==> |request.data| == request.count * SECTOR_SIZE
      modifies book, book.repr, memory, book.clock
      ensures Stepped(e, reply) && e.request == request
    {
      hide WellPlaced, AliveDisjoint, RoundUp, Splice, Zeros, IsFirstFit;
      assert State().leases - {} == State().leases;
      match request
      case Borrow(requested) => reply, e := Borrow(requested);
      case Release(id) => reply, e := Release(id);
      case KeepAlive(id) => reply, e := KeepAlive(id);
      case Info => reply, e := Info();
      case Read(offset, length) => reply, e := Read(offset, length);
      case Write(offset, data) => reply, e := Write(offset, data);
      case Ping => reply, e := Pong, Moment(request, {}, book.clock.now);
      case BlockInfo =>
        var sectors := size / SECTOR_SIZE;
        reply, e := Sectors(SECTOR_SIZE, sectors), Moment(request, {}, book.clock.now);
      case BlockRead(sector, count) => reply, e := BlockRead(sector, count);
      case BlockWrite(sector, count, data) => reply, e := BlockWrite(sector, count, data);
    }
  }
}
