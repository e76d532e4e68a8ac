/** The provider as the object that serves the borrowers: a memory array zeroed and written in place
    behind a book of leases. */
module Providers {
  import opened Bytes
  import opened Leases
  import opened LeaseBooks
  import opened AllocatorSpec

  class RAMProvider {
    const size: nat
    const memory: array<byte>
    const book: LeaseBook

    constructor (sizeMb: pos, clock: Clock)
      ensures Valid() && fresh(memory) && fresh(book) && book.clock == clock && book.repr == {}
      ensures State() == Server(PC, sizeMb * 1024 * 1024, Zeros(sizeMb * 1024 * 1024), map[], 1, clock.now)
    {
      size := sizeMb * 1024 * 1024 / SECTOR_SIZE * SECTOR_SIZE;
      memory := new byte[sizeMb * 1024 * 1024 / SECTOR_SIZE * SECTOR_SIZE](_ => 0);
      book := new LeaseBook(clock);
      new;
      assert memory[..] == Zeros(size);
    }

    ghost function State(): Server
      reads memory, book, book.clock
    {
      Server(PC, size, memory[..], book.table, book.nextLeaseId, book.clock.now)
    }

    ghost predicate Valid()
      reads memory, book, book.repr, book.clock
    {
      book.Stored() && Invariant(State())
    }

    /** What every request does: it is one legal step, and the object follows it. */
    twostate predicate Stepped(e: Event, reply: Reply)
      reads memory, book, book.repr, book.clock
    {
      && Valid() && fresh(book.repr - old(book.repr))
      && old(Invariant(State())) && Legal(old(State()), e)
      && (State(), reply) == Step(old(State()), e)
    }

    /** The cursor scan over the leases left by a cleanup. */
    method FreeRegion(length: nat) returns (found: Option<nat>, ghost dropped: set<nat>)
      requires Valid() && length > 0
      modifies book`leases, book`table, book.clock
      ensures book.Stored() && old(book.clock.now) <= book.clock.now
      ensures Cleaned(old(book.table), dropped, old(book.clock.now), book.clock.now)
      ensures book.table == old(book.table) - dropped
      ensures IsFirstFit(old(book.table), old(book.table).Keys - dropped, length, size, found)
    {
      hide IsFirstFit, WellPlaced, AliveDisjoint, AllDisjoint, Lists, Sorted;
      dropped := book.Cleanup();
      WithinKeeps(book.table, old(book.table), size, book.nextLeaseId);
      var list := book.SortedByOffset(book.leases.Keys);
      found := FirstGap(list, length, size);
      ScanIsFirstFit(list, book.table, book.table.Keys, length, size, book.nextLeaseId);
      FirstFitWithin(book.table, old(book.table), book.table.Keys, length, size, found);
      assert book.table.Keys == old(book.table).Keys - dropped;
    }

    method Borrow(requested: nat) returns (reply: Reply, ghost e: Event)
      requires Valid()
      modifies book, memory, book.clock
      ensures Stepped(e, reply) && e.request == Request.Borrow(requested)
    {
      hide Legal, Step, Invariant, RoundUp, Splice, Zeros, IsFirstFit, Cleaned;
      ghost var before := State();
      var length := RoundUp(requested);
      if length <= 0 || length > size {
        assert before.leases - {} == before.leases;
        e := Moment(Request.Borrow(requested), {}, book.clock.now);
        BorrowIs(before, e, requested);
        return Failed, e;
      }
      ghost var dropped;
      var found;
      found, dropped := FreeRegion(length);
      ghost var seen, cleaned := before.leases.Keys - dropped, book.clock.now;
      e := Event(Request.Borrow(requested), dropped, seen, found, None, book.clock.now, book.clock.now);
      BorrowIs(before, e, requested);
      if found.None? {
        return Failed, e;
      }
      FoundRoom(before, seen, length, found);
      var leaseId := book.Enter(found.value, length);
      Store(memory, found.value, Zeros(length));
      FoundLater(before.leases, dropped, seen, before.now, before.now, cleaned, book.clock.now);
      e := Event(Request.Borrow(requested), dropped, seen, found, None, book.clock.now, book.clock.now);
      BorrowIs(before, e, requested);
      reply := Granted(leaseId, found.value, length);
    }

    method Release(id: nat) returns (reply: Reply, ghost e: Event)
      requires Valid()
      modifies book
      ensures Stepped(e, reply) && e.request == Request.Release(id)
    {
      hide IsFirstFit, WellPlaced, AliveDisjoint, AllDisjoint;
      ghost var before := State();
      e := Moment(Request.Release(id), {}, book.clock.now);
      assert before.leases - {} == before.leases;
      StepInvariant(before, e);
      if id !in book.leases {
        return Failed, e;
      }
      book.Remove(id);
      reply := Done;
    }

    /** Finds a lease that survives a cleanup. */
    method GetLease(id: nat) returns (lease: Option<LeaseRecord>, ghost dropped: set<nat>)
      requires book.Stored()
      modifies book`leases, book`table, book.clock
      ensures book.Stored() && old(book.clock.now) <= book.clock.now
      ensures Cleaned(old(book.table), dropped, old(book.clock.now), book.clock.now)
      ensures book.table == old(book.table) - dropped
      ensures lease == if id in book.leases then Some(book.leases[id]) else None
    {
      dropped := book.Cleanup();
      lease := if id in book.leases then Some(book.leases[id]) else None;
    }

    method KeepAlive(id: nat) returns (reply: Reply, ghost e: Event)
      requires Valid()
      modifies book, book.repr, book.clock
      ensures Stepped(e, reply) && e.request == Request.KeepAlive(id)
    {
      hide Legal, Step, Invariant, Cleaned, LeaseBook.Stored;
      ghost var before := State();
      var lease;
      ghost var dropped;
      lease, dropped := GetLease(id);
      ghost var cleaned := book.clock.now;
      if lease.None? {
        e := Moment(Request.KeepAlive(id), dropped, book.clock.now);
        KeepAliveIs(before, e, id);
        return Failed, e;
      }
      book.Renew(id);
      FoundLater(before.leases, dropped, {}, before.now, before.now, cleaned, book.clock.now);
      e := Moment(Request.KeepAlive(id), dropped, book.clock.now);
      KeepAliveIs(before, e, id);
      reply := Done;
    }

    /** The check of a read or write: some lease, alive when looked at, has the whole range. */
    method Holder(offset: nat, length: nat) returns (holder: Option<nat>)
      requires book.Stored()
      modifies book.clock
      ensures old(book.clock.now) <= book.clock.now
      ensures match holder
              case Some(id) =>
                id in book.table && Covers(book.table[id], offset, length) && book.table[id].Alive(old(book.clock.now))
              case None => forall id :: id in book.table && Covers(book.table[id], offset, length) ==>
                !book.table[id].Alive(book.clock.now)
    {
      var pending := book.leases.Keys;
      while pending != {}
        invariant pending <= book.leases.Keys && old(book.clock.now) <= book.clock.now
        invariant forall id :: id in book.table && id !in pending && Covers(book.table[id], offset, length) ==>
          !book.table[id].Alive(book.clock.now)
      {
        var id :| id in pending;
        var lease := book.leases[id];
        var alive := lease.Alive(book.clock);
        if alive && offset >= lease.offset && offset + length <= lease.offset + lease.length {
          return Some(id);
        }
        pending := pending - {id};
      }
      holder := None;
    }

    method Read(offset: nat, length: nat) returns (reply: Reply, ghost e: Event)
      requires Valid()
      modifies book.clock
      ensures Stepped(e, reply) && e.request == Request.Read(offset, length)
    {
      hide IsFirstFit, AliveDisjoint, AllDisjoint;
      ghost var before := State();
      assert before.leases - {} == before.leases;
      var holder := None;
      if length <= MAX_TRANSFER {
        holder := Holder(offset, length);
      }
      e := Event(Request.Read(offset, length), {}, {}, None, holder, book.clock.now, book.clock.now);
      StepInvariant(before, e);
      if holder.None? {
        return Failed, e;
      }
      reply := Data(memory[offset..offset + length]);
    }

    method Write(offset: nat, data: bytes) returns (reply: Reply, ghost e: Event)
      requires Valid()
      modifies memory, book.clock
      ensures Stepped(e, reply) && e.request == Request.Write(offset, data)
    {
      hide IsFirstFit, AliveDisjoint, AllDisjoint, Splice;
      ghost var before := State();
      assert before.leases - {} == before.leases;
      var holder := None;
      if |data| <= MAX_TRANSFER {
        holder := Holder(offset, |data|);
      }
      e := Event(Request.Write(offset, data), {}, {}, None, holder, book.clock.now, book.clock.now);
      StepInvariant(before, e);
      if holder.None? {
        return Failed, e;
      }
      Store(memory, offset, data);
      reply := Done;
    }

    method Info() returns (reply: Reply, ghost e: Event)
      requires Valid()
      modifies book`leases, book`table, book.clock
      ensures Stepped(e, reply) && e.request == Request.Info
    {
      hide IsFirstFit, WellPlaced, AliveDisjoint, AllDisjoint, RoundUp, Lendable, Cleaned;
      ghost var before := State();
      ghost var dropped := book.Cleanup();
      e := Moment(Request.Info, dropped, book.clock.now);
      reply := Active(book.Count());
      assert State() == before.(leases := before.leases - dropped, now := e.end);
      assert (State(), reply) == Step(before, e);
      StepInvariant(before, e);
    }

    /** One request is one step of the state machine; an unknown operation fails. */
    method Handle(request: Request) returns (reply: Reply, ghost e: Event)
      requires Valid()
      requires request.BlockWrite? ==> |request.data| == request.count * SECTOR_SIZE
      modifies book, book.repr, memory, book.clock
      ensures Stepped(e, reply) && e.request == request
    {
      hide WellPlaced, AliveDisjoint, AllDisjoint, RoundUp, Splice, Zeros, IsFirstFit;
      assert State().leases - {} == State().leases;
      match request
      case Borrow(requested) => reply, e := Borrow(requested);
      case Release(id) => reply, e := Release(id);
      case KeepAlive(id) => reply, e := KeepAlive(id);
      case Read(offset, length) => reply, e := Read(offset, length);
      case Write(offset, data) => reply, e := Write(offset, data);
      case Info => reply, e := Info();
      case Ping => reply, e := Pong, Moment(request, {}, book.clock.now);
      case BlockInfo => reply, e := Failed, Moment(request, {}, book.clock.now);
      case BlockRead(_, _) => reply, e := Failed, Moment(request, {}, book.clock.now);
      case BlockWrite(_, _, _) => reply, e := Failed, Moment(request, {}, book.clock.now);
    }
  }
}
