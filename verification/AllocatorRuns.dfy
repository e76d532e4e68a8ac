/** Whole runs of an allocator, phone or PC: what stays true of leases whatever the clients do. */
module AllocatorRuns {
  import opened Bytes
  import opened Leases
  import opened AllocatorSpec

  /** An allocator just started: a zeroed buffer, nothing lent, first id 1. */
  function Started(kind: Kind, size: nat, now: real): Server {
    Server(kind, size, Zeros(size), map[], 1, now)
  }

  /** Every event is possible in the state the events before it lead to. */
  ghost predicate LegalRun(s: Server, events: seq<Event>)
    requires Invariant(s)
  {
    events == [] ||
    (LegalRun(s, events[..|events| - 1]) && Legal(Run(s, events[..|events| - 1]).0, events[|events| - 1]))
  }

  ghost function Run(s: Server, events: seq<Event>): (r: (Server, seq<Reply>))
    requires Invariant(s)
    ensures Invariant(r.0) && |r.1| == |events| && r.0.kind == s.kind && r.0.size == s.size
  {
    if events == [] then (s, [])
    else
      var (before, replies) := Run(s, events[..|events| - 1]);
      var e := events[|events| - 1];
      if Legal(before, e) then
        StepInvariant(before, e);
        (Step(before, e).0, replies + [Step(before, e).1])
      else (before, replies + [Failed])
  }

  /** One more event. */
  lemma RunSnoc(s: Server, events: seq<Event>, e: Event)
    requires Invariant(s) && LegalRun(s, events) && Legal(Run(s, events).0, e)
    ensures LegalRun(s, events + [e])
    ensures var (before, replies) := Run(s, events);
            Run(s, events + [e]) == (Step(before, e).0, replies + [Step(before, e).1])
  {
    hide Invariant, Legal, Step;
    assert (events + [e])[..|events|] == events;
  }

  /** Lease safety. In every state of every run the leases alive are whole sectors inside the buffer,
      no two share a byte, and their lengths sum to at most the buffer. */
  lemma {:induction false} LeaseSafety(kind: Kind, size: nat, now: real, events: seq<Event>)
    requires Invariant(Started(kind, size, now)) && LegalRun(Started(kind, size, now), events)
    ensures var s := Run(Started(kind, size, now), events).0;
            && s.size == size
            && WellPlaced(s.leases, size, s.nextId)
            && AliveDisjoint(s.leases, s.now)
            && AliveLength(s.leases, s.now, s.nextId) <= size
  {
    hide Legal, Step, WellPlaced, AliveDisjoint, AllDisjoint, AliveLength;
    if events != [] {
      var front, e := events[..|events| - 1], events[|events| - 1];
      LeaseSafety(kind, size, now, front);
      StepInvariant(Run(Started(kind, size, now), front).0, e);
    }
    var s := Run(Started(kind, size, now), events).0;
    Conservation(s.leases, s.now, s.size, s.nextId);
  }

  /** Lease ids are never reused: those of later grants are larger. */
  lemma {:induction false} GrantsIncrease(s: Server, events: seq<Event>)
    requires Invariant(s) && LegalRun(s, events)
    ensures var (after, replies) := Run(s, events);
            && s.nextId <= after.nextId
            && (forall i :: 0 <= i < |replies| && replies[i].Granted? ==> s.nextId <= replies[i].id < after.nextId)
            && (forall i, j :: 0 <= i < j < |replies| && replies[i].Granted? && replies[j].Granted? ==>
                  replies[i].id < replies[j].id)
  {
    hide Invariant, Legal, Step;
    if events != [] {
      var front, e := events[..|events| - 1], events[|events| - 1];
      StepClock(Run(s, front).0, e);
      GrantsIncrease(s, front);
    }
  }

  // ---- Keepalive safety ----

  /** When the lease runs out: LEASE_SECONDS after its last keepalive, or when it would have. */
  function Due(expires: real, events: seq<Event>, id: nat): real {
    if events == [] then expires
    else
      var e := events[|events| - 1];
      if e.request == Request.KeepAlive(id) then e.stamp + LEASE_SECONDS
      else Due(expires, events[..|events| - 1], id)
  }

  /** No release of the lease, each keepalive stamped before the lease is due, and every step over
      before it is due. */
  predicate KeptUp(expires: real, events: seq<Event>, id: nat) {
    events == [] ||
    (var front, e := events[..|events| - 1], events[|events| - 1];
     && KeptUp(expires, front, id)
     && e.request != Release(id)
     && (e.request == Request.KeepAlive(id) ==> e.stamp < Due(expires, front, id))
     && e.end < Due(expires, events, id))
  }

  predicate Grants(r: Reply, lease: Lease) {
    r.Granted? && lease.Meets(r.offset, r.length)
  }

  /** One step of anybody leaves such a lease in place, and grants no byte of it. */
  lemma StepKeeps(s: Server, e: Event, id: nat)
    requires Invariant(s) && Legal(s, e) && Alive(s, id)
    requires e.request != Release(id)
    requires e.request == Request.KeepAlive(id) ==> e.stamp < s.leases[id].expires && e.end < e.stamp + LEASE_SECONDS
    requires e.request != Request.KeepAlive(id) ==> e.end < s.leases[id].expires
    ensures var (after, reply) := Step(s, e);
            && Alive(after, id)
            && after.leases[id] ==
               (if e.request == Request.KeepAlive(id) then s.leases[id].(expires := e.stamp + LEASE_SECONDS)
                else s.leases[id])
            && !Grants(reply, s.leases[id])
  {
    hide RoundUp, AliveDisjoint, AllDisjoint, WellPlaced, IsFirstFit, Splice, Slice, Zeros, BytesAllowed,
      SectorsAllowed, Guarded, SeenAlive;
    NextIdIsFresh(s);
    if Step(s, e).1.Granted? {
      GrantApart(s, e);
    }
  }

  /** Keepalive safety, on the phone and on the PC. A lease that is kept alive in time and not released
      stays in the table with its block, and no byte of its block is granted again, whatever the other
      clients do. */
  lemma {:induction false} KeepAliveSafety(s: Server, events: seq<Event>, id: nat)
    requires Invariant(s) && Alive(s, id) && LegalRun(s, events) && KeptUp(s.leases[id].expires, events, id)
    ensures var (after, replies) := Run(s, events);
            && Invariant(after)
            && Alive(after, id)
            && after.leases[id] == s.leases[id].(expires := Due(s.leases[id].expires, events, id))
            && forall i :: 0 <= i < |replies| ==> !Grants(replies[i], s.leases[id])
  {
    hide Invariant, Legal, Step;
    if events != [] {
      var front, e := events[..|events| - 1], events[|events| - 1];
      var before := Run(s, front).0;
      KeepAliveSafety(s, front, id);
      StepInvariant(before, e);
      StepKeeps(before, e, id);
    }
  }

  // ---- Search and insert as two steps ----

  /** Two blocks share a byte. */
  predicate BlocksMeet(o1: nat, l1: nat, o2: nat, l2: nat) {
    o1 < o2 + l2 && o2 < o1 + l1
  }

  /** A first fit for a longer block lies no earlier, and if it lies later, then just behind a lease. */
  lemma LongerFit(t: Table, ids: set<nat>, l1: nat, l2: nat, size: nat, nextId: nat, o1: nat, o2: nat)
    requires ids <= t.Keys && WellPlaced(t, size, nextId) && 0 < l1 <= l2
    requires IsFirstFit(t, ids, l1, size, Some(o1)) && IsFirstFit(t, ids, l2, size, Some(o2))
    ensures o1 <= o2
    ensures o1 < o2 ==> exists id :: id in ids && t[id].End() == o2
  {
    assert Free(t, ids, o2, l1, size);
    if o1 < o2 {
      assert !Free(t, ids, o2 - 1, l2, size);
      var id :| id in ids && t[id].Meets(o2 - 1, l2);
      assert t[id].End() == o2;
    }
  }

  lemma FitsMeet(t: Table, ids: set<nat>, l1: nat, l2: nat, size: nat, nextId: nat, o1: nat, o2: nat)
    requires ids <= t.Keys && WellPlaced(t, size, nextId) && 0 < l1 <= l2
    requires IsFirstFit(t, ids, l1, size, Some(o1)) && IsFirstFit(t, ids, l2, size, Some(o2))
    ensures o1 <= o2
    ensures BlocksMeet(o1, l1, o2, l2) <==> Free(t, ids, o1, l2, size)
  {
    LongerFit(t, ids, l1, l2, size, nextId, o1, o2);
    if o1 < o2 {
      var id :| id in ids && t[id].End() == o2;
      assert !t[id].Meets(o1, l1);
    }
  }

  /** The insert half of a borrow, for a block found earlier. */
  function InsertFound(s: Server, offset: nat, length: nat, stamp: real): Server {
    s.(leases := s.leases[s.nextId := Lease(offset, length, stamp + LEASE_SECONDS)], nextId := s.nextId + 1)
  }

  /** The search and the insert are two critical sections. Exactly when two borrowers that both search
      before either inserts come to hold a byte in common: when the longer of the two blocks would
      have fitted at the earlier of the two places that the searches found. */
  lemma SearchesBeforeInserts(s: Server, seen: set<nat>, l1: nat, l2: nat, o1: nat, o2: nat)
    requires Invariant(s) && seen <= s.leases.Keys && 0 < l1 && 0 < l2
    requires IsFirstFit(s.leases, seen, l1, s.size, Some(o1)) && IsFirstFit(s.leases, seen, l2, s.size, Some(o2))
    requires forall id :: Alive(s, id) ==> id in seen
    ensures var both := InsertFound(InsertFound(s, o1, l1, s.now), o2, l2, s.now);
            AliveDisjoint(both.leases, s.now) <==> !Free(s.leases, seen, Min(o1, o2), Max(l1, l2), s.size)
  {
    hide IsFirstFit, AllDisjoint;
    if l1 <= l2 {
      FitsMeet(s.leases, seen, l1, l2, s.size, s.nextId, o1, o2);
    } else {
      FitsMeet(s.leases, seen, l2, l1, s.size, s.nextId, o2, o1);
    }
    FoundFree(s, seen, l1, o1);
    FoundFree(s, seen, l2, o2);
    NextIdIsFresh(s);
    var both := InsertFound(InsertFound(s, o1, l1, s.now), o2, l2, s.now);
    var i, j := s.nextId, s.nextId + 1;
    assert both.leases[i].Alive(s.now) && both.leases[j].Alive(s.now);
    assert both.leases[i].Meets(both.leases[j].offset, both.leases[j].length) <==> BlocksMeet(o1, l1, o2, l2);
    InsertedApart(s, o1, l1, o2, l2);
  }

  lemma FoundFree(s: Server, seen: set<nat>, length: nat, o: nat)
    requires seen <= s.leases.Keys && IsFirstFit(s.leases, seen, length, s.size, Some(o))
    requires forall id :: Alive(s, id) ==> id in seen
    ensures forall id :: Alive(s, id) ==> !s.leases[id].Meets(o, length)
  {
    assert Free(s.leases, seen, o, length, s.size);
  }

  lemma InsertedApart(s: Server, o1: nat, l1: nat, o2: nat, l2: nat)
    requires AliveDisjoint(s.leases, s.now) && s.nextId !in s.leases && s.nextId + 1 !in s.leases
    requires forall id :: Alive(s, id) ==> !s.leases[id].Meets(o1, l1) && !s.leases[id].Meets(o2, l2)
    ensures !BlocksMeet(o1, l1, o2, l2) ==>
              AliveDisjoint(InsertFound(InsertFound(s, o1, l1, s.now), o2, l2, s.now).leases, s.now)
  {
    var both := InsertFound(InsertFound(s, o1, l1, s.now), o2, l2, s.now).leases;
    if !BlocksMeet(o1, l1, o2, l2) {
      forall i, j | i in both && j in both && i != j && both[i].Alive(s.now) && both[j].Alive(s.now)
        ensures !both[i].Meets(both[j].offset, both[j].length)
      {
        assert i in s.leases ==> Alive(s, i);
        assert j in s.leases ==> Alive(s, j);
      }
    }
  }

  /** Two requests for the same length find the same block and hold it at once. */
  lemma SameLengthMeet(s: Server, seen: set<nat>, length: nat, o1: nat, o2: nat)
    requires Invariant(s) && seen <= s.leases.Keys && 0 < length
    requires IsFirstFit(s.leases, seen, length, s.size, Some(o1))
    requires IsFirstFit(s.leases, seen, length, s.size, Some(o2))
    requires forall id :: Alive(s, id) ==> id in seen
    ensures o1 == o2
    ensures !AliveDisjoint(InsertFound(InsertFound(s, o1, length, s.now), o2, length, s.now).leases, s.now)
  {
    SearchesBeforeInserts(s, seen, length, length, o1, o2);
    assert Free(s.leases, seen, o1, length, s.size) && Free(s.leases, seen, o2, length, s.size);
  }
}
