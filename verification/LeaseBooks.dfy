/** The dictionary of lease records that both providers keep, with the clock they read. */
module LeaseBooks {
  import opened Bytes
  import opened Leases

  /** A monotonic clock: each reading may be any moment from the last one on. */
  class Clock {
    var now: real

    constructor (start: real)
      ensures now == start
    {
      now := start;
    }

    method Monotonic() returns (t: real)
      modifies this
      ensures old(now) <= t == now
    {
      var later: real := *;
      if later > now {
        now := later;
      }
      t := now;
    }
  }

  class LeaseRecord {
    const leaseId: nat
    const offset: nat
    const length: nat
    var expiresAt: real

    constructor (leaseId: nat, offset: nat, length: nat, clock: Clock)
      modifies clock
      ensures this.leaseId == leaseId && old(clock.now) <= clock.now
      ensures Value() == Lease(offset, length, clock.now + LEASE_SECONDS)
    {
      var t := clock.Monotonic();
      this.leaseId, this.offset, this.length, expiresAt := leaseId, offset, length, t + LEASE_SECONDS;
    }

    function Value(): Lease
      reads this
    {
      Lease(offset, length, expiresAt)
    }

    method Alive(clock: Clock) returns (alive: bool)
      modifies clock
      ensures old(clock.now) <= clock.now && alive == Value().Alive(clock.now)
    {
      var t := clock.Monotonic();
      alive := t < expiresAt;
    }

    method KeepAlive(clock: Clock)
      modifies this, clock
      ensures old(clock.now) <= clock.now
      ensures Value() == old(Value()).(expires := clock.now + LEASE_SECONDS)
    {
      var t := clock.Monotonic();
      expiresAt := t + LEASE_SECONDS;
    }
  }

  // ---- Sorting by offset ----

  /** Inserting a lease into a list in offset order. */
  function Insert(list: seq<Lease>, lease: Lease): seq<Lease> {
    if list == [] || lease.offset < list[0].offset then [lease] + list
    else [list[0]] + Insert(list[1..], lease)
  }

  lemma {:induction false} InsertSorted(list: seq<Lease>, lease: Lease)
    requires Sorted(list)
    ensures Sorted(Insert(list, lease))
    ensures forall l :: l in Insert(list, lease) <==> l == lease || l in list
    ensures list != [] && list[0].offset <= lease.offset ==> Insert(list, lease)[0] == list[0]
  {
    if list != [] && lease.offset >= list[0].offset {
      assert forall i :: 0 <= i < |list[1..]| ==> list[1..][i] == list[i + 1];
      InsertSorted(list[1..], lease);
      var rest := Insert(list[1..], lease);
      assert forall l :: l in rest ==> list[0].offset <= l.offset;
      assert forall l :: l in list <==> l == list[0] || l in list[1..];
    }
  }

  lemma ListsInsert(list: seq<Lease>, t: Table, ids: set<nat>, id: nat)
    requires ids <= t.Keys && Lists(list, t, ids) && Sorted(list) && id in t
    ensures Lists(Insert(list, t[id]), t, ids + {id}) && Sorted(Insert(list, t[id]))
  {
    hide Insert, Sorted;
    InsertSorted(list, t[id]);
    var longer, more := Insert(list, t[id]), ids + {id};
    forall i | 0 <= i < |longer| ensures Named(t, more, longer[i]) {
      assert longer[i] in longer;
      if longer[i] == t[id] {
        assert id in more;
      } else {
        var k :| 0 <= k < |list| && list[k] == longer[i];
        assert Named(t, ids, list[k]);
      }
    }
  }

  /** The cursor loop of the first-fit search. */
  method FirstGap(list: seq<Lease>, length: nat, size: nat) returns (found: Option<nat>)
    ensures found == Scan(list, 0, length, size)
  {
    var cursor := 0;
    for i := 0 to |list|
      invariant 0 <= cursor && Scan(list[i..], cursor, length, size) == Scan(list, 0, length, size)
    {
      if cursor + length <= list[i].offset {
        return Some(cursor);
      }
      cursor := Max(cursor, list[i].End());
      assert list[i..][1..] == list[i + 1..];
    }
    return if cursor + length <= size then Some(cursor) else None;
  }

  class LeaseBook {
    const clock: Clock
    var leases: map<nat, LeaseRecord>
    var nextLeaseId: nat
    // The values of the records, and every record made so far.
    ghost var table: Table
    ghost var repr: set<LeaseRecord>

    constructor (clock: Clock)
      ensures this.clock == clock && table == map[] && nextLeaseId == 1 && repr == {} && Stored()
    {
      this.clock := clock;
      leases, nextLeaseId, table, repr := map[], 1, map[], {};
    }

    ghost predicate Stored()
      reads this, repr
    {
      && leases.Keys == table.Keys
      && (forall id :: id in leases ==> leases[id] in repr && leases[id].Value() == table[id])
      && (forall i, j :: i in leases && j in leases && i != j ==> leases[i] != leases[j])
    }

    /** Deletes every lease that a look at the clock finds expired. */
    method Cleanup() returns (ghost dropped: set<nat>)
      requires Stored()
      modifies this`leases, this`table, clock
      ensures Stored() && old(clock.now) <= clock.now
      ensures Cleaned(old(table), dropped, old(clock.now), clock.now) && table == old(table) - dropped
    {
      var pending, expired := leases.Keys, {};
      while pending != {}
        invariant Stored() && leases == old(leases) && table == old(table)
        invariant pending <= leases.Keys && expired <= leases.Keys
        invariant old(clock.now) <= clock.now
        invariant forall id :: id in expired ==> !table[id].Alive(clock.now)
        invariant forall id :: id in table && id !in expired && id !in pending ==> table[id].Alive(old(clock.now))
      {
        var id :| id in pending;
        var alive := leases[id].Alive(clock);
        if !alive {
          expired := expired + {id};
        }
        pending := pending - {id};
      }
      leases, table := leases - expired, table - expired;
      dropped := expired;
    }

    /** The leases named by `ids`, in offset order. */
    method SortedByOffset(ids: set<nat>) returns (list: seq<Lease>)
      requires Stored() && ids <= leases.Keys
      ensures Sorted(list) && Lists(list, table, ids)
    {
      list := [];
      var pending := ids;
      while pending != {}
        invariant pending <= ids
        invariant Sorted(list) && Lists(list, table, ids - pending)
      {
        var id :| id in pending;
        ListsInsert(list, table, ids - pending, id);
        assert ids - (pending - {id}) == ids - pending + {id};
        list := Insert(list, leases[id].Value());
        pending := pending - {id};
      }
    }

    /** Enters a lease under the next id. */
    method Enter(offset: nat, length: nat) returns (leaseId: nat)
      requires Stored()
      modifies this, clock
      ensures Stored() && fresh(repr - old(repr)) && old(clock.now) <= clock.now
      ensures leaseId == old(nextLeaseId) && nextLeaseId == leaseId + 1
      ensures table == old(table)[leaseId := Lease(offset, length, clock.now + LEASE_SECONDS)]
    {
      leaseId := nextLeaseId;
      nextLeaseId := nextLeaseId + 1;
      var lease := new LeaseRecord(leaseId, offset, length, clock);
      leases, table, repr := leases[leaseId := lease], table[leaseId := lease.Value()], repr + {lease};
    }

    function Count(): (n: nat)
      requires Stored()
      reads this, repr
      ensures n == |table|
    {
      assert |leases| == |leases.Keys| && |table| == |table.Keys|;
      |leases|
    }

    method Remove(id: nat)
      requires Stored()
      modifies this`leases, this`table
      ensures Stored() && table == old(table) - {id}
    {
      leases, table := leases - {id}, table - {id};
    }

    method Renew(id: nat)
      requires Stored() && id in leases
      modifies this`table, repr, clock
      ensures Stored() && old(clock.now) <= clock.now
      ensures table == old(table)[id := old(table)[id].(expires := clock.now + LEASE_SECONDS)]
    {
      leases[id].KeepAlive(clock);
      table := table[id := leases[id].Value()];
    }
  }
}
