/** The application-facing memory: an object that hands out region objects over one cache. */
module MemoryApi {
  import opened Bytes
  import opened PageCacheSpec
  import opened PageCacheOps
  import opened CacheRuns
  import opened RegionSpec
  import opened RegionHistory
  import opened OrderedPages
  import opened PageCaches

  class RAMLinkMemory {
    const cache: PageCache
    const service: PageCaches.Remote
    const remoteMb: pos
    var nextOffset: nat
    var regions: seq<MemoryRegion>

    constructor (remoteMb: pos, cacheMb: pos, service: PageCaches.Remote)
      requires remoteMb * MIB <= |service.memory|
      ensures this.service == service && fresh(cache) && fresh(cache.table)
      ensures this.remoteMb == remoteMb && cache.shape == RegionShape(remoteMb * MIB, cacheMb * MIB)
      ensures Valid() && State() == Memory(Fresh(service.memory), 0, [])
    {
      var made := new PageCache(RegionShape(remoteMb * MIB, cacheMb * MIB));
      cache, this.service, this.remoteMb := made, service, remoteMb;
      nextOffset, regions := 0, [];
      new;
      FreshCoherent(cache.shape, service.memory);
      assert cache.StateOver(service.memory) == Fresh(service.memory);
    }

    ghost function Regions(): seq<Region>
      reads regions, this
    {
      seq(|regions|, i requires 0 <= i < |regions| reads this, regions =>
        Region(regions[i].offset, regions[i].size, regions[i].closed))
    }

    ghost function Lengths(): seq<nat>
      reads this
    {
      seq(|regions|, i requires 0 <= i < |regions| reads this => regions[i].size)
    }

    ghost function State(): Memory
      reads this, regions, cache, cache.table, service
    {
      Memory(cache.State(service), nextOffset, Regions())
    }

    /** The regions are distinct objects of this memory, laid one after the other. */
    ghost predicate Valid()
      reads this, regions, cache, cache.table, cache.table.repr, service
    {
      && cache.Valid(service) && cache.shape.size == remoteMb * 1048576
      && Laid(cache.shape, State())
      && (forall i :: 0 <= i < |regions| ==> regions[i].memory == this)
      && (forall i, j :: 0 <= i < j < |regions| ==> regions[i] != regions[j])
    }

    method Allocate(size: int) returns (region: Option<MemoryRegion>, reply: Reply)
      requires Valid()
      modifies this
      ensures Valid()
      ensures (State(), reply) == Perform(cache.shape, old(State()), Call.Allocate(size))
      ensures reply.Done? <==> region.Some?
      ensures reply == if size > 0 && Sum(old(Lengths())) + size <= remoteMb * 1048576 then Done else Refused
      ensures region.Some? ==> fresh(region.value) && regions == old(regions) + [region.value]
    {
      hide Coherent, PageDict.Stored, Sum;
      BumpedSum(Regions(), nextOffset, Lengths());
      if size <= 0 || nextOffset + size > cache.shape.size {
        return None, Refused;
      }
      var made := new MemoryRegion(this, nextOffset, size);
      nextOffset, regions := nextOffset + size, regions + [made];
      assert Regions() == old(Regions()) + [Region(made.offset, made.size, false)];
      return Some(made), Done;
    }

    method Flush()
      requires Valid()
      modifies cache, service
      ensures Valid()
      ensures State() == Perform(cache.shape, old(State()), FlushMemory).0
    {
      cache.Flush(service);
    }

    method Close()
      requires Valid()
      modifies cache, service, regions
      ensures Valid()
      ensures State() == Perform(cache.shape, old(State()), CloseMemory).0
    {
      hide Coherent, Bumped, PageDict.Stored;
      ghost var before := Regions();
      BumpedClosed(before, nextOffset);
      Flush();
      for i := 0 to |regions|
        invariant cache.Valid(service) && State().cache == Perform(cache.shape, old(State()), FlushMemory).0.cache
        invariant forall j :: 0 <= j < |regions| ==>
          Regions()[j] == if j < i then before[j].(closed := true) else before[j]
      {
        regions[i].closed := true;
      }
      assert Regions() == CloseAll(before);
    }
  }

  class MemoryRegion {
    const memory: RAMLinkMemory
    const offset: nat
    const size: nat
    var closed: bool

    constructor (memory: RAMLinkMemory, offset: nat, size: nat)
      ensures this.memory == memory && this.offset == offset && this.size == size && !closed
    {
      this.memory, this.offset, this.size, closed := memory, offset, size, false;
    }

    method Read(ghost r: nat, offset: int, length: int) returns (reply: Reply)
      requires memory.Valid() && r < |memory.regions| && memory.regions[r] == this
      modifies memory.cache, memory.cache.table, memory.service
      ensures memory.Valid() && fresh(memory.cache.table.repr - old(memory.cache.table.repr))
      ensures (memory.State(), reply) == Perform(memory.cache.shape, old(memory.State()), ReadAt(r, offset, length))
    {
      hide Coherent, Bumped, ReadFrom, PageDict.Stored;
      if closed || !InRange(offset, length, size) {
        return Refused;
      }
      reply := memory.cache.Read(memory.service, this.offset + offset, length);
    }

    method Write(ghost r: nat, offset: int, data: bytes) returns (reply: Reply)
      requires memory.Valid() && r < |memory.regions| && memory.regions[r] == this
      modifies memory.cache, memory.cache.table, memory.cache.table.repr, memory.service
      ensures memory.Valid() && fresh(memory.cache.table.repr - old(memory.cache.table.repr))
      ensures (memory.State(), reply) == Perform(memory.cache.shape, old(memory.State()), WriteAt(r, offset, data))
    {
      hide Coherent, Bumped, WriteFrom, PageDict.Stored;
      if closed || !InRange(offset, |data|, size) {
        return Refused;
      }
      reply := memory.cache.Write(memory.service, this.offset + offset, data);
    }

    method Fill(ghost r: nat, value: int) returns (reply: Reply)
      requires memory.Valid() && r < |memory.regions| && memory.regions[r] == this
      modifies memory.cache, memory.cache.table, memory.cache.table.repr, memory.service
      ensures memory.Valid() && fresh(memory.cache.table.repr - old(memory.cache.table.repr))
      ensures (memory.State(), reply) == Perform(memory.cache.shape, old(memory.State()), Call.Fill(r, value))
    {
      hide Coherent, Bumped, WriteFrom, Execute, PageDict.Stored;
      if !(0 <= value <= 255) {
        return Refused;
      }
      var chunk := Repeat(value, MAX_TRANSFER);
      var left, pos := size, 0;
      ghost var before := memory.State();
      BumpedRegion(before.regions, before.next, r);
      if closed {
        // The first write of the loop is refused.
        reply := Write(r, pos, chunk[..Min(left, MAX_TRANSFER)]);
        return;
      }
      ghost var whole := Execute(memory.cache.shape, before.cache, FillOps(offset, size, value)).0;
      while left > 0
        invariant 0 <= left && pos + left == size
        invariant memory.Valid() && fresh(memory.cache.table.repr - old(memory.cache.table.repr))
        invariant memory.State() == before.(cache := memory.State().cache)
        invariant Execute(memory.cache.shape, memory.State().cache, FillOps(offset + pos, left, value)).0 == whole
      {
        var n := Min(left, MAX_TRANSFER);
        assert chunk[..n] == Repeat(value, n);
        ghost var rest := FillOps(offset + pos + n, left - n, value);
        ExecuteFirst(memory.cache.shape, memory.State().cache, Op.Write(offset + pos, chunk[..n]), rest);
        reply := Write(r, pos, chunk[..n]);
        pos, left := pos + n, left - n;
      }
      ExecuteNothing(memory.cache.shape, memory.State().cache);
      reply := Done;
    }

    method Close(ghost r: nat)
      requires memory.Valid() && r < |memory.regions| && memory.regions[r] == this
      modifies this
      ensures memory.Valid() && closed
      ensures memory.State() == Perform(memory.cache.shape, old(memory.State()), Call.Close(r)).0
    {
      hide Coherent, Bumped, PageDict.Stored;
      ghost var before := memory.State();
      BumpedClosed(before.regions, before.next);
      closed := true;
      assert memory.Regions() == before.regions[r := before.regions[r].(closed := true)];
    }
  }
}
