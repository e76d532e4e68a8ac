/** The write-back page cache as the object the clients hold: an ordered dictionary of page buffers
    that are changed in place, a dirty set and counters. */
module PageCaches {
  import opened Bytes
  import opened Lru
  import opened PageCacheSpec
  import opened PageCacheOps
  import opened CacheRuns
  import opened OrderedPages

  const MIB := 1024 * 1024

  const PAGE_SIZE: pos := 64 * 1024

  /** The shape that the region API gives its cache: at least one page, however small the budget. */
  function RegionShape(remoteSize: nat, cacheBytes: nat): (g: Geometry)
    ensures g.size == remoteSize && g.pageSize == 65536
    ensures g.capacity * 65536 <= Max(65536, cacheBytes) && cacheBytes < (g.capacity + 1) * 65536
  {
    Geometry(PAGE_SIZE, remoteSize, Max(1, cacheBytes / PAGE_SIZE))
  }

  lemma FloorDivision(a: int, p: pos)
    ensures a / p * p <= a < (a / p + 1) * p
    ensures a / p < 1 <==> a < p
  {
    TimesAtLeast(a / p, p);
  }

  lemma TimesAtLeast(q: int, p: pos)
    ensures q >= 1 ==> q * p >= p
    ensures q <= 0 ==> q * p <= 0
  {
  }

  /** The shape that the cache manager gives its cache, as many whole pages as the budget of `capacity`
      bytes holds; a budget below one page is refused. */
  function ManagerShape(capacity: int, remoteSize: nat, pageSize: pos): (g: Option<Geometry>)
    ensures g.None? <==> capacity < pageSize
    ensures g.Some? ==>
      && g.value.size == remoteSize && g.value.pageSize == pageSize
      && g.value.capacity * pageSize <= capacity < (g.value.capacity + 1) * pageSize
  {
    FloorDivision(capacity, pageSize);
    var maxPages := capacity / pageSize;
    if maxPages < 1 then None else Some(Geometry(pageSize, remoteSize, maxPages))
  }

  /** The remote memory behind a cache, reduced to exact reads and writes. */
  class Remote {
    var memory: bytes

    constructor (initial: bytes)
      ensures memory == initial
    {
      memory := initial;
    }

    method Read(offset: nat, length: nat) returns (data: bytes)
      requires offset + length <= |memory|
      ensures data == Slice(memory, offset, length)
    {
      data := memory[offset..offset + length];
    }

    method Write(offset: nat, data: bytes)
      requires offset + |data| <= |memory|
      modifies this
      ensures memory == Splice(old(memory), offset, data)
    {
      memory := memory[..offset] + data + memory[offset + |data|..];
    }
  }

  // ---- Flushing the dirty pages one at a time ----

  /** The remote bytes once the pages of `flushed` are written back. */
  function PartlyFlushed(g: Geometry, s: Cache, flushed: set<nat>): (r: bytes)
    requires Coherent(g, s)
    ensures |r| == |s.remote|
  {
    seq(|s.remote|, i requires 0 <= i < |s.remote| && Coherent(g, s) =>
      if i < g.size && i / g.pageSize in flushed then View(g, s)[i] else s.remote[i])
  }

  /** The cache in the middle of a flush. */
  function Flushing(g: Geometry, s: Cache, done: set<nat>): Cache
    requires Coherent(g, s)
  {
    s.(remote := PartlyFlushed(g, s, done), remoteWrites := s.remoteWrites + |done|)
  }

  lemma FlushOneMore(g: Geometry, s: Cache, flushed: set<nat>, p: nat)
    requires Coherent(g, s) && p in s.dirty
    ensures p in s.pages && g.Holds(p) && |s.pages[p]| == g.Len(p) && g.Base(p) + |s.pages[p]| <= |s.remote|
    ensures Splice(PartlyFlushed(g, s, flushed), g.Base(p), s.pages[p]) == PartlyFlushed(g, s, flushed + {p})
  {
    assert PageCoherent(g, s, p);
    var base, n := g.Base(p), g.Len(p);
    var after := PartlyFlushed(g, s, flushed + {p});
    forall i | 0 <= i < |s.remote|
      ensures Splice(PartlyFlushed(g, s, flushed), base, s.pages[p])[i] == after[i]
    {
      PageOf(g, i);
      if base <= i < base + n {
        PageByte(g, s, p, i - base);
        InPage(g, p, i - base);
      }
    }
  }

  lemma AllFlushed(g: Geometry, s: Cache)
    requires Coherent(g, s)
    ensures g.size <= |s.remote| && PartlyFlushed(g, s, {}) == s.remote
    ensures PartlyFlushed(g, s, s.dirty) == View(g, s)
  {
    forall i | 0 <= i < |s.remote| ensures PartlyFlushed(g, s, s.dirty)[i] == View(g, s)[i] {
      PageOf(g, i);
      var p := i / g.pageSize;
      if i < g.size && p in s.pages && p !in s.dirty {
        assert PageCoherent(g, s, p);
        assert s.pages[p][i % g.pageSize] == Slice(s.remote, g.Base(p), g.Len(p))[i % g.pageSize];
      }
    }
  }

  class PageCache {
    const shape: Geometry
    const table: PageDict
    var dirty: set<nat>
    var hits: nat
    var misses: nat
    var remoteReads: nat
    var remoteWrites: nat
    var evictions: nat

    constructor (shape: Geometry)
      ensures this.shape == shape && fresh(table) && table.repr == {}
      ensures table.Stored() && forall memory :: StateOver(memory) == Fresh(memory)
    {
      this.shape, dirty := shape, {};
      hits, misses, remoteReads, remoteWrites, evictions := 0, 0, 0, 0, 0;
      table := new PageDict();
    }

    /** The cache as a value, in front of given remote bytes. */
    ghost function StateOver(memory: bytes): Cache
      reads this, table
    {
      Cache(table.order, table.pages, dirty, memory, hits, misses, remoteReads, remoteWrites, evictions)
    }

    ghost function State(api: Remote): Cache
      reads this, table, api
    {
      StateOver(api.memory)
    }

    ghost predicate Valid(api: Remote)
      reads this, table, table.repr, api
    {
      table.Stored() && Coherent(shape, State(api))
    }

    method FlushPage(api: Remote, page: nat)
      requires table.Stored() && shape.size <= |api.memory|
      requires page in table.pages ==> shape.Holds(page) && |table.pages[page]| == shape.Len(page)
      modifies this`remoteWrites, api
      ensures State(api) == PageCacheSpec.FlushPage(shape, old(State(api)), page)
    {
      if !table.Has(page) {
        return;
      }
      api.Write(shape.Base(page), table.Get(page));
      remoteWrites := remoteWrites + 1;
    }

    /** Takes the oldest page out, then flushes it if it is dirty. */
    method EvictOldest(api: Remote)
      requires table.Stored() && shape.size <= |api.memory| && table.order != []
      modifies this, table, api
      ensures table.Stored() && State(api) == Evict(shape, old(State(api)))
      ensures table.repr == old(table.repr) && table.pages.Keys <= old(table.pages.Keys)
    {
      hide PageCacheSpec.FlushPage;
      var oldest := table.PopItem();
      if oldest in dirty {
        FlushPage(api, oldest);
        dirty := dirty - {oldest};
      }
      evictions := evictions + 1;
    }

    /** The branch of LoadPage for a page that is not cached. */
    method FetchPage(api: Remote, page: nat)
      requires Valid(api) && shape.Holds(page) && page !in table.pages
      modifies this, table, api
      ensures table.Stored() && State(api) == Load(shape, old(State(api)), page)
      ensures fresh(table.repr - old(table.repr))
    {
      hide Coherent, Load, Evict, Geometry.Base, Geometry.Len;
      LoadMiss(shape, State(api), page);
      misses := misses + 1;
      var fetched := api.Read(shape.Base(page), shape.Len(page));
      remoteReads := remoteReads + 1;
      if |table.order| >= shape.capacity {
        EvictOldest(api);
      }
      table.Insert(page, fetched);
    }

    method LoadPage(api: Remote, page: nat) returns (data: array<byte>)
      requires Valid(api) && shape.Holds(page)
      modifies this, table, api
      ensures Valid(api) && State(api) == Load(shape, old(State(api)), page)
      ensures page in table.buffers && data == table.buffers[page]
      ensures page in table.pages && data[..] == table.pages[page]
      ensures fresh(table.repr - old(table.repr))
    {
      hide Coherent, Load, Touch, MoveToEnd;
      LoadCoherent(shape, State(api), page);
      if page in table.buffers {
        LoadHit(shape, State(api), page);
        table.ToEnd(page);
        hits := hits + 1;
      } else {
        FetchPage(api, page);
      }
      data := table.buffers[page];
    }

    method Read(api: Remote, offset: int, length: int) returns (reply: Reply)
      requires Valid(api)
      modifies this, table, api
      ensures Valid(api) && fresh(table.repr - old(table.repr))
      ensures (State(api), reply) == Apply(shape, old(State(api)), Op.Read(offset, length))
    {
      hide Coherent, Load, ReadChunk, Chunk;
      if !InRange(offset, length, shape.size) {
        return Refused;
      }
      var at, left, output := offset, length, [];
      ghost var whole := ReadFrom(shape, State(api), offset, length);
      while left > 0
        invariant Valid(api) && fresh(table.repr - old(table.repr))
        invariant 0 <= left && 0 <= at && at + left <= shape.size
        invariant ReadFrom(shape, State(api), at, left).0 == whole.0
        invariant output + ReadFrom(shape, State(api), at, left).1 == whole.1
      {
        var page, inside := at / shape.pageSize, at % shape.pageSize;
        ReadChunkIs(shape, State(api), at, left);
        var data := LoadPage(api, page);
        var n := Min(left, data.Length - inside);
        output := output + data[inside..inside + n];
        at, left := at + n, left - n;
      }
      assert output + [] == output;
      reply := Data(output);
    }

    method Write(api: Remote, offset: int, data: bytes) returns (reply: Reply)
      requires Valid(api)
      modifies this, table, table.repr, api
      ensures Valid(api) && fresh(table.repr - old(table.repr))
      ensures (State(api), reply) == Apply(shape, old(State(api)), Op.Write(offset, data))
    {
      hide Coherent, Load, WriteChunk, Chunk;
      if !InRange(offset, |data|, shape.size) {
        return Refused;
      }
      var at, pos := offset, 0;
      ghost var whole := WriteFrom(shape, State(api), offset, data);
      while pos < |data|
        invariant Valid(api) && fresh(table.repr - old(table.repr))
        invariant 0 <= pos <= |data| && at == offset + pos
        invariant WriteFrom(shape, State(api), at, data[pos..]) == whole
      {
        at, pos := WriteOnePage(api, at, data, pos);
      }
      reply := Done;
    }

    /** Changes the buffer of a page in place, marks the page dirty and makes it the most recent. */
    method Change(page: nat, inside: nat, chunk: bytes)
      requires table.Stored() && page in table.pages && inside + |chunk| <= |table.pages[page]|
      modifies this`dirty, table`pages, table`order, table.repr
      ensures table.Stored() && dirty == old(dirty) + {page} && table.order == MoveToEnd(old(table.order), page)
      ensures table.pages == old(table.pages)[page := Splice(old(table.pages)[page], inside, chunk)]
    {
      hide MoveToEnd, Splice;
      table.Overwrite(page, inside, chunk);
      dirty := dirty + {page};
      table.ToEnd(page);
    }

    /** One turn of the write loop. */
    method WriteOnePage(api: Remote, at: nat, data: bytes, pos: nat) returns (at': nat, pos': nat)
      requires Valid(api) && pos < |data| && at + |data| - pos <= shape.size
      modifies this, table, table.repr, api
      ensures Valid(api) && fresh(table.repr - old(table.repr))
      ensures pos' == pos + Chunk(shape, at, |data| - pos) && at' == at + pos' - pos
      ensures State(api) == WriteChunk(shape, old(State(api)), at, data[pos..])
    {
      hide Coherent, Load, WriteChunk, Chunk, MoveToEnd, Splice, PageDict.Stored;
      ghost var rest := data[pos..];
      WriteChunkIs(shape, State(api), at, rest);
      var page, inside := at / shape.pageSize, at % shape.pageSize;
      var pageData := LoadPage(api, page);
      var n := Min(|data| - pos, pageData.Length - inside);
      assert rest[..n] == data[pos..pos + n];
      Change(page, inside, data[pos..pos + n]);
      at', pos' := at + n, pos + n;
    }

    /** One turn of the flush loop: `done` are the dirty pages written back before. */
    method FlushOne(api: Remote, page: nat, ghost before: Cache, ghost done: set<nat>)
      requires Coherent(shape, before) && page in before.dirty - done
      requires table.Stored() && State(api) == Flushing(shape, before, done)
      modifies this`remoteWrites, api
      ensures State(api) == Flushing(shape, before, done + {page})
    {
      hide Coherent, PartlyFlushed, View, Splice, Geometry.Len, Geometry.Holds, Geometry.Base;
      FlushOneMore(shape, before, done, page);
      AllFlushed(shape, before);
      FlushPage(api, page);
    }

    method Flush(api: Remote)
      requires Valid(api)
      modifies this, api
      ensures Valid(api) && State(api) == PageCacheOps.Flush(shape, old(State(api)))
    {
      hide Coherent, PartlyFlushed, View, PageDict.Stored;
      ghost var before := State(api);
      var pending := dirty;
      AllFlushed(shape, before);
      assert dirty - pending == {};
      while pending != {}
        invariant pending <= dirty == before.dirty
        invariant State(api) == Flushing(shape, before, dirty - pending)
      {
        var page :| page in pending;
        assert dirty - (pending - {page}) == (dirty - pending) + {page};
        FlushOne(api, page, before, dirty - pending);
        pending := pending - {page};
      }
      assert dirty - {} == dirty;
      dirty := {};
      FlushView(shape, before);
    }
  }
}
