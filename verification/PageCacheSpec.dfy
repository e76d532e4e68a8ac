/** The write-back page cache as a value: what each operation does to the cached pages, the dirty
    set, the counters and the remote bytes, and which byte a reader sees at each offset. */
module PageCacheSpec {
  import opened Bytes
  import opened Lru

  /** Page size, number of remote bytes addressed, and number of pages the cache can hold. */
  datatype Geometry = Geometry(pageSize: pos, size: nat, capacity: pos) {
    function Base(p: nat): nat {
      p * pageSize
    }

    /** Page `p` starts inside the remote memory. */
    predicate Holds(p: nat) {
      Base(p) < size
    }

    /** The last page may be short. */
    function Len(p: nat): nat
      requires Holds(p)
    {
      Min(pageSize, size - Base(p))
    }
  }

  lemma PageOf(g: Geometry, i: nat)
    ensures g.Base(i / g.pageSize) + i % g.pageSize == i
    ensures 0 <= i % g.pageSize < g.pageSize
    ensures i < g.size ==> g.Holds(i / g.pageSize) && i % g.pageSize < g.Len(i / g.pageSize)
  {
  }

  lemma TimesMonotone(a: nat, b: nat, c: nat)
    ensures a <= b ==> a * c <= b * c
  {
    if a <= b {
      assert b * c == a * c + (b - a) * c;
    }
  }

  lemma InPage(g: Geometry, p: nat, k: nat)
    requires k < g.pageSize
    ensures (g.Base(p) + k) / g.pageSize == p && (g.Base(p) + k) % g.pageSize == k
  {
    var q := (g.Base(p) + k) / g.pageSize;
    PageOf(g, g.Base(p) + k);
    TimesMonotone(q + 1, p, g.pageSize);
    TimesMonotone(p + 1, q, g.pageSize);
  }

  /** The pages that a range of bytes meets, in address order. */
  function Span(g: Geometry, offset: nat, length: nat): seq<nat>
  {
    if length == 0 then []
    else
      SpanGrows(g, offset, length);
      seq((offset + length - 1) / g.pageSize - offset / g.pageSize + 1, k requires k >= 0 => offset / g.pageSize + k)
  }

  lemma SpanGrows(g: Geometry, offset: nat, length: nat)
    requires length > 0
    ensures offset / g.pageSize <= (offset + length - 1) / g.pageSize
  {
    PageOf(g, offset);
    PageOf(g, offset + length - 1);
    var q, r := offset / g.pageSize, (offset + length - 1) / g.pageSize;
    TimesMonotone(r + 1, q, g.pageSize);
  }

  /** How many bytes of a range lie in its first page. */
  function Chunk(g: Geometry, offset: nat, length: nat): (n: nat)
    requires length > 0
    ensures 0 < n <= length
  {
    Min(length, g.pageSize - offset % g.pageSize)
  }

  lemma SpanSplit(g: Geometry, offset: nat, length: nat)
    requires length > 0
    ensures var n := Chunk(g, offset, length);
            Span(g, offset, length) == [offset / g.pageSize] + Span(g, offset + n, length - n)
  {
    var n := Chunk(g, offset, length);
    var p := offset / g.pageSize;
    PageOf(g, offset);
    if n < length {
      assert offset + n == g.Base(p + 1) + 0;
      InPage(g, p + 1, 0);
      SpanGrows(g, offset + n, length - n);
    } else {
      assert offset + length - 1 == g.Base(p) + (offset % g.pageSize + length - 1);
      InPage(g, p, offset % g.pageSize + length - 1);
    }
  }

  lemma ChunkInPage(g: Geometry, offset: nat, length: nat)
    requires length > 0 && offset + length <= g.size
    ensures g.Holds(offset / g.pageSize)
    ensures var p := offset / g.pageSize;
            Chunk(g, offset, length) == Min(length, g.Len(p) - offset % g.pageSize)
  {
    PageOf(g, offset);
  }

  datatype Cache = Cache(order: seq<nat>, pages: map<nat, bytes>, dirty: set<nat>, remote: bytes,
                         hits: nat, misses: nat, remoteReads: nat, remoteWrites: nat, evictions: nat)

  function Fresh(remote: bytes): Cache {
    Cache([], map[], {}, remote, 0, 0, 0, 0, 0)
  }

  /** A cached page has the length of its page, and equals the remote page unless it is dirty. */
  predicate PageCoherent(g: Geometry, s: Cache, p: nat)
    requires p in s.pages && g.size <= |s.remote|
  {
    && g.Holds(p)
    && |s.pages[p]| == g.Len(p)
    && (p !in s.dirty ==> s.pages[p] == Slice(s.remote, g.Base(p), g.Len(p)))
  }

  predicate Coherent(g: Geometry, s: Cache) {
    && g.size <= |s.remote|
    && Fits(s.order, g.capacity)
    && Elems(s.order) == s.pages.Keys
    && s.dirty <= s.pages.Keys
    && (forall p :: p in s.pages ==> PageCoherent(g, s, p))
    && s.remoteReads == s.misses
    && s.evictions + |s.order| == s.misses
  }

  /** The byte a reader sees at offset `i`: the cached one if its page is cached. */
  function ByteAt(g: Geometry, s: Cache, i: nat): byte
    requires Coherent(g, s) && i < |s.remote|
  {
    PageOf(g, i);
    if i < g.size && i / g.pageSize in s.pages then
      assert PageCoherent(g, s, i / g.pageSize);
      s.pages[i / g.pageSize][i % g.pageSize]
    else s.remote[i]
  }

  function View(g: Geometry, s: Cache): (v: bytes)
    requires Coherent(g, s)
    ensures |v| == |s.remote|
    ensures forall i :: 0 <= i < |v| ==> v[i] == ByteAt(g, s, i)
  {
    seq(|s.remote|, i requires 0 <= i < |s.remote| && Coherent(g, s) => ByteAt(g, s, i))
  }

  /** Writing one page back. A page that is not in the cache is silently skipped. */
  function FlushPage(g: Geometry, s: Cache, p: nat): Cache
    requires g.size <= |s.remote|
    requires p in s.pages ==> g.Holds(p) && |s.pages[p]| == g.Len(p)
  {
    if p in s.pages then
      s.(remote := Splice(s.remote, g.Base(p), s.pages[p]), remoteWrites := s.remoteWrites + 1)
    else s
  }

  /** Eviction takes the oldest page out first and flushes it after, when it is no longer there. */
  function Evict(g: Geometry, s: Cache): Cache
    requires g.size <= |s.remote| && s.order != []
  {
    var oldest := s.order[0];
    var popped := s.(order := s.order[1..], pages := s.pages - {oldest});
    var flushed := if oldest in s.dirty then
      FlushPage(g, popped, oldest).(dirty := s.dirty - {oldest}) else popped;
    flushed.(evictions := s.evictions + 1)
  }

  function Load(g: Geometry, s: Cache, p: nat): (r: Cache)
    requires Coherent(g, s) && g.Holds(p)
  {
    if p in s.pages then
      s.(order := MoveToEnd(s.order, p), hits := s.hits + 1)
    else
      var fetched := Slice(s.remote, g.Base(p), g.Len(p));
      var missed := s.(misses := s.misses + 1, remoteReads := s.remoteReads + 1);
      var room := if |s.order| >= g.capacity then Evict(g, missed) else missed;
      room.(order := room.order + [p], pages := room.pages[p := fetched])
  }

  /** The page that loading `p` evicts, if it evicts one. */
  function Victim(g: Geometry, s: Cache, p: nat): Option<nat>
  {
    if p !in s.pages && |s.order| >= g.capacity then Some(s.order[0]) else None
  }

  lemma LoadEffect(g: Geometry, s: Cache, p: nat)
    requires Coherent(g, s) && g.Holds(p)
    ensures var r := Load(g, s, p);
            && r.order == Touch(s.order, p, g.capacity)
            && r.remote == s.remote && r.remoteWrites == s.remoteWrites
            && r.hits + r.misses == s.hits + s.misses + 1
            && r.misses == s.misses + (if p in s.order then 0 else 1)
            && r.dirty == (match Victim(g, s, p) case Some(v) => s.dirty - {v} case None => s.dirty)
            && r.remoteReads == r.misses
            && r.evictions == s.evictions + if Victim(g, s, p).Some? then 1 else 0
  {
    assert p in s.pages <==> p in Elems(s.order);
  }

  lemma LoadPages(g: Geometry, s: Cache, p: nat)
    requires Coherent(g, s) && g.Holds(p)
    ensures var r := Load(g, s, p);
            && r.pages.Keys == Elems(Touch(s.order, p, g.capacity))
            && g.size <= |r.remote| && p in r.pages
            && forall q :: q in r.pages ==> PageCoherent(g, r, q)
  {
    hide Without, Distinct, Slice;
    assert p in s.pages <==> p in Elems(s.order);
    TouchFits(s.order, p, g.capacity);
    var r := Load(g, s, p);
    forall q | q in r.pages ensures PageCoherent(g, r, q) {
      if q in s.pages {
        assert PageCoherent(g, s, q);
      }
    }
  }

  lemma LoadCoherent(g: Geometry, s: Cache, p: nat)
    requires Coherent(g, s) && g.Holds(p)
    ensures var r := Load(g, s, p);
            && Coherent(g, r)
            && p in r.pages
            && r.order == Touch(s.order, p, g.capacity)
            && r.remote == s.remote && r.remoteWrites == s.remoteWrites
            && r.hits + r.misses == s.hits + s.misses + 1
            && r.misses == s.misses + (if p in s.order then 0 else 1)
            && r.dirty == (match Victim(g, s, p) case Some(v) => s.dirty - {v} case None => s.dirty)
  {
    hide Load, PageCoherent, Without, Distinct;
    LoadEffect(g, s, p);
    LoadPages(g, s, p);
    assert p in s.pages <==> p in Elems(s.order);
    TouchFits(s.order, p, g.capacity);
    WithoutElems(s.order, p);
  }

  lemma LoadByte(g: Geometry, s: Cache, p: nat, i: nat)
    requires Coherent(g, s) && g.Holds(p) && i < |s.remote|
    ensures Coherent(g, Load(g, s, p)) && Load(g, s, p).remote == s.remote
    ensures ByteAt(g, Load(g, s, p), i) ==
            if i < g.size && Victim(g, s, p) == Some(i / g.pageSize) then s.remote[i] else ByteAt(g, s, i)
  {
    hide Touch, Elems, Distinct;
    LoadCoherent(g, s, p);
    PageOf(g, i);
    var r := Load(g, s, p);
    if i < g.size && i / g.pageSize == p && p !in s.pages {
      assert r.pages[p][i % g.pageSize] == s.remote[i];
    }
  }

  /** Loading a page changes what a reader sees on the evicted page only, which falls back to its
      remote bytes. */
  lemma LoadView(g: Geometry, s: Cache, p: nat)
    requires Coherent(g, s) && g.Holds(p)
    ensures Coherent(g, Load(g, s, p))
    ensures forall i :: 0 <= i < |s.remote| ==>
              View(g, Load(g, s, p))[i] ==
              if i < g.size && Victim(g, s, p) == Some(i / g.pageSize) then s.remote[i] else View(g, s)[i]
  {
    LoadCoherent(g, s, p);
    forall i | 0 <= i < |s.remote|
      ensures ByteAt(g, Load(g, s, p), i) ==
              if i < g.size && Victim(g, s, p) == Some(i / g.pageSize) then s.remote[i] else ByteAt(g, s, i)
    {
      LoadByte(g, s, p, i);
    }
  }

  lemma PageByte(g: Geometry, s: Cache, p: nat, k: nat)
    requires Coherent(g, s) && g.Holds(p) && k < g.Len(p)
    ensures p in s.pages ==> PageCoherent(g, s, p)
    ensures g.Base(p) + k < |s.remote|
    ensures View(g, s)[g.Base(p) + k] == if p in s.pages then s.pages[p][k] else s.remote[g.Base(p) + k]
  {
    InPage(g, p, k);
  }

  /** On a cached page the reader sees the cached bytes. */
  lemma PageView(g: Geometry, s: Cache, p: nat)
    requires Coherent(g, s) && g.Holds(p)
    ensures Slice(View(g, s), g.Base(p), g.Len(p)) ==
            if p in s.pages then s.pages[p] else Slice(s.remote, g.Base(p), g.Len(p))
  {
    var base, n, v := g.Base(p), g.Len(p), View(g, s);
    var page := if p in s.pages then s.pages[p] else Slice(s.remote, base, n);
    assert p in s.pages ==> PageCoherent(g, s, p);
    assert base + n <= |v| && |page| == n;
    forall k | 0 <= k < n ensures v[base + k] == page[k] {
      PageByte(g, s, p, k);
    }
  }

  /** Exactly when a load is invisible to readers: unless it evicts a page that differs from the
      remote one. */
  lemma LoadTransparentIff(g: Geometry, s: Cache, p: nat)
    requires Coherent(g, s) && g.Holds(p)
    ensures Coherent(g, Load(g, s, p))
    ensures var v := Victim(g, s, p);
            && (v.Some? ==> v.value in s.pages && PageCoherent(g, s, v.value))
            && (View(g, Load(g, s, p)) == View(g, s) <==>
                v.None? || s.pages[v.value] == Slice(s.remote, g.Base(v.value), g.Len(v.value)))
  {
    LoadCoherent(g, s, p);
    LoadView(g, s, p);
    var r, v := Load(g, s, p), Victim(g, s, p);
    if v.Some? {
      var oldest := v.value;
      assert oldest in Elems(s.order);
      assert PageCoherent(g, s, oldest);
      PageView(g, s, oldest);
      PageView(g, r, oldest);
      assert oldest !in r.pages by { TouchFits(s.order, p, g.capacity); }
      if s.pages[oldest] == Slice(s.remote, g.Base(oldest), g.Len(oldest)) {
        SamePages(g, s, r, oldest);
      }
    }
  }

  lemma SamePages(g: Geometry, s: Cache, r: Cache, p: nat)
    requires Coherent(g, s) && Coherent(g, r) && |r.remote| == |s.remote| && g.Holds(p)
    requires Slice(View(g, s), g.Base(p), g.Len(p)) == Slice(View(g, r), g.Base(p), g.Len(p))
    requires forall i :: 0 <= i < |s.remote| && (i < g.size ==> i / g.pageSize != p) ==> View(g, s)[i] == View(g, r)[i]
    ensures View(g, s) == View(g, r)
  {
    forall i | 0 <= i < |s.remote| ensures View(g, s)[i] == View(g, r)[i] {
      PageOf(g, i);
      if i < g.size && i / g.pageSize == p {
        var k := i % g.pageSize;
        assert Slice(View(g, s), g.Base(p), g.Len(p))[k] == Slice(View(g, r), g.Base(p), g.Len(p))[k];
      }
    }
  }
}
