/** Reads, writes and flushes of the write-back cache, page by page, and what each means for a reader. */
module PageCacheOps {
  import opened Bytes
  import opened Lru
  import opened PageCacheSpec

  /** Overwriting bytes of a cached page. */
  function Put(s: Cache, p: nat, inside: nat, data: bytes): Cache
    requires p in s.pages && inside + |data| <= |s.pages[p]|
  {
    s.(pages := s.pages[p := Splice(s.pages[p], inside, data)], dirty := s.dirty + {p})
  }

  lemma PutCoherent(g: Geometry, s: Cache, p: nat, inside: nat, data: bytes)
    requires Coherent(g, s) && p in s.pages && inside + |data| <= |s.pages[p]|
    ensures Coherent(g, Put(s, p, inside, data))
  {
    var r := Put(s, p, inside, data);
    forall q | q in r.pages ensures PageCoherent(g, r, q) {
      assert PageCoherent(g, s, q);
    }
  }

  lemma PutView(g: Geometry, s: Cache, p: nat, inside: nat, data: bytes)
    requires Coherent(g, s) && p in s.pages && inside + |data| <= |s.pages[p]|
    ensures Coherent(g, Put(s, p, inside, data))
    ensures g.Base(p) + inside + |data| <= |s.remote|
    ensures View(g, Put(s, p, inside, data)) == Splice(View(g, s), g.Base(p) + inside, data)
  {
    PutCoherent(g, s, p, inside, data);
    assert PageCoherent(g, s, p);
    var r := Put(s, p, inside, data);
    var start := g.Base(p) + inside;
    forall i | 0 <= i < |s.remote| ensures ByteAt(g, r, i) == Splice(View(g, s), start, data)[i] {
      PageOf(g, i);
      assert View(g, s)[i] == ByteAt(g, s, i);
      if i >= g.Base(p) && i - g.Base(p) < g.Len(p) {
        InPage(g, p, i - g.Base(p));
      }
    }
  }

  /** One turn of the read loop: load the page of `offset` and take the bytes of the range in it. */
  function ReadChunk(g: Geometry, s: Cache, offset: nat, length: nat): (r: (Cache, bytes))
    requires Coherent(g, s) && 0 < length && offset + length <= g.size
    ensures Coherent(g, r.0) && |r.1| == Chunk(g, offset, length)
  {
    ChunkInPage(g, offset, length);
    var p, inside := offset / g.pageSize, offset % g.pageSize;
    LoadCoherent(g, s, p);
    var loaded := Load(g, s, p);
    assert PageCoherent(g, loaded, p);
    (loaded, Slice(loaded.pages[p], inside, Min(length, |loaded.pages[p]| - inside)))
  }

  function ReadFrom(g: Geometry, s: Cache, offset: nat, length: nat): (r: (Cache, bytes))
    requires Coherent(g, s) && offset + length <= g.size
    ensures Coherent(g, r.0)
    decreases length
  {
    if length == 0 then (s, [])
    else
      var (loaded, out) := ReadChunk(g, s, offset, length);
      var rest := ReadFrom(g, loaded, offset + |out|, length - |out|);
      (rest.0, out + rest.1)
  }

  /** One turn of the write loop: load the page of `offset`, overwrite the part of the data in it,
      mark the page dirty. */
  function WriteChunk(g: Geometry, s: Cache, offset: nat, data: bytes): (r: Cache)
    requires Coherent(g, s) && data != [] && offset + |data| <= g.size
    ensures Coherent(g, r)
  {
    ChunkInPage(g, offset, |data|);
    var p, inside := offset / g.pageSize, offset % g.pageSize;
    LoadCoherent(g, s, p);
    var loaded := Load(g, s, p);
    assert PageCoherent(g, loaded, p);
    var n := Min(|data|, |loaded.pages[p]| - inside);
    PutCoherent(g, loaded, p, inside, data[..n]);
    Put(loaded, p, inside, data[..n])
  }

  function WriteFrom(g: Geometry, s: Cache, offset: nat, data: bytes): (r: Cache)
    requires Coherent(g, s) && offset + |data| <= g.size
    ensures Coherent(g, r)
    decreases |data|
  {
    if data == [] then s
    else
      var n := Chunk(g, offset, |data|);
      WriteFrom(g, WriteChunk(g, s, offset, data), offset + n, data[n..])
  }

  /** Flushing writes every dirty page back, so the remote bytes become what the reader sees. */
  function Flush(g: Geometry, s: Cache): Cache
    requires Coherent(g, s)
  {
    s.(remote := View(g, s), dirty := {}, remoteWrites := s.remoteWrites + |s.dirty|)
  }

  lemma FlushView(g: Geometry, s: Cache)
    requires Coherent(g, s)
    ensures Coherent(g, Flush(g, s)) && View(g, Flush(g, s)) == View(g, s)
  {
    var r := Flush(g, s);
    forall p | p in r.pages ensures PageCoherent(g, r, p) {
      assert PageCoherent(g, s, p);
      PageView(g, s, p);
    }
    forall i | 0 <= i < |s.remote| ensures ByteAt(g, r, i) == ByteAt(g, s, i) {
    }
  }

  // ---- One load, one turn of a loop ----

  lemma LoadHit(g: Geometry, s: Cache, p: nat)
    requires Coherent(g, s) && g.Holds(p) && p in s.pages
    ensures Load(g, s, p) == s.(order := MoveToEnd(s.order, p), hits := s.hits + 1)
  {
  }

  lemma LoadMiss(g: Geometry, s: Cache, p: nat)
    requires Coherent(g, s) && g.Holds(p) && p !in s.pages
    ensures g.size <= |s.remote| && g.Base(p) + g.Len(p) <= |s.remote|
    ensures |s.order| >= g.capacity ==> s.order != []
    ensures var fetched := Slice(s.remote, g.Base(p), g.Len(p));
            var missed := s.(misses := s.misses + 1, remoteReads := s.remoteReads + 1);
            var room := if |s.order| >= g.capacity then Evict(g, missed) else missed;
            Load(g, s, p) == room.(order := room.order + [p], pages := room.pages[p := fetched])
  {
  }

  lemma ReadChunkIs(g: Geometry, s: Cache, offset: nat, length: nat)
    requires Coherent(g, s) && 0 < length && offset + length <= g.size
    ensures g.Holds(offset / g.pageSize)
    ensures var p, inside := offset / g.pageSize, offset % g.pageSize;
            var loaded := Load(g, s, p);
            && p in loaded.pages && 0 <= inside < |loaded.pages[p]|
            && var n := Min(length, |loaded.pages[p]| - inside);
               0 < n && ReadChunk(g, s, offset, length) == (loaded, loaded.pages[p][inside..inside + n])
  {
    hide Load, Coherent, Touch;
    ChunkInPage(g, offset, length);
    PageOf(g, offset);
    LoadCoherent(g, s, offset / g.pageSize);
    PageView(g, Load(g, s, offset / g.pageSize), offset / g.pageSize);
  }

  lemma WriteChunkIs(g: Geometry, s: Cache, offset: nat, data: bytes)
    requires Coherent(g, s) && data != [] && offset + |data| <= g.size
    ensures g.Holds(offset / g.pageSize)
    ensures var p, inside := offset / g.pageSize, offset % g.pageSize;
            var loaded := Load(g, s, p);
            && p in loaded.pages && 0 <= inside < |loaded.pages[p]|
            && MoveToEnd(loaded.order, p) == loaded.order
            && var n := Min(|data|, |loaded.pages[p]| - inside);
               n == Chunk(g, offset, |data|) && WriteChunk(g, s, offset, data) == Put(loaded, p, inside, data[..n])
  {
    hide Load, Coherent, Touch, Slice;
    ChunkInPage(g, offset, |data|);
    PageOf(g, offset);
    var p := offset / g.pageSize;
    LoadCoherent(g, s, p);
    PageView(g, Load(g, s, p), p);
    LoadedLast(g, s, p);
  }

  lemma LoadedLast(g: Geometry, s: Cache, p: nat)
    requires Coherent(g, s) && g.Holds(p)
    ensures MoveToEnd(Load(g, s, p).order, p) == Load(g, s, p).order
  {
    hide Load, PageCoherent;
    LoadCoherent(g, s, p);
    TouchFits(s.order, p, g.capacity);
    var o := Load(g, s, p).order;
    WithoutAt(o, |o| - 1);
  }

  // ---- The pages an operation touches, and the counters ----

  function Counts(s: Cache): Tally {
    Tally(s.order, s.hits, s.misses)
  }

  /** The pages of the trace are touched one after the other, and nothing is written back. */
  predicate Touches(g: Geometry, s: Cache, r: Cache, trace: seq<nat>) {
    Counts(r) == TouchAll(Counts(s), trace, g.capacity) && r.remote == s.remote && r.remoteWrites == s.remoteWrites
  }

  lemma {:induction false} ChunkTouches(g: Geometry, s: Cache, offset: nat, data: bytes)
    requires Coherent(g, s) && data != [] && offset + |data| <= g.size
    ensures var one := TouchOne(Counts(s), offset / g.pageSize, g.capacity);
            var read, write := ReadChunk(g, s, offset, |data|).0, WriteChunk(g, s, offset, data);
            && Counts(read) == Counts(write) == one
            && read.remote == write.remote == s.remote
            && read.remoteWrites == write.remoteWrites == s.remoteWrites
  {
    hide Load, Coherent, Chunk, Touch;
    ChunkInPage(g, offset, |data|);
    LoadCoherent(g, s, offset / g.pageSize);
  }

  lemma {:induction false} SpanTouched(g: Geometry, t: Tally, offset: nat, length: nat)
    requires length > 0
    ensures var n := Chunk(g, offset, length);
            TouchAll(t, Span(g, offset, length), g.capacity)
            == TouchAll(TouchOne(t, offset / g.pageSize, g.capacity), Span(g, offset + n, length - n), g.capacity)
  {
    hide Chunk, Span, TouchOne;
    SpanSplit(g, offset, length);
    var n := Chunk(g, offset, length);
    assert ([offset / g.pageSize] + Span(g, offset + n, length - n))[1..] == Span(g, offset + n, length - n);
  }

  lemma NothingTouched(g: Geometry, s: Cache, offset: nat)
    ensures Span(g, offset, 0) == [] && Touches(g, s, s, [])
  {
  }

  /** A read touches the pages of its range once each, in address order, and writes nothing back. */
  lemma {:induction false} ReadTouches(g: Geometry, s: Cache, offset: nat, length: nat)
    requires Coherent(g, s) && offset + length <= g.size
    ensures Touches(g, s, ReadFrom(g, s, offset, length).0, Span(g, offset, length))
    decreases length
  {
    hide Span, Chunk, Coherent, ReadChunk, TouchOne;
    if length == 0 {
      NothingTouched(g, s, offset);
    } else {
      var (loaded, out) := ReadChunk(g, s, offset, length);
      ChunkTouches(g, s, offset, Zeros(length));
      ReadTouches(g, loaded, offset + |out|, length - |out|);
      SpanTouched(g, Counts(s), offset, length);
    }
  }

  /** So does a write: the written bytes stay in the cache. */
  lemma {:induction false} WriteTouches(g: Geometry, s: Cache, offset: nat, data: bytes)
    requires Coherent(g, s) && offset + |data| <= g.size
    ensures Touches(g, s, WriteFrom(g, s, offset, data), Span(g, offset, |data|))
    decreases |data|
  {
    hide Span, Chunk, Coherent, WriteChunk, TouchOne;
    if data == [] {
      NothingTouched(g, s, offset);
    } else {
      var n := Chunk(g, offset, |data|);
      ChunkTouches(g, s, offset, data);
      WriteTouches(g, WriteChunk(g, s, offset, data), offset + n, data[n..]);
      SpanTouched(g, Counts(s), offset, |data|);
    }
  }

  /** A read or write of L > 0 bytes at offset o counts (o+L-1)/P - o/P + 1 hits and misses, one per
      page of its range. */
  lemma AccessCount(g: Geometry, offset: nat, length: nat)
    requires length > 0
    ensures |Span(g, offset, length)| == (offset + length - 1) / g.pageSize - offset / g.pageSize + 1
    ensures forall p :: p in Span(g, offset, length) <==>
              exists i {:trigger i / g.pageSize} :: offset <= i < offset + length && i / g.pageSize == p
  {
    SpanGrows(g, offset, length);
    forall i | offset <= i < offset + length ensures i / g.pageSize in Span(g, offset, length) {
      SpanGrows(g, offset, i - offset + 1);
      SpanGrows(g, i, offset + length - i);
      assert Span(g, offset, length)[i / g.pageSize - offset / g.pageSize] == i / g.pageSize;
    }
    forall p | p in Span(g, offset, length)
      ensures exists i {:trigger i / g.pageSize} :: offset <= i < offset + length && i / g.pageSize == p
    {
      SpanHits(g, offset, length, p);
    }
  }

  lemma SpanHits(g: Geometry, offset: nat, length: nat, p: nat)
    requires length > 0 && p in Span(g, offset, length)
    ensures exists i {:trigger i / g.pageSize} :: offset <= i < offset + length && i / g.pageSize == p
  {
    assert offset / g.pageSize <= p <= (offset + length - 1) / g.pageSize by {
      SpanGrows(g, offset, length);
    }
    if p > offset / g.pageSize {
      var i := PageStart(g, offset, offset + length - 1, p);
      assert offset <= i < offset + length && i / g.pageSize == p;
    }
  }

  /** The first byte of a page after the page of `low` and no later than the page of `high`. */
  lemma PageStart(g: Geometry, low: nat, high: nat, p: nat) returns (i: nat)
    requires low / g.pageSize < p <= high / g.pageSize
    ensures low <= i <= high && i / g.pageSize == p
  {
    PageOf(g, low);
    PageOf(g, high);
    InPage(g, p, 0);
    TimesMonotone(low / g.pageSize + 1, p, g.pageSize);
    TimesMonotone(p, high / g.pageSize, g.pageSize);
    i := g.Base(p);
  }
}
