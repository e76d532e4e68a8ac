/** Exactly what a read or a write of the write-back cache does to each byte that readers see. */
module Transparency {
  import opened Bytes
  import opened Lru
  import opened PageCacheSpec
  import opened PageCacheOps

  /** The page is cached, and stays so while the pages of the trace are touched. */
  predicate Survives(order: seq<nat>, trace: seq<nat>, p: nat, cap: pos)
    decreases |trace|
  {
    p in order && (trace == [] || Survives(Touch(order, trace[0], cap), trace[1..], p, cap))
  }

  /** The page is on the trace, and stays cached from its first touch on. */
  predicate SurvivesFrom(order: seq<nat>, trace: seq<nat>, p: nat, cap: pos)
    decreases |trace|
  {
    && trace != []
    && var touched := Touch(order, trace[0], cap);
       if trace[0] == p then Survives(touched, trace[1..], p, cap) else SurvivesFrom(touched, trace[1..], p, cap)
  }

  lemma Uncached(g: Geometry, s: Cache, i: nat)
    requires Coherent(g, s) && i < |s.remote| && i / g.pageSize !in s.order
    ensures View(g, s)[i] == s.remote[i]
  {
    assert i / g.pageSize !in Elems(s.order);
  }

  /** After a load a byte is the one seen before if its page is cached, and the remote one otherwise. */
  lemma LoadByteIs(g: Geometry, s: Cache, p: nat, i: nat)
    requires Coherent(g, s) && g.Holds(p) && i < |s.remote|
    ensures Coherent(g, Load(g, s, p)) && Load(g, s, p).remote == s.remote
    ensures View(g, Load(g, s, p))[i] ==
            if i / g.pageSize in Touch(s.order, p, g.capacity) then View(g, s)[i] else s.remote[i]
  {
    hide Load, Touch, PageCoherent, View, Victim;
    var q := i / g.pageSize;
    LoadCoherent(g, s, p);
    LoadView(g, s, p);
    VictimOf(g, s, p);
    if q !in Touch(s.order, p, g.capacity) {
      Uncached(g, Load(g, s, p), i);
    }
  }

  /** The victim of a load is the page that leaves the order. */
  lemma VictimOf(g: Geometry, s: Cache, p: nat)
    requires Coherent(g, s) && g.Holds(p)
    ensures forall q :: Victim(g, s, p) == Some(q) ==> q !in Touch(s.order, p, g.capacity)
  {
    hide Touch, PageCoherent;
    TouchFits(s.order, p, g.capacity);
    assert forall q :: q in s.order <==> q in Elems(s.order);
    assert forall q :: q in Touch(s.order, p, g.capacity) <==> q in Elems(Touch(s.order, p, g.capacity));
  }

  /** After a read each byte is the one seen before if its page stayed cached throughout, and the
      remote one otherwise. */
  lemma {:induction false} ReadByte(g: Geometry, s: Cache, offset: nat, length: nat, i: nat)
    requires Coherent(g, s) && offset + length <= g.size && i < |s.remote|
    ensures var after := ReadFrom(g, s, offset, length).0;
            && after.remote == s.remote
            && View(g, after)[i] == if Survives(s.order, Span(g, offset, length), i / g.pageSize, g.capacity)
                                    then View(g, s)[i] else s.remote[i]
    decreases length
  {
    hide Coherent, Load, View, ReadChunk, Chunk, Span, Touch;
    var q := i / g.pageSize;
    if q !in s.order {
      Uncached(g, s, i);
    }
    if length == 0 {
      NothingTouched(g, s, offset);
    } else {
      var p := offset / g.pageSize;
      var (loaded, out) := ReadChunk(g, s, offset, length);
      ReadChunkIs(g, s, offset, length);
      LoadCoherent(g, s, p);
      LoadByteIs(g, s, p, i);
      ReadByte(g, loaded, offset + |out|, length - |out|, i);
      SpanSplit(g, offset, length);
      var rest := Span(g, offset + |out|, length - |out|);
      assert ([p] + rest)[1..] == rest;
      SurvivesNow(loaded.order, rest, q, g.capacity);
    }
  }

  lemma SurvivesNow(order: seq<nat>, trace: seq<nat>, p: nat, cap: pos)
    ensures Survives(order, trace, p, cap) ==> p in order
  {
  }

  /** What readers see at `i` after a write. A written byte reads back if its page stays cached from
      its load to the end of the write; any other byte stays if its page does so from the start. */
  function WrittenByte(g: Geometry, s: Cache, offset: nat, data: bytes, i: nat): byte
    requires Coherent(g, s) && i < |s.remote|
  {
    var trace, q := Span(g, offset, |data|), i / g.pageSize;
    if offset <= i < offset + |data| then
      if SurvivesFrom(s.order, trace, q, g.capacity) then data[i - offset] else s.remote[i]
    else if Survives(s.order, trace, q, g.capacity) then View(g, s)[i]
    else s.remote[i]
  }

  lemma AfterChunk(g: Geometry, offset: nat, length: nat, i: nat)
    requires Chunk(g, offset, length + 1) <= length && offset + Chunk(g, offset, length + 1) <= i
    ensures i / g.pageSize != offset / g.pageSize
  {
    PageOf(g, offset);
    PageOf(g, i);
  }

  /** One turn of the write loop splices its part of the data into what the load left. */
  lemma ChunkView(g: Geometry, s: Cache, offset: nat, data: bytes)
    requires Coherent(g, s) && data != [] && offset + |data| <= g.size
    ensures g.Holds(offset / g.pageSize) && Coherent(g, Load(g, s, offset / g.pageSize))
    ensures var r, n := WriteChunk(g, s, offset, data), Chunk(g, offset, |data|);
            var loaded := Load(g, s, offset / g.pageSize);
            && r.remote == s.remote && r.order == Touch(s.order, offset / g.pageSize, g.capacity)
            && offset + n <= |s.remote| == |View(g, loaded)|
            && View(g, r) == Splice(View(g, loaded), offset, data[..n])
  {
    hide Load, Coherent, View, PageCoherent, Touch, WriteChunk, Chunk, Splice;
    var p, inside, n := offset / g.pageSize, offset % g.pageSize, Chunk(g, offset, |data|);
    ChunkInPage(g, offset, |data|);
    PageOf(g, offset);
    SizeBound(g, s);
    LoadCoherent(g, s, p);
    WriteChunkIs(g, s, offset, data);
    PutView(g, Load(g, s, p), p, inside, data[..n]);
  }

  lemma SizeBound(g: Geometry, s: Cache)
    requires Coherent(g, s)
    ensures g.size <= |s.remote|
  {
  }

  lemma ChunkPage(g: Geometry, offset: nat, length: nat, i: nat)
    requires length > 0 && offset <= i < offset + Chunk(g, offset, length)
    ensures i / g.pageSize == offset / g.pageSize
  {
    PageOf(g, offset);
    InPage(g, offset / g.pageSize, i - g.Base(offset / g.pageSize));
  }

  /** One turn of the write loop, byte by byte. */
  lemma ChunkByte(g: Geometry, s: Cache, offset: nat, data: bytes, i: nat)
    requires Coherent(g, s) && data != [] && offset + |data| <= g.size && i < |s.remote|
    ensures var r, n := WriteChunk(g, s, offset, data), Chunk(g, offset, |data|);
            && r.remote == s.remote && r.order == Touch(s.order, offset / g.pageSize, g.capacity)
            && View(g, r)[i] == if offset <= i < offset + n then data[i - offset]
                                else if i / g.pageSize in r.order then View(g, s)[i] else s.remote[i]
  {
    hide Load, Coherent, View, PageCoherent, Touch, WriteChunk, Chunk, Splice;
    ChunkView(g, s, offset, data);
    LoadByteIs(g, s, offset / g.pageSize, i);
    SpliceAt(View(g, Load(g, s, offset / g.pageSize)), offset, data[..Chunk(g, offset, |data|)], i);
  }

  lemma {:induction false} WriteByte(g: Geometry, s: Cache, offset: nat, data: bytes, i: nat)
    requires Coherent(g, s) && offset + |data| <= g.size && i < |s.remote|
    ensures var after := WriteFrom(g, s, offset, data);
            && after.remote == s.remote
            && View(g, after)[i] == WrittenByte(g, s, offset, data, i)
    decreases |data|
  {
    hide Coherent, Load, View, WriteChunk, Chunk, Span, Touch;
    var q := i / g.pageSize;
    if q !in s.order {
      Uncached(g, s, i);
    }
    if data == [] {
      NothingTouched(g, s, offset);
    } else {
      var p, n := offset / g.pageSize, Chunk(g, offset, |data|);
      var r := WriteChunk(g, s, offset, data);
      ChunkByte(g, s, offset, data, i);
      WriteByte(g, r, offset + n, data[n..], i);
      SpanSplit(g, offset, |data|);
      var rest := Span(g, offset + n, |data| - n);
      assert ([p] + rest)[1..] == rest;
      SurvivesNow(r.order, rest, q, g.capacity);
      if offset <= i < offset + n {
        ChunkPage(g, offset, |data|, i);
      } else if i < offset + |data| && offset <= i {
        AfterChunk(g, offset, |data| - 1, i);
      }
    }
  }

  /** Exactly when a read is invisible to readers: unless some byte that differs from its remote one
      lies on a page that the read pushes out. */
  lemma ReadTransparentIff(g: Geometry, s: Cache, offset: nat, length: nat)
    requires Coherent(g, s) && offset + length <= g.size
    ensures View(g, ReadFrom(g, s, offset, length).0) == View(g, s) <==>
            forall i :: 0 <= i < |s.remote| && View(g, s)[i] != s.remote[i] ==>
              Survives(s.order, Span(g, offset, length), i / g.pageSize, g.capacity)
  {
    hide Coherent, View, ReadFrom, Span, Survives;
    var after := ReadFrom(g, s, offset, length).0;
    forall i | 0 <= i < |s.remote|
      ensures after.remote == s.remote
      ensures View(g, after)[i] == if Survives(s.order, Span(g, offset, length), i / g.pageSize, g.capacity)
                                   then View(g, s)[i] else s.remote[i]
    {
      ReadByte(g, s, offset, length, i);
    }
    ReadRemote(g, s, offset, length);
  }

  lemma ReadRemote(g: Geometry, s: Cache, offset: nat, length: nat)
    requires Coherent(g, s) && offset + length <= g.size
    ensures ReadFrom(g, s, offset, length).0.remote == s.remote
  {
    ReadTouches(g, s, offset, length);
  }

  /** A written byte that differs from the remote one has its page cached from its load to the end of
      the write; any other byte that differs from the remote one has it cached throughout. */
  predicate WriteKeeps(g: Geometry, s: Cache, offset: nat, data: bytes, i: nat)
    requires Coherent(g, s) && i < |s.remote|
  {
    var trace, q := Span(g, offset, |data|), i / g.pageSize;
    if offset <= i < offset + |data| then
      data[i - offset] == s.remote[i] || SurvivesFrom(s.order, trace, q, g.capacity)
    else
      View(g, s)[i] == s.remote[i] || Survives(s.order, trace, q, g.capacity)
  }

  lemma WriteKeepsIff(g: Geometry, s: Cache, offset: nat, data: bytes, i: nat)
    requires Coherent(g, s) && offset + |data| <= g.size <= |s.remote| && i < |s.remote|
    ensures WriteFrom(g, s, offset, data).remote == s.remote
    ensures View(g, WriteFrom(g, s, offset, data))[i] == Splice(View(g, s), offset, data)[i]
            <==> WriteKeeps(g, s, offset, data, i)
  {
    hide Coherent, View, WriteFrom, Splice, Span, Survives, SurvivesFrom;
    WriteByte(g, s, offset, data, i);
    SpliceAt(View(g, s), offset, data, i);
  }

  /** Exactly when a write acts as a slice assignment: unless it pushes out one of its own pages before
      it ends, or any other page, with a byte that differs from the remote one. */
  lemma WriteTransparentIff(g: Geometry, s: Cache, offset: nat, data: bytes)
    requires Coherent(g, s) && offset + |data| <= g.size
    ensures g.size <= |s.remote|
    ensures View(g, WriteFrom(g, s, offset, data)) == Splice(View(g, s), offset, data) <==>
            forall i :: 0 <= i < |s.remote| ==> WriteKeeps(g, s, offset, data, i)
  {
    hide Coherent, View, WriteFrom, WriteKeeps, Splice;
    SizeBound(g, s);
    WriteTouches(g, s, offset, data);
    forall i | 0 <= i < |s.remote|
      ensures View(g, WriteFrom(g, s, offset, data))[i] == Splice(View(g, s), offset, data)[i]
              <==> WriteKeeps(g, s, offset, data, i)
    {
      WriteKeepsIff(g, s, offset, data, i);
    }
  }

  /** A read that changes nothing for readers returns what they see. */
  lemma ReadReturns(g: Geometry, s: Cache, offset: nat, length: nat)
    requires Coherent(g, s) && offset + length <= g.size
    requires View(g, ReadFrom(g, s, offset, length).0) == View(g, s)
    ensures g.size <= |s.remote|
    ensures ReadFrom(g, s, offset, length).1 == Slice(View(g, s), offset, length)
  {
    hide View, ReadFrom, PageCoherent;
    var (after, out) := ReadFrom(g, s, offset, length);
    ReadLength(g, s, offset, length);
    forall k | 0 <= k < length ensures out[k] == View(g, s)[offset + k] {
      ReturnedByte(g, s, offset, length, k);
    }
  }

  lemma {:induction false} ReadLength(g: Geometry, s: Cache, offset: nat, length: nat)
    requires Coherent(g, s) && offset + length <= g.size
    ensures |ReadFrom(g, s, offset, length).1| == length
    decreases length
  {
    hide Coherent, ReadChunk, Chunk;
    if length > 0 {
      var (loaded, out) := ReadChunk(g, s, offset, length);
      ReadLength(g, loaded, offset + |out|, length - |out|);
    }
  }

  /** A returned byte other than the one seen before is the remote byte, and is seen from then on. */
  lemma {:induction false} ReturnedByte(g: Geometry, s: Cache, offset: nat, length: nat, k: nat)
    requires Coherent(g, s) && offset + length <= g.size && k < length
    ensures var (after, out) := ReadFrom(g, s, offset, length);
            && |out| == length && offset + k < |View(g, s)| == |View(g, after)|
            && (out[k] != View(g, s)[offset + k] ==> View(g, after)[offset + k] != View(g, s)[offset + k])
    decreases length
  {
    hide Coherent, View, Load, ReadChunk, Chunk, Span, Survives, Touch;
    ReadLength(g, s, offset, length);
    var p, i := offset / g.pageSize, offset + k;
    SizeBound(g, s);
    ReadRemote(g, s, offset, length);
    var (loaded, out) := ReadChunk(g, s, offset, length);
    ReadChunkIs(g, s, offset, length);
    LoadCoherent(g, s, p);
    LoadByteIs(g, s, p, i);
    var n := |out|;
    ReadByte(g, loaded, offset + n, length - n, i);
    if k < n {
      PageOf(g, offset);
      PageView(g, loaded, p);
      LoadedByte(g, loaded, p, offset % g.pageSize + k);
    } else {
      ReturnedByte(g, loaded, offset + n, length - n, k - n);
    }
  }

  lemma LoadedByte(g: Geometry, s: Cache, p: nat, k: nat)
    requires Coherent(g, s) && p in s.pages && k < |s.pages[p]|
    ensures g.Base(p) + k < |s.remote| && View(g, s)[g.Base(p) + k] == s.pages[p][k]
  {
    assert PageCoherent(g, s, p);
    PageByte(g, s, p, k);
  }
}
