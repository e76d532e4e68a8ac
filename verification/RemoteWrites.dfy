/** How often the write-back cache writes to the remote side, from offsets, lengths and recency alone. */
module RemoteWrites {
  import opened Bytes
  import opened Lru
  import opened PageCacheSpec
  import opened PageCacheOps
  import opened CacheRuns
  import opened DirtyEviction

  /** The dirty pages after the touches of a trace: a write adds the page touched, an eviction drops the
      oldest one. */
  function DirtyTouched(order: seq<nat>, dirty: set<nat>, trace: seq<nat>, writing: bool, cap: pos): set<nat>
    decreases |trace|
  {
    if trace == [] then dirty
    else
      var p := trace[0];
      var kept := if p !in order && |order| >= cap then dirty - {order[0]} else dirty;
      DirtyTouched(Touch(order, p, cap), if writing then kept + {p} else kept, trace[1..], writing, cap)
  }

  /** The pages dirty after a run. */
  function DirtyNow(g: Geometry, order: seq<nat>, ops: seq<Op>): set<nat> {
    if ops == [] then {}
    else
      var front, op := ops[..|ops| - 1], ops[|ops| - 1];
      if op.FlushAll? then {}
      else
        DirtyTouched(Run(order, Trace(g, front), g.capacity), DirtyNow(g, order, front), TraceOf(g, op), op.Write?,
                     g.capacity)
  }

  /** One write for every page dirty at a flush. */
  function FlushWrites(g: Geometry, order: seq<nat>, ops: seq<Op>): nat {
    if ops == [] then 0
    else
      var front := ops[..|ops| - 1];
      FlushWrites(g, order, front) + if ops[|ops| - 1].FlushAll? then |DirtyNow(g, order, front)| else 0
  }

  lemma LoadDirty(g: Geometry, s: Cache, p: nat)
    requires Coherent(g, s) && g.Holds(p)
    ensures Load(g, s, p).dirty ==
            if p !in s.order && |s.order| >= g.capacity then s.dirty - {s.order[0]} else s.dirty
  {
    hide Load, PageCoherent;
    LoadCoherent(g, s, p);
    assert p in s.pages <==> p in Elems(s.order);
  }

  lemma DirtyStep(order: seq<nat>, dirty: set<nat>, p: nat, rest: seq<nat>, writing: bool, cap: pos)
    ensures var kept := if p !in order && |order| >= cap then dirty - {order[0]} else dirty;
            DirtyTouched(order, dirty, [p] + rest, writing, cap)
            == DirtyTouched(Touch(order, p, cap), if writing then kept + {p} else kept, rest, writing, cap)
  {
    hide Touch;
    assert ([p] + rest)[1..] == rest;
  }

  lemma {:induction false} ReadDirty(g: Geometry, s: Cache, offset: nat, length: nat)
    requires Coherent(g, s) && offset + length <= g.size
    ensures ReadFrom(g, s, offset, length).0.dirty
            == DirtyTouched(s.order, s.dirty, Span(g, offset, length), false, g.capacity)
    decreases length
  {
    hide Coherent, Load, ReadChunk, Chunk, Span, Touch, DirtyTouched;
    if length == 0 {
      NothingDirty(g, s.order, s.dirty, offset, false);
    } else {
      var p := offset / g.pageSize;
      var (loaded, out) := ReadChunk(g, s, offset, length);
      ReadChunkIs(g, s, offset, length);
      LoadCoherent(g, s, p);
      LoadDirty(g, s, p);
      ReadDirty(g, loaded, offset + |out|, length - |out|);
      SpanSplit(g, offset, length);
      DirtyStep(s.order, s.dirty, p, Span(g, offset + |out|, length - |out|), false, g.capacity);
    }
  }

  lemma {:induction false} WriteDirty(g: Geometry, s: Cache, offset: nat, data: bytes)
    requires Coherent(g, s) && offset + |data| <= g.size
    ensures WriteFrom(g, s, offset, data).dirty
            == DirtyTouched(s.order, s.dirty, Span(g, offset, |data|), true, g.capacity)
    decreases |data|
  {
    hide Coherent, Load, WriteChunk, Chunk, Span, Touch, DirtyTouched;
    if data == [] {
      NothingDirty(g, s.order, s.dirty, offset, true);
    } else {
      var p, n := offset / g.pageSize, Chunk(g, offset, |data|);
      WriteChunkIs(g, s, offset, data);
      LoadCoherent(g, s, p);
      LoadDirty(g, s, p);
      WriteDirty(g, WriteChunk(g, s, offset, data), offset + n, data[n..]);
      SpanSplit(g, offset, |data|);
      DirtyStep(s.order, s.dirty, p, Span(g, offset + n, |data| - n), true, g.capacity);
    }
  }

  lemma NothingDirty(g: Geometry, order: seq<nat>, dirty: set<nat>, offset: nat, writing: bool)
    ensures DirtyTouched(order, dirty, [], writing, g.capacity) == dirty && Span(g, offset, 0) == []
  {
  }

  lemma ApplyDirty(g: Geometry, s: Cache, op: Op)
    requires Coherent(g, s)
    ensures var after := Apply(g, s, op).0;
            if op.FlushAll? then after.dirty == {} && after.remoteWrites == s.remoteWrites + |s.dirty|
            else
              && after.dirty == DirtyTouched(s.order, s.dirty, TraceOf(g, op), op.Write?, g.capacity)
              && after.remoteWrites == s.remoteWrites
  {
    hide Coherent, ReadFrom, WriteFrom, View, Span, DirtyTouched;
    NothingDirty(g, s.order, s.dirty, 0, op.Write?);
    match op
    case Read(offset, length) =>
      if InRange(offset, length, g.size) {
        ReadDirty(g, s, offset, length);
        ReadTouches(g, s, offset, length);
      }
    case Write(offset, data) =>
      if InRange(offset, |data|, g.size) {
        WriteDirty(g, s, offset, data);
        WriteTouches(g, s, offset, data);
      }
    case FlushAll =>
  }

  /** In every run, whatever it loses: the dirty pages are those written and not evicted since the last
      flush, and the remote side is written once for every page dirty at a flush, and at no other time. */
  lemma {:induction false} WriteAccounting(g: Geometry, s: Cache, ops: seq<Op>)
    requires Coherent(g, s) && s.dirty == {}
    ensures var after := Execute(g, s, ops).0;
            && after.dirty == DirtyNow(g, s.order, ops)
            && after.remoteWrites == s.remoteWrites + FlushWrites(g, s.order, ops)
  {
    hide Coherent, Apply, Trace, TraceOf, DirtyTouched;
    if ops != [] {
      var front, op := ops[..|ops| - 1], ops[|ops| - 1];
      WriteAccounting(g, s, front);
      ExecuteTouches(g, s, front);
      ApplyDirty(g, Execute(g, s, front).0, op);
    }
  }

  lemma {:induction false} SafeDirty(order: seq<nat>, dirty: set<nat>, trace: seq<nat>, writing: bool, cap: pos)
    requires Safe(order, dirty, trace, writing, cap)
    ensures DirtyTouched(order, dirty, trace, writing, cap) == dirty + if writing then Elems(trace) else {}
    decreases |trace|
  {
    hide Touch;
    if trace != [] {
      var p := trace[0];
      var kept := if p !in order && |order| >= cap then dirty - {order[0]} else dirty;
      assert kept == dirty;
      SafeDirty(Touch(order, p, cap), if writing then dirty + {p} else dirty, trace[1..], writing, cap);
      assert trace == [p] + trace[1..];
      assert Elems(trace) == {p} + Elems(trace[1..]);
    }
  }

  /** A run that evicts no dirty page writes every page back once for each stretch between flushes in which
      it is written. */
  lemma {:induction false} CleanWrites(g: Geometry, order: seq<nat>, ops: seq<Op>)
    requires NoDirtyEviction(g, order, ops)
    ensures DirtyNow(g, order, ops) == DirtyPages(g, ops)
  {
    hide Safe, TraceOf, Run, DirtyTouched, Elems;
    if ops != [] {
      var front, op := ops[..|ops| - 1], ops[|ops| - 1];
      CleanWrites(g, order, front);
      SafeDirty(Run(order, Trace(g, front), g.capacity), DirtyPages(g, front), TraceOf(g, op), op.Write?, g.capacity);
    }
  }
}
