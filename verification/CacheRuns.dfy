/** Runs of the write-back cache, the plain byte array they stand for, and the pages they touch. */
module CacheRuns {
  import opened Bytes
  import opened Lru
  import opened LruBounds
  import opened PageCacheSpec
  import opened PageCacheOps

  datatype Op = Read(offset: int, length: int) | Write(offset: int, data: bytes) | FlushAll

  datatype Reply = Data(data: bytes) | Done | Refused

  predicate InRange(offset: int, length: int, size: nat) {
    0 <= offset && 0 <= length && offset + length <= size
  }

  /** One operation on the cache. */
  function Apply(g: Geometry, s: Cache, op: Op): (r: (Cache, Reply))
    requires Coherent(g, s)
    ensures Coherent(g, r.0)
  {
    match op
    case Read(offset, length) =>
      if InRange(offset, length, g.size) then
        var (after, out) := ReadFrom(g, s, offset, length);
        (after, Data(out))
      else (s, Refused)
    case Write(offset, data) =>
      if InRange(offset, |data|, g.size) then (WriteFrom(g, s, offset, data), Done) else (s, Refused)
    case FlushAll =>
      FlushView(g, s);
      (Flush(g, s), Done)
  }

  /** The same operation on a plain array of which the first `size` bytes may be addressed. */
  function ApplyFlat(size: nat, memory: bytes, op: Op): (r: (bytes, Reply))
    requires size <= |memory|
    ensures |r.0| == |memory|
  {
    match op
    case Read(offset, length) =>
      if InRange(offset, length, size) then (memory, Data(Slice(memory, offset, length)))
      else (memory, Refused)
    case Write(offset, data) =>
      if InRange(offset, |data|, size) then (Splice(memory, offset, data), Done) else (memory, Refused)
    case FlushAll => (memory, Done)
  }

  function Execute(g: Geometry, s: Cache, ops: seq<Op>): (r: (Cache, seq<Reply>))
    requires Coherent(g, s)
    ensures Coherent(g, r.0) && |r.1| == |ops|
  {
    if ops == [] then (s, [])
    else
      var (before, replies) := Execute(g, s, ops[..|ops| - 1]);
      var (after, reply) := Apply(g, before, ops[|ops| - 1]);
      (after, replies + [reply])
  }

  function ExecuteFlat(size: nat, memory: bytes, ops: seq<Op>): (r: (bytes, seq<Reply>))
    requires size <= |memory|
    ensures |r.0| == |memory| && |r.1| == |ops|
  {
    if ops == [] then (memory, [])
    else
      var (before, replies) := ExecuteFlat(size, memory, ops[..|ops| - 1]);
      var (after, reply) := ApplyFlat(size, before, ops[|ops| - 1]);
      (after, replies + [reply])
  }

  function TraceOf(g: Geometry, op: Op): seq<nat> {
    match op
    case Read(offset, length) => if InRange(offset, length, g.size) then Span(g, offset, length) else []
    case Write(offset, data) => if InRange(offset, |data|, g.size) then Span(g, offset, |data|) else []
    case FlushAll => []
  }

  /** The pages that a run touches, in order. */
  function Trace(g: Geometry, ops: seq<Op>): seq<nat> {
    if ops == [] then [] else Trace(g, ops[..|ops| - 1]) + TraceOf(g, ops[|ops| - 1])
  }

  // ---- Runs end to end ----

  lemma {:induction false} ExecuteLast(g: Geometry, s: Cache, ops: seq<Op>, op: Op)
    requires Coherent(g, s)
    ensures var (before, replies) := Execute(g, s, ops); var (after, reply) := Apply(g, before, op);
            Execute(g, s, ops + [op]) == (after, replies + [reply])
  {
    assert (ops + [op])[..|ops|] == ops;
  }

  lemma ExecuteNothing(g: Geometry, s: Cache)
    requires Coherent(g, s)
    ensures Execute(g, s, []) == (s, [])
  {
  }

  lemma ExecuteOne(g: Geometry, s: Cache, op: Op)
    requires Coherent(g, s)
    ensures Execute(g, s, [op]) == (Apply(g, s, op).0, [Apply(g, s, op).1])
  {
    hide Coherent, Apply;
    ExecuteNothing(g, s);
    ExecuteLast(g, s, [], op);
    assert [] + [op] == [op] && [] + [Apply(g, s, op).1] == [Apply(g, s, op).1];
  }

  lemma ExecuteFlatNothing(size: nat, memory: bytes)
    requires size <= |memory|
    ensures ExecuteFlat(size, memory, []) == (memory, [])
  {
  }

  lemma ExecuteFlatOne(size: nat, memory: bytes, op: Op)
    requires size <= |memory|
    ensures ExecuteFlat(size, memory, [op]) == (ApplyFlat(size, memory, op).0, [ApplyFlat(size, memory, op).1])
  {
    hide ApplyFlat;
    assert [op][..0] == [];
    ExecuteFlatNothing(size, memory);
    assert [] + [ApplyFlat(size, memory, op).1] == [ApplyFlat(size, memory, op).1];
  }

  lemma {:induction false} ExecuteConcat(g: Geometry, s: Cache, a: seq<Op>, b: seq<Op>)
    requires Coherent(g, s)
    ensures var (middle, first) := Execute(g, s, a); var (after, second) := Execute(g, middle, b);
            Execute(g, s, a + b) == (after, first + second)
    decreases |b|
  {
    hide Coherent, Apply;
    if b == [] {
      assert a + b == a;
      assert Execute(g, s, a).1 + [] == Execute(g, s, a).1;
    } else {
      var front, op := b[..|b| - 1], b[|b| - 1];
      assert a + b == (a + front) + [op];
      ExecuteConcat(g, s, a, front);
      ExecuteLast(g, s, a + front, op);
      var (middle, first) := Execute(g, s, a);
      var (before, second) := Execute(g, middle, front);
      var reply := Apply(g, before, op).1;
      assert first + (second + [reply]) == (first + second) + [reply];
    }
  }

  /** A run is its first operation and then the rest. */
  lemma ExecuteFirst(g: Geometry, s: Cache, op: Op, rest: seq<Op>)
    requires Coherent(g, s)
    ensures Execute(g, s, [op] + rest).0 == Execute(g, Apply(g, s, op).0, rest).0
  {
    hide Coherent, Apply, Execute;
    ExecuteOne(g, s, op);
    ExecuteConcat(g, s, [op], rest);
  }

  lemma {:induction false} ExecuteFlatConcat(size: nat, memory: bytes, a: seq<Op>, b: seq<Op>)
    requires size <= |memory|
    ensures var (middle, first) := ExecuteFlat(size, memory, a); var (after, second) := ExecuteFlat(size, middle, b);
            ExecuteFlat(size, memory, a + b) == (after, first + second)
    decreases |b|
  {
    hide ApplyFlat;
    if b == [] {
      assert a + b == a;
      assert ExecuteFlat(size, memory, a).1 + [] == ExecuteFlat(size, memory, a).1;
    } else {
      var front := b[..|b| - 1];
      assert (a + b)[..|a + b| - 1] == a + front;
      ExecuteFlatConcat(size, memory, a, front);
      var (middle, first) := ExecuteFlat(size, memory, a);
      var (before, second) := ExecuteFlat(size, middle, front);
      var reply := ApplyFlat(size, before, b[|b| - 1]).1;
      assert first + (second + [reply]) == (first + second) + [reply];
    }
  }

  // ---- Recency and counters over whole runs ----

  lemma FreshCoherent(g: Geometry, remote: bytes)
    requires g.size <= |remote|
    ensures Coherent(g, Fresh(remote)) && View(g, Fresh(remote)) == remote
  {
  }

  lemma {:induction false} ApplyTouches(g: Geometry, s: Cache, op: Op)
    requires Coherent(g, s)
    ensures var r := Apply(g, s, op).0; var t := TraceOf(g, op);
            && r.order == Run(s.order, t, g.capacity)
            && r.misses == s.misses + Misses(s.order, t, g.capacity)
            && r.hits + r.misses == s.hits + s.misses + |t|
  {
    hide Span, Coherent, ReadFrom, WriteFrom, View, TouchAll, Run, Misses;
    TouchAllRuns(Counts(s), TraceOf(g, op), g.capacity);
    match op
    case Read(offset, length) =>
      if InRange(offset, length, g.size) { ReadTouches(g, s, offset, length); }
      else { TouchNothing(Counts(s), g.capacity); }
    case Write(offset, data) =>
      if InRange(offset, |data|, g.size) { WriteTouches(g, s, offset, data); }
      else { TouchNothing(Counts(s), g.capacity); }
    case FlushAll => TouchNothing(Counts(s), g.capacity);
  }

  lemma TouchNothing(t: Tally, cap: pos)
    ensures TouchAll(t, [], cap) == t
  {
  }

  /** In every run the recency order and the hit and miss counters are those of LRU on the trace
      of touched pages. */
  lemma {:induction false} ExecuteTouches(g: Geometry, s: Cache, ops: seq<Op>)
    requires Coherent(g, s)
    ensures var r := Execute(g, s, ops).0; var t := Trace(g, ops);
            && r.order == Run(s.order, t, g.capacity)
            && r.misses == s.misses + Misses(s.order, t, g.capacity)
            && r.hits + r.misses == s.hits + s.misses + |t|
  {
    hide Coherent, View, Apply, TraceOf;
    if ops != [] {
      var front, op := ops[..|ops| - 1], ops[|ops| - 1];
      ExecuteTouches(g, s, front);
      ApplyTouches(g, Execute(g, s, front).0, op);
      RunConcat(s.order, Trace(g, front), TraceOf(g, op), g.capacity);
    }
  }

  /** In every run, whatever it touches: as many remote reads as misses, evictions the misses that
      are no longer cached, and never more pages than the capacity. */
  lemma {:induction false} CounterAccounting(g: Geometry, remote: bytes, ops: seq<Op>)
    requires g.size <= |remote|
    ensures Coherent(g, Fresh(remote))
    ensures var r := Execute(g, Fresh(remote), ops).0;
            && r.remoteReads == r.misses
            && r.evictions == r.misses - |r.pages|
            && |r.pages| <= g.capacity
            && r.hits + r.misses == |Trace(g, ops)|
  {
    hide Coherent, View, Apply, Execute, Trace, Misses;
    FreshCoherent(g, remote);
    ExecuteTouches(g, Fresh(remote), ops);
    CoherentCounters(g, Execute(g, Fresh(remote), ops).0);
  }

  /** In every run the cache misses at most `capacity` times as often as any other demand-paged cache
      of its size would on the same pages, the best offline choice included, plus `capacity`. */
  lemma {:induction false} CacheCompetitive(g: Geometry, remote: bytes, ops: seq<Op>, held: seq<set<nat>>)
    requires g.size <= |remote|
    requires DemandRun(held, Trace(g, ops), g.capacity)
    ensures Coherent(g, Fresh(remote))
    ensures Execute(g, Fresh(remote), ops).0.misses <= TimesMore(g.capacity, DemandMisses(held, Trace(g, ops)))
  {
    hide Coherent, View, Apply, Execute, Trace, Misses, DemandRun, DemandMisses, TimesMore;
    FreshCoherent(g, remote);
    ExecuteTouches(g, Fresh(remote), ops);
    var trace := Trace(g, ops);
    Competitive(trace, g.capacity, held);
    assert Execute(g, Fresh(remote), ops).0.misses == Misses([], trace, g.capacity);
  }

  lemma CoherentCounters(g: Geometry, s: Cache)
    requires Coherent(g, s)
    ensures s.remoteReads == s.misses && s.evictions == s.misses - |s.pages| && |s.pages| <= g.capacity
  {
    DistinctSize(s.order);
    assert |s.pages| == |s.pages.Keys|;
  }
}
