/** Runs that evict no page written since the last flush: what they promise, and what any other run
    can lose between two page touches. */
module DirtyEviction {
  import opened Bytes
  import opened Lru
  import opened LruBounds
  import opened PageCacheSpec
  import opened PageCacheOps
  import opened Transparency
  import opened CacheRuns
  import opened LostBytes

  // ---- No dirty page evicted ----

  function DirtyAfter(g: Geometry, dirty: set<nat>, op: Op): set<nat> {
    match op
    case Read(_, _) => dirty
    case Write(_, _) => dirty + Elems(TraceOf(g, op))
    case FlushAll => {}
  }

  /** Pages written since the last flush. */
  function DirtyPages(g: Geometry, ops: seq<Op>): set<nat> {
    if ops == [] then {} else DirtyAfter(g, DirtyPages(g, ops[..|ops| - 1]), ops[|ops| - 1])
  }

  /** No touch of the trace evicts a page that is dirty at that moment. */
  predicate Safe(order: seq<nat>, dirty: set<nat>, trace: seq<nat>, writing: bool, cap: pos)
    decreases |trace|
  {
    trace == [] ||
    (&& (trace[0] !in order && |order| >= cap ==> order[0] !in dirty)
     && Safe(Touch(order, trace[0], cap), if writing then dirty + {trace[0]} else dirty, trace[1..], writing, cap))
  }

  /** No touch of the run evicts a page written since the last flush. */
  predicate NoDirtyEviction(g: Geometry, order: seq<nat>, ops: seq<Op>) {
    ops == [] ||
    var front, op := ops[..|ops| - 1], ops[|ops| - 1];
    && NoDirtyEviction(g, order, front)
    && Safe(Run(order, Trace(g, front), g.capacity), DirtyPages(g, front), TraceOf(g, op), op.Write?, g.capacity)
  }

  lemma TouchKeeps(order: seq<nat>, p: nat, q: nat, cap: pos)
    requires Fits(order, cap) && q in order
    ensures q in Touch(order, p, cap) <==> !(p !in order && |order| >= cap && order[0] == q)
  {
    hide Touch, Without, IndexOf;
    TouchFits(order, p, cap);
    assert q in Elems(order);
    assert q in Touch(order, p, cap) <==> q in Elems(Touch(order, p, cap));
    assert p in order <==> p in Elems(order);
  }

  lemma {:induction false} SafeSurvives(order: seq<nat>, dirty: set<nat>, trace: seq<nat>, writing: bool, cap: pos,
                                        q: nat)
    requires Fits(order, cap) && Safe(order, dirty, trace, writing, cap) && q in dirty && q in order
    ensures Survives(order, trace, q, cap)
    decreases |trace|
  {
    hide Touch;
    if trace != [] {
      TouchFits(order, trace[0], cap);
      TouchKeeps(order, trace[0], q, cap);
      SafeSurvives(Touch(order, trace[0], cap), if writing then dirty + {trace[0]} else dirty, trace[1..], writing,
                   cap, q);
    }
  }

  lemma {:induction false} SafeSurvivesFrom(order: seq<nat>, dirty: set<nat>, trace: seq<nat>, cap: pos, q: nat)
    requires Fits(order, cap) && Safe(order, dirty, trace, true, cap) && q in trace
    ensures SurvivesFrom(order, trace, q, cap)
    decreases |trace|
  {
    hide Touch;
    TouchFits(order, trace[0], cap);
    var touched, more := Touch(order, trace[0], cap), dirty + {trace[0]};
    if trace[0] == q {
      SafeSurvives(touched, more, trace[1..], true, cap, q);
    } else {
      SafeSurvivesFrom(touched, more, trace[1..], cap, q);
    }
  }

  lemma RunStep(order: seq<nat>, p: nat, rest: seq<nat>, cap: pos)
    ensures Run(order, [p] + rest, cap) == Run(Touch(order, p, cap), rest, cap)
  {
    hide Touch;
    RunConcat(order, [p], rest, cap);
    assert [p][..0] == [];
    assert Run(order, [p], cap) == Touch(order, p, cap);
  }

  lemma {:induction false} SurvivesRun(order: seq<nat>, trace: seq<nat>, q: nat, cap: pos)
    requires Survives(order, trace, q, cap)
    ensures q in Run(order, trace, cap)
    decreases |trace|
  {
    hide Touch;
    if trace != [] {
      assert trace == [trace[0]] + trace[1..];
      RunStep(order, trace[0], trace[1..], cap);
      SurvivesRun(Touch(order, trace[0], cap), trace[1..], q, cap);
    }
  }

  lemma {:induction false} SurvivesFromRun(order: seq<nat>, trace: seq<nat>, q: nat, cap: pos)
    requires SurvivesFrom(order, trace, q, cap)
    ensures q in Run(order, trace, cap)
    decreases |trace|
  {
    hide Touch;
    assert trace == [trace[0]] + trace[1..];
    RunStep(order, trace[0], trace[1..], cap);
    if trace[0] == q {
      SurvivesRun(Touch(order, trace[0], cap), trace[1..], q, cap);
    } else {
      SurvivesFromRun(Touch(order, trace[0], cap), trace[1..], q, cap);
    }
  }

  /** Every page written since the last flush is still cached. */
  lemma {:induction false} DirtyCached(g: Geometry, order: seq<nat>, ops: seq<Op>, q: nat)
    requires Fits(order, g.capacity) && NoDirtyEviction(g, order, ops) && q in DirtyPages(g, ops)
    ensures q in Run(order, Trace(g, ops), g.capacity)
  {
    hide Survives, SurvivesFrom, Safe, TraceOf, Run;
    var front, op := ops[..|ops| - 1], ops[|ops| - 1];
    var trace, before := TraceOf(g, op), Run(order, Trace(g, front), g.capacity);
    RunFits(order, Trace(g, front), g.capacity);
    RunConcat(order, Trace(g, front), trace, g.capacity);
    if op.Write? && q in trace {
      SafeSurvivesFrom(before, DirtyPages(g, front), trace, g.capacity, q);
      SurvivesFromRun(before, trace, q, g.capacity);
    } else {
      DirtyCached(g, order, front, q);
      SafeSurvives(before, DirtyPages(g, front), trace, op.Write?, g.capacity, q);
      SurvivesRun(before, trace, q, g.capacity);
    }
  }

  /** Page `p` has one of the bytes. */
  predicate Meets(g: Geometry, at: set<nat>, p: nat) {
    exists i :: i in at && i / g.pageSize == p
  }

  /** An operation writes in a page exactly when it is a write that touches the page. */
  lemma WrittenPages(g: Geometry, op: Op, p: nat)
    ensures Meets(g, Written(g, op), p) <==> op.Write? && p in TraceOf(g, op)
  {
    hide Span;
    if op.Write? && InRange(op.offset, |op.data|, g.size) {
      var Write(offset, data) := op;
      if data == [] {
        NoSpan(g, offset);
        return;
      }
      AccessCount(g, offset, |data|);
      if Meets(g, Written(g, op), p) {
        var i :| i in Written(g, op) && i / g.pageSize == p;
        assert Writes(g, op, i);
      }
      if p in TraceOf(g, op) {
        var i :| offset <= i < offset + |data| && i / g.pageSize == p;
        assert Writes(g, op, i);
        assert i in Written(g, op);
      }
    }
  }

  lemma NoSpan(g: Geometry, offset: nat)
    ensures Span(g, offset, 0) == []
  {
  }

  lemma MeetsEither(g: Geometry, a: set<nat>, b: set<nat>, p: nat)
    ensures Meets(g, a + b, p) <==> Meets(g, a, p) || Meets(g, b, p)
  {
    if Meets(g, a, p) {
      var i :| i in a && i / g.pageSize == p;
      assert i in a + b;
    }
    if Meets(g, b, p) {
      var i :| i in b && i / g.pageSize == p;
      assert i in a + b;
    }
  }

  /** The dirty pages are the pages of the unsaved bytes. */
  lemma {:induction false} UnsavedPages(g: Geometry, ops: seq<Op>, p: nat)
    ensures Meets(g, Unsaved(g, ops), p) <==> p in DirtyPages(g, ops)
  {
    hide Written, TraceOf, Meets;
    if ops == [] {
      NoneMet(g, p);
    } else {
      var front, op := ops[..|ops| - 1], ops[|ops| - 1];
      NoneMet(g, p);
      UnsavedPages(g, front, p);
      WrittenPages(g, op, p);
      MeetsEither(g, Unsaved(g, front), Written(g, op), p);
    }
  }

  lemma NoneMet(g: Geometry, p: nat)
    ensures !Meets(g, {}, p)
  {
  }

  /** A run that evicts no dirty page loses no byte. */
  lemma {:induction false} NoByteLostThen(g: Geometry, order: seq<nat>, ops: seq<Op>)
    requires Fits(order, g.capacity) && NoDirtyEviction(g, order, ops)
    ensures NoByteLost(g, order, ops)
  {
    hide Survives, SurvivesFrom, Safe, TraceOf, Run, Kept, DirtyPages, Unsaved;
    if ops != [] {
      var front, op := ops[..|ops| - 1], ops[|ops| - 1];
      NoByteLostThen(g, order, front);
      SafeKeeps(g, order, front, op);
    }
  }

  lemma SafeKeeps(g: Geometry, order: seq<nat>, front: seq<Op>, op: Op)
    requires Fits(order, g.capacity) && NoDirtyEviction(g, order, front)
    requires Safe(Run(order, Trace(g, front), g.capacity), DirtyPages(g, front), TraceOf(g, op), op.Write?, g.capacity)
    ensures Kept(g, Run(order, Trace(g, front), g.capacity), Unsaved(g, front), op)
  {
    hide Survives, SurvivesFrom, Safe, TraceOf, Run, DirtyPages, Unsaved, NoDirtyEviction, Written;
    var trace, before := TraceOf(g, op), Run(order, Trace(g, front), g.capacity);
    RunFits(order, Trace(g, front), g.capacity);
    forall i | i in Unsaved(g, front) - Written(g, op) ensures Stays(g, before, trace, i) {
      assert Meets(g, Unsaved(g, front), i / g.pageSize);
      UnsavedPages(g, front, i / g.pageSize);
      DirtyCached(g, order, front, i / g.pageSize);
      SafeSurvives(before, DirtyPages(g, front), trace, op.Write?, g.capacity, i / g.pageSize);
    }
    forall i | i in Written(g, op) ensures StaysFrom(g, before, trace, i) {
      assert Meets(g, Written(g, op), i / g.pageSize);
      WrittenPages(g, op, i / g.pageSize);
      SafeSurvivesFrom(before, DirtyPages(g, front), trace, g.capacity, i / g.pageSize);
    }
  }

  /** A run that evicts no dirty page gives every reply that the plain array gives, and shows readers
      the bytes of that array. */
  lemma CleanRun(g: Geometry, s: Cache, ops: seq<Op>)
    requires Coherent(g, s) && s.dirty == {} && NoDirtyEviction(g, s.order, ops)
    ensures g.size <= |s.remote|
    ensures var (after, replies) := Execute(g, s, ops);
            (View(g, after), replies) == ExecuteFlat(g.size, s.remote, ops)
  {
    hide View, Execute, ExecuteFlat, NoByteLost, NoDirtyEviction, Sound, PageCoherent;
    NothingUnsaved(g, s);
    NoByteLostThen(g, s.order, ops);
    NothingLost(g, s, ops);
  }

  // ---- The same run, one page at a time ----

  function PagedRead(g: Geometry, offset: nat, length: nat): seq<Op>
    decreases length
  {
    if length == 0 then []
    else
      var n := Chunk(g, offset, length);
      [Read(offset, n)] + PagedRead(g, offset + n, length - n)
  }

  function PagedWrite(g: Geometry, offset: nat, data: bytes): seq<Op>
    decreases |data|
  {
    if data == [] then []
    else
      var n := Chunk(g, offset, |data|);
      [Write(offset, data[..n])] + PagedWrite(g, offset + n, data[n..])
  }

  function PagedOp(g: Geometry, op: Op): seq<Op> {
    match op
    case Read(offset, length) => if InRange(offset, length, g.size) then PagedRead(g, offset, length) else []
    case Write(offset, data) => if InRange(offset, |data|, g.size) then PagedWrite(g, offset, data) else []
    case FlushAll => [FlushAll]
  }

  /** The run with every access cut at the page boundaries. */
  function Paged(g: Geometry, ops: seq<Op>): seq<Op> {
    if ops == [] then [] else Paged(g, ops[..|ops| - 1]) + PagedOp(g, ops[|ops| - 1])
  }

  lemma ChunkAlone(g: Geometry, offset: nat, length: nat)
    requires length > 0
    ensures var n := Chunk(g, offset, length);
            Chunk(g, offset, n) == n && Span(g, offset, n) == [offset / g.pageSize]
  {
    hide Span;
    var n := Chunk(g, offset, length);
    SpanSplit(g, offset, n);
    NoSpan(g, offset + n);
    assert [offset / g.pageSize] + [] == [offset / g.pageSize];
  }

  lemma {:induction false} PagedReadRun(g: Geometry, s: Cache, offset: nat, length: nat)
    requires Coherent(g, s) && offset + length <= g.size
    ensures Execute(g, s, PagedRead(g, offset, length)).0 == ReadFrom(g, s, offset, length).0
    decreases length
  {
    hide Coherent, Load, Chunk, Execute;
    if length == 0 {
      assert Execute(g, s, []).0 == s by { ExecuteNothing(g, s); }
    } else {
      var n := Chunk(g, offset, length);
      var rest := PagedRead(g, offset + n, length - n);
      OneChunkRead(g, s, offset, length);
      var loaded := ReadChunk(g, s, offset, length).0;
      ExecuteOne(g, s, Read(offset, n));
      ExecuteConcat(g, s, [Read(offset, n)], rest);
      PagedReadRun(g, loaded, offset + n, length - n);
    }
  }

  lemma OneChunkRead(g: Geometry, s: Cache, offset: nat, length: nat)
    requires Coherent(g, s) && 0 < length && offset + length <= g.size
    ensures var n := Chunk(g, offset, length);
            ReadFrom(g, s, offset, n).0 == ReadChunk(g, s, offset, length).0
  {
    hide Coherent, Load, Chunk, ReadChunk;
    var n := Chunk(g, offset, length);
    ChunkAlone(g, offset, length);
    ReadChunkIs(g, s, offset, n);
    ReadChunkIs(g, s, offset, length);
  }

  lemma OneChunkWrite(g: Geometry, s: Cache, offset: nat, data: bytes)
    requires Coherent(g, s) && data != [] && offset + |data| <= g.size
    ensures var n := Chunk(g, offset, |data|);
            WriteFrom(g, s, offset, data[..n]) == WriteChunk(g, s, offset, data)
  {
    hide Coherent, Load, Chunk, WriteChunk, Put;
    var n := Chunk(g, offset, |data|);
    ChunkAlone(g, offset, |data|);
    WriteChunkIs(g, s, offset, data[..n]);
    WriteChunkIs(g, s, offset, data);
    assert data[..n][..n] == data[..n] && data[..n][n..] == [];
  }

  lemma {:induction false} PagedWriteRun(g: Geometry, s: Cache, offset: nat, data: bytes)
    requires Coherent(g, s) && offset + |data| <= g.size
    ensures Execute(g, s, PagedWrite(g, offset, data)).0 == WriteFrom(g, s, offset, data)
    decreases |data|
  {
    hide Coherent, Load, Chunk, Execute, WriteChunk;
    if data == [] {
      ExecuteNothing(g, s);
    } else {
      var n := Chunk(g, offset, |data|);
      var rest := PagedWrite(g, offset + n, data[n..]);
      OneChunkWrite(g, s, offset, data);
      ExecuteOne(g, s, Write(offset, data[..n]));
      ExecuteConcat(g, s, [Write(offset, data[..n])], rest);
      PagedWriteRun(g, WriteChunk(g, s, offset, data), offset + n, data[n..]);
    }
  }

  /** Cutting the accesses leaves the cache in the same state. */
  lemma {:induction false} PagedRun(g: Geometry, s: Cache, ops: seq<Op>)
    requires Coherent(g, s)
    ensures Execute(g, s, Paged(g, ops)).0 == Execute(g, s, ops).0
  {
    hide Coherent, View, PagedRead, PagedWrite, ReadFrom, WriteFrom, Flush;
    if ops != [] {
      var front, op := ops[..|ops| - 1], ops[|ops| - 1];
      var before := Execute(g, s, front).0;
      PagedRun(g, s, front);
      ExecuteConcat(g, s, Paged(g, front), PagedOp(g, op));
      ExecuteNothing(g, before);
      match op
      case Read(offset, length) => if InRange(offset, length, g.size) { PagedReadRun(g, before, offset, length); }
      case Write(offset, data) => if InRange(offset, |data|, g.size) { PagedWriteRun(g, before, offset, data); }
      case FlushAll => ExecuteOne(g, before, FlushAll);
    }
  }

  // ---- Cutting changes neither the touches nor what they evict ----

  /** `after` touches `trace` once `before` is done, reading or writing, and nothing else. */
  predicate Extends(g: Geometry, order: seq<nat>, before: seq<Op>, after: seq<Op>, trace: seq<nat>, writing: bool) {
    && Trace(g, after) == Trace(g, before) + trace
    && DirtyPages(g, after) == DirtyPages(g, before) + (if writing then Elems(trace) else {})
    && (NoDirtyEviction(g, order, after) <==>
        && NoDirtyEviction(g, order, before)
        && Safe(Run(order, Trace(g, before), g.capacity), DirtyPages(g, before), trace, writing, g.capacity))
  }

  lemma ExtendNothing(g: Geometry, order: seq<nat>, before: seq<Op>, writing: bool)
    ensures Extends(g, order, before, before, [], writing)
  {
    assert Trace(g, before) + [] == Trace(g, before);
    assert DirtyPages(g, before) + Elems([]) == DirtyPages(g, before);
  }

  lemma ExtendOne(g: Geometry, order: seq<nat>, before: seq<Op>, op: Op, trace: seq<nat>)
    requires !op.FlushAll? && TraceOf(g, op) == trace
    ensures Extends(g, order, before, before + [op], trace, op.Write?)
  {
    hide TraceOf, Safe, Run;
    assert (before + [op])[..|before|] == before;
  }

  lemma SafeStep(order: seq<nat>, dirty: set<nat>, p: nat, rest: seq<nat>, writing: bool, cap: pos)
    ensures Safe(order, dirty, [p] + rest, writing, cap) <==>
            && (p !in order && |order| >= cap ==> order[0] !in dirty)
            && Safe(Touch(order, p, cap), if writing then dirty + {p} else dirty, rest, writing, cap)
  {
    hide Touch;
    assert ([p] + rest)[1..] == rest;
  }

  lemma ExtendTwice(g: Geometry, order: seq<nat>, a: seq<Op>, b: seq<Op>, c: seq<Op>, p: nat, rest: seq<nat>,
                    writing: bool)
    requires Extends(g, order, a, b, [p], writing) && Extends(g, order, b, c, rest, writing)
    ensures Extends(g, order, a, c, [p] + rest, writing)
  {
    hide Run, Touch, NoDirtyEviction, Trace, DirtyPages, Safe, Elems;
    var before := Run(order, Trace(g, a), g.capacity);
    var dirty := if writing then DirtyPages(g, a) + {p} else DirtyPages(g, a);
    OneMore(p, rest);
    assert Trace(g, a) + [p] + rest == Trace(g, a) + ([p] + rest);
    RunConcat(order, Trace(g, a), [p], g.capacity);
    RunStep(before, p, [], g.capacity);
    RunNothing(Touch(before, p, g.capacity), g.capacity);
    SafeStep(before, DirtyPages(g, a), p, [], writing, g.capacity);
    SafeNothing(Touch(before, p, g.capacity), dirty, writing, g.capacity);
    SafeStep(before, DirtyPages(g, a), p, rest, writing, g.capacity);
  }

  lemma OneMore(p: nat, rest: seq<nat>)
    ensures [p] + [] == [p] && Elems([p]) == {p} && Elems([p] + rest) == {p} + Elems(rest)
  {
  }

  lemma SafeNothing(order: seq<nat>, dirty: set<nat>, writing: bool, cap: pos)
    ensures Safe(order, dirty, [], writing, cap)
  {
  }

  lemma RunNothing(order: seq<nat>, cap: pos)
    ensures Run(order, [], cap) == order
  {
  }

  lemma {:induction false} PagedReadExtends(g: Geometry, order: seq<nat>, before: seq<Op>, offset: nat, length: nat)
    requires offset + length <= g.size
    ensures Extends(g, order, before, before + PagedRead(g, offset, length), Span(g, offset, length), false)
    decreases length
  {
    hide Extends, Span, Chunk;
    if length == 0 {
      NoSpan(g, offset);
      ExtendNothing(g, order, before, false);
      assert before + [] == before;
    } else {
      var n := Chunk(g, offset, length);
      var one := before + [Read(offset, n)];
      ChunkAlone(g, offset, length);
      ExtendOne(g, order, before, Read(offset, n), [offset / g.pageSize]);
      PagedReadExtends(g, order, one, offset + n, length - n);
      SpanSplit(g, offset, length);
      var rest := PagedRead(g, offset + n, length - n);
      assert before + ([Read(offset, n)] + rest) == one + rest;
      ExtendTwice(g, order, before, one, one + rest, offset / g.pageSize, Span(g, offset + n, length - n), false);
    }
  }

  lemma {:induction false} PagedWriteExtends(g: Geometry, order: seq<nat>, before: seq<Op>, offset: nat, data: bytes)
    requires offset + |data| <= g.size
    ensures Extends(g, order, before, before + PagedWrite(g, offset, data), Span(g, offset, |data|), true)
    decreases |data|
  {
    hide Extends, Span, Chunk;
    if data == [] {
      NoSpan(g, offset);
      ExtendNothing(g, order, before, true);
      assert before + [] == before;
    } else {
      var n := Chunk(g, offset, |data|);
      var op := Write(offset, data[..n]);
      ChunkAlone(g, offset, |data|);
      ExtendOne(g, order, before, op, [offset / g.pageSize]);
      PagedWriteExtends(g, order, before + [op], offset + n, data[n..]);
      SpanSplit(g, offset, |data|);
      var rest := PagedWrite(g, offset + n, data[n..]);
      assert before + ([op] + rest) == before + [op] + rest;
      ExtendTwice(g, order, before, before + [op], before + [op] + rest, offset / g.pageSize,
                  Span(g, offset + n, |data| - n), true);
    }
  }

  lemma PagedOpExtends(g: Geometry, order: seq<nat>, before: seq<Op>, op: Op)
    requires !op.FlushAll?
    ensures Extends(g, order, before, before + PagedOp(g, op), TraceOf(g, op), op.Write?)
  {
    hide Extends, PagedRead, PagedWrite, Span;
    ExtendNothing(g, order, before, op.Write?);
    assert before + [] == before;
    match op
    case Read(offset, length) =>
      if InRange(offset, length, g.size) { PagedReadExtends(g, order, before, offset, length); }
    case Write(offset, data) =>
      if InRange(offset, |data|, g.size) { PagedWriteExtends(g, order, before, offset, data); }
  }

  lemma {:induction false} PagedSame(g: Geometry, order: seq<nat>, ops: seq<Op>)
    ensures Trace(g, Paged(g, ops)) == Trace(g, ops) && DirtyPages(g, Paged(g, ops)) == DirtyPages(g, ops)
    ensures NoDirtyEviction(g, order, Paged(g, ops)) <==> NoDirtyEviction(g, order, ops)
  {
    hide PagedRead, PagedWrite, Run, Safe, Span, Elems;
    if ops != [] {
      var front, op := ops[..|ops| - 1], ops[|ops| - 1];
      var before := Paged(g, front);
      PagedSame(g, order, front);
      assert front + [op] == ops;
      if op.FlushAll? {
        assert Paged(g, ops)[..|before|] == before;
        return;
      }
      ExtendOne(g, order, front, op, TraceOf(g, op));
      PagedOpExtends(g, order, before, op);
    }
  }

  // ---- Exactly which runs evict no dirty page ----

  predicate OnePageEach(g: Geometry, ops: seq<Op>) {
    forall k :: 0 <= k < |ops| ==> |TraceOf(g, ops[k])| <= 1
  }

  lemma {:induction false} PagedReadOnce(g: Geometry, offset: nat, length: nat)
    ensures OnePageEach(g, PagedRead(g, offset, length))
    decreases length
  {
    hide Span, Chunk;
    if length > 0 {
      var n := Chunk(g, offset, length);
      ChunkAlone(g, offset, length);
      PagedReadOnce(g, offset + n, length - n);
    }
  }

  lemma {:induction false} PagedWriteOnce(g: Geometry, offset: nat, data: bytes)
    ensures OnePageEach(g, PagedWrite(g, offset, data))
    decreases |data|
  {
    hide Span, Chunk;
    if data != [] {
      var n := Chunk(g, offset, |data|);
      ChunkAlone(g, offset, |data|);
      PagedWriteOnce(g, offset + n, data[n..]);
    }
  }

  lemma {:induction false} PagedOnce(g: Geometry, ops: seq<Op>)
    ensures OnePageEach(g, Paged(g, ops))
  {
    hide PagedRead, PagedWrite, Span;
    if ops != [] {
      PagedOnce(g, ops[..|ops| - 1]);
      match ops[|ops| - 1]
      case Read(offset, length) => if InRange(offset, length, g.size) { PagedReadOnce(g, offset, length); }
      case Write(offset, data) => if InRange(offset, |data|, g.size) { PagedWriteOnce(g, offset, data); }
      case FlushAll =>
    }
  }

  /** Evicting a dirty page in an operation on one page loses the unsaved bytes of that page. */
  lemma OnePageKept(g: Geometry, order: seq<nat>, front: seq<Op>, op: Op)
    requires Fits(order, g.capacity) && |TraceOf(g, op)| <= 1 && Kept(g, order, Unsaved(g, front), op)
    ensures Safe(order, DirtyPages(g, front), TraceOf(g, op), op.Write?, g.capacity)
  {
    hide TraceOf, Touch, Written, Unsaved, DirtyPages;
    var trace := TraceOf(g, op);
    if trace != [] && trace[0] !in order && |order| >= g.capacity && order[0] in DirtyPages(g, front) {
      var victim := order[0];
      UnsavedPages(g, front, victim);
      var i :| i in Unsaved(g, front) && i / g.pageSize == victim;
      WrittenPages(g, op, victim);
      assert i in Written(g, op) ==> Meets(g, Written(g, op), victim);
      assert Stays(g, order, trace, i);
      SurvivesNow(Touch(order, trace[0], g.capacity), trace[1..], victim, g.capacity);
      TouchKeeps(order, trace[0], victim, g.capacity);
    }
  }

  lemma {:induction false} OnePageRun(g: Geometry, order: seq<nat>, ops: seq<Op>)
    requires Fits(order, g.capacity) && OnePageEach(g, ops) && NoByteLost(g, order, ops)
    ensures NoDirtyEviction(g, order, ops)
  {
    hide TraceOf, Run, Kept, Safe, Unsaved, DirtyPages;
    if ops != [] {
      var front, op := ops[..|ops| - 1], ops[|ops| - 1];
      OnePageRun(g, order, front);
      RunFits(order, Trace(g, front), g.capacity);
      OnePageKept(g, Run(order, Trace(g, front), g.capacity), front, op);
    }
  }

  /** A run evicts no dirty page exactly when, cut at the page boundaries, it loses no byte at any
      point. */
  lemma NoDirtyEvictionIff(g: Geometry, order: seq<nat>, ops: seq<Op>)
    requires Fits(order, g.capacity)
    ensures NoDirtyEviction(g, order, ops) <==> NoByteLost(g, order, Paged(g, ops))
  {
    hide NoDirtyEviction, NoByteLost, Paged, OnePageEach;
    PagedSame(g, order, ops);
    PagedOnce(g, ops);
    if NoByteLost(g, order, Paged(g, ops)) {
      OnePageRun(g, order, Paged(g, ops));
    }
    if NoDirtyEviction(g, order, ops) {
      NoByteLostThen(g, order, Paged(g, ops));
    }
  }

  /** Once a run that loses no byte is flushed, the remote side holds exactly the array's bytes. */
  lemma FlushedRun(g: Geometry, s: Cache, ops: seq<Op>)
    requires Coherent(g, s) && s.dirty == {} && NoByteLost(g, s.order, ops)
    ensures g.size <= |s.remote|
    ensures Execute(g, s, ops + [FlushAll]).0.remote == ExecuteFlat(g.size, s.remote, ops).0
  {
    hide View, NoByteLost, Execute, ExecuteFlat, Sound, PageCoherent;
    NothingUnsaved(g, s);
    NothingLost(g, s, ops);
    ExecuteLast(g, s, ops, FlushAll);
  }
}
