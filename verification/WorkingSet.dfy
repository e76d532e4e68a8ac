/** Working sets that fit the cache, and why the bound is tight. */
module WorkingSet {
  import opened Bytes
  import opened Lru
  import opened LruBounds
  import opened PageCacheSpec
  import opened PageCacheOps
  import opened CacheRuns
  import opened LostBytes
  import opened DirtyEviction

  /** Pages touched since the last flush, or since construction. */
  function RecentPages(g: Geometry, ops: seq<Op>): set<nat> {
    if ops == [] || ops[|ops| - 1].FlushAll? then {}
    else RecentPages(g, ops[..|ops| - 1]) + Elems(TraceOf(g, ops[|ops| - 1]))
  }

  /** At no point have more pages been touched since the last flush than the cache holds. */
  predicate WorkingSetFits(g: Geometry, ops: seq<Op>) {
    ops == [] || (WorkingSetFits(g, ops[..|ops| - 1]) && |RecentPages(g, ops)| <= g.capacity)
  }

  lemma NothingRecent(order: seq<nat>, recent: set<nat>)
    ensures Recent(order, {}) && recent + Elems([]) == recent
  {
    assert order[|order|..] == [];
  }

  /** While the pages touched recently fit the cache, touching them evicts none of them. */
  lemma {:induction false} FittingTrace(order: seq<nat>, recent: set<nat>, dirty: set<nat>, trace: seq<nat>,
                                        writing: bool, cap: pos)
    requires Fits(order, cap) && Recent(order, recent) && dirty <= recent && |recent + Elems(trace)| <= cap
    ensures Safe(order, dirty, trace, writing, cap)
    ensures Recent(Run(order, trace, cap), recent + Elems(trace))
    decreases |trace|
  {
    hide Touch, Recent;
    if trace == [] {
      NothingRecent(order, recent);
      RunNothing(order, cap);
    } else {
      var p, rest := trace[0], trace[1..];
      assert trace == [p] + rest;
      assert recent + Elems(trace) == recent + {p} + Elems(rest);
      SubsetSize(recent + {p}, recent + Elems(trace));
      TouchRecent(order, recent, p, cap);
      TouchFits(order, p, cap);
      FittingTrace(Touch(order, p, cap), recent + {p}, if writing then dirty + {p} else dirty, rest, writing, cap);
      RunStep(order, p, rest, cap);
    }
  }

  lemma {:induction false} FittingRun(g: Geometry, order: seq<nat>, ops: seq<Op>)
    requires Fits(order, g.capacity) && WorkingSetFits(g, ops)
    ensures NoDirtyEviction(g, order, ops) && DirtyPages(g, ops) <= RecentPages(g, ops)
    ensures Recent(Run(order, Trace(g, ops), g.capacity), RecentPages(g, ops))
  {
    hide TraceOf, Run, Safe, Recent;
    if ops == [] {
      NothingRecent(order, {});
      RunNothing(order, g.capacity);
    } else {
      var front, op := ops[..|ops| - 1], ops[|ops| - 1];
      var before := Run(order, Trace(g, front), g.capacity);
      FittingRun(g, order, front);
      RunFits(order, Trace(g, front), g.capacity);
      RunConcat(order, Trace(g, front), TraceOf(g, op), g.capacity);
      if op.FlushAll? {
        FlushTouches(g, op);
        NothingRecent(Run(order, Trace(g, ops), g.capacity), {});
      } else {
        FittingTrace(before, RecentPages(g, front), DirtyPages(g, front), TraceOf(g, op), op.Write?, g.capacity);
      }
    }
  }

  lemma FlushTouches(g: Geometry, op: Op)
    ensures op.FlushAll? ==> TraceOf(g, op) == [] && forall order, dirty, cap: pos :: Safe(order, dirty, [], false, cap)
  {
  }

  /** Working-set transparency. While no more pages are touched between two flushes than the cache
      holds, the cache evicts no dirty page and answers every operation as the plain byte array does. */
  lemma WorkingSetTransparency(g: Geometry, s: Cache, ops: seq<Op>)
    requires Coherent(g, s) && s.dirty == {} && WorkingSetFits(g, ops)
    ensures g.size <= |s.remote| && NoDirtyEviction(g, s.order, ops)
    ensures var (after, replies) := Execute(g, s, ops);
            (View(g, after), replies) == ExecuteFlat(g.size, s.remote, ops)
  {
    hide View, Execute, ExecuteFlat, WorkingSetFits, NoDirtyEviction, PageCoherent;
    FittingRun(g, s.order, ops);
    CleanRun(g, s, ops);
  }

  // ---- The bound is tight: one more page loses a write, for every cache size ----

  /** Write the first byte, then read the first byte of each of the pages 1, 2, ... n. */
  function WriteThenSweep(g: Geometry, b: byte, n: nat): seq<Op> {
    if n == 0 then [Write(0, [b])] else WriteThenSweep(g, b, n - 1) + [Read(g.Base(n), 1)]
  }

  lemma ReadOneByte(g: Geometry, s: Cache, p: nat)
    requires Coherent(g, s) && g.Holds(p)
    ensures Coherent(g, Load(g, s, p)) && p in Load(g, s, p).pages && |Load(g, s, p).pages[p]| > 0
    ensures Apply(g, s, Read(g.Base(p), 1)) == (Load(g, s, p), Data([Load(g, s, p).pages[p][0]]))
  {
    hide Load, Coherent, Touch, Slice, ReadChunk, Geometry.Len;
    InPage(g, p, 0);
    ReadChunkIs(g, s, g.Base(p), 1);
    LoadCoherent(g, s, p);
    var (loaded, out) := ReadChunk(g, s, g.Base(p), 1);
    assert out == [loaded.pages[p][0]] && out + [] == out;
    assert ReadFrom(g, s, g.Base(p), 1) == (loaded, out);
  }

  lemma FirstLoad(g: Geometry, s: Cache)
    requires Coherent(g, s) && s.order == [] && g.size > 0
    ensures g.Holds(0) && Coherent(g, Load(g, s, 0))
    ensures var r := Load(g, s, 0); r.order == [0] && r.dirty == {} && r.remote == s.remote && 0 in r.pages
    ensures |Load(g, s, 0).pages[0]| > 0
  {
    hide Load, Span;
    assert Elems(s.order) == {};
    LoadCoherent(g, s, 0);
    PageView(g, Load(g, s, 0), 0);
  }

  lemma FirstWrite(g: Geometry, s: Cache, b: byte)
    requires Coherent(g, s) && s.order == [] && g.size > 0
    ensures var r := WriteFrom(g, s, 0, [b]);
            && r.order == [0] && r.dirty == {0} && r.remote == s.remote
            && 0 in r.pages && |r.pages[0]| > 0 && r.pages[0][0] == b
  {
    hide Load, Coherent, Touch;
    FirstLoad(g, s);
    InPage(g, 0, 0);
    ChunkInPage(g, 0, 1);
    assert [b][..1] == [b];
    assert WriteChunk(g, s, 0, [b]) == Put(Load(g, s, 0), 0, 0, [b]);
  }

  /** Page 0 is dirty and oldest, and pages 1 to `n` follow it. */
  predicate Swept(s: Cache, remote: bytes, b: byte, n: nat) {
    && s.order == seq(n + 1, k requires k >= 0 => k)
    && s.dirty == {0} && s.remote == remote
    && 0 in s.pages && |s.pages[0]| > 0 && s.pages[0][0] == b
  }

  lemma HoldsBelow(g: Geometry, p: nat, q: nat)
    requires p <= q && g.Holds(q)
    ensures g.Holds(p)
  {
    TimesMonotone(p, q, g.pageSize);
  }

  lemma LoadSwept(g: Geometry, s: Cache, remote: bytes, b: byte, n: nat)
    requires Coherent(g, s) && Swept(s, remote, b, n) && n + 1 < g.capacity && g.Holds(n + 1)
    ensures Swept(Load(g, s, n + 1), remote, b, n + 1)
  {
    assert n + 1 !in Elems(s.order);
    LoadCoherent(g, s, n + 1);
  }

  lemma ReadSwept(g: Geometry, s: Cache, remote: bytes, b: byte, n: nat)
    requires Coherent(g, s) && Swept(s, remote, b, n) && n + 1 < g.capacity && g.Holds(n + 1)
    ensures Swept(Apply(g, s, Read(g.Base(n + 1), 1)).0, remote, b, n + 1)
  {
    hide Coherent, Load, Apply, Swept;
    LoadSwept(g, s, remote, b, n);
    ReadOneByte(g, s, n + 1);
  }

  lemma {:induction false} SweepState(g: Geometry, s: Cache, remote: bytes, b: byte, n: nat)
    requires Coherent(g, s) && s == Fresh(remote) && n < g.capacity && g.Holds(g.capacity)
    ensures Swept(Execute(g, s, WriteThenSweep(g, b, n)).0, remote, b, n)
  {
    hide Coherent, Apply, Execute, Swept, Fresh;
    HoldsBelow(g, n, g.capacity);
    if n == 0 {
      AfterWrite(g, s, remote, b);
    } else {
      SweepState(g, s, remote, b, n - 1);
      ReadSwept(g, Execute(g, s, WriteThenSweep(g, b, n - 1)).0, remote, b, n - 1);
      ExecuteLast(g, s, WriteThenSweep(g, b, n - 1), Read(g.Base(n), 1));
    }
  }

  lemma AfterWrite(g: Geometry, s: Cache, remote: bytes, b: byte)
    requires Coherent(g, s) && s == Fresh(remote) && g.Holds(0)
    ensures Swept(Execute(g, s, [Write(0, [b])]).0, remote, b, 0)
  {
    hide Coherent, WriteFrom;
    FirstWrite(g, s, b);
    ExecuteLast(g, s, [], Write(0, [b]));
    assert [] + [Write(0, [b])] == [Write(0, [b])];
  }

  /** Loading a page that pushes the dirty page 0 out, and reading page 0 again, shows the remote byte. */
  lemma DirtyPageLost(g: Geometry, s: Cache, remote: bytes, b: byte)
    requires Coherent(g, s) && Swept(s, remote, b, g.capacity - 1) && g.Holds(g.capacity) && g.Holds(0)
    ensures var lost := Load(g, s, g.capacity);
            && Coherent(g, lost)
            && 0 in Load(g, lost, 0).pages && |remote| > 0
            && |Load(g, lost, 0).pages[0]| > 0 && Load(g, lost, 0).pages[0][0] == remote[0]
  {
    var lost := Load(g, s, g.capacity);
    assert g.capacity !in Elems(s.order);
    assert s.order[0] == 0;
    LoadEffect(g, s, g.capacity);
    LoadCoherent(g, s, g.capacity);
    assert 0 !in lost.pages;
    assert g.Base(0) == 0;
  }

  /** The bound is tight. Whatever the page size and the capacity, a memory of more than `capacity`
      pages has a run that touches one page more than the cache holds and reads back a byte that
      was overwritten. */
  lemma {:induction false} WorkingSetTight(g: Geometry, remote: bytes, b: byte)
    requires g.size <= |remote| && g.Holds(g.capacity) && b != remote[0]
    ensures Coherent(g, Fresh(remote))
    ensures var ops := WriteThenSweep(g, b, g.capacity) + [Read(0, 1)];
            && RecentPages(g, ops) == UpTo(g.capacity)
            && Execute(g, Fresh(remote), ops).1[|ops| - 1] == Data([remote[0]])
            && ExecuteFlat(g.size, remote, ops).1[|ops| - 1] == Data([b])
  {
    hide Coherent, ReadFrom, WriteFrom, View, Load, Apply, Execute, Swept, Fresh;
    FreshCoherent(g, remote);
    var most := WriteThenSweep(g, b, g.capacity - 1);
    var all := WriteThenSweep(g, b, g.capacity);
    HoldsBelow(g, 0, g.capacity);
    SweepState(g, Fresh(remote), remote, b, g.capacity - 1);
    var s := Execute(g, Fresh(remote), most).0;
    DirtyPageLost(g, s, remote, b);
    ReadOneByte(g, s, g.capacity);
    ExecuteLast(g, Fresh(remote), most, Read(g.Base(g.capacity), 1));
    ReadOneByte(g, Load(g, s, g.capacity), 0);
    ExecuteLast(g, Fresh(remote), all, Read(0, 1));
    SweptPages(g, b, g.capacity);
    SweptFlat(g, remote, b, g.capacity);
  }

  function UpTo(n: nat): set<nat> {
    if n == 0 then {0} else UpTo(n - 1) + {n}
  }

  lemma {:induction false} SweptPages(g: Geometry, b: byte, n: nat)
    requires g.Holds(n)
    ensures RecentPages(g, WriteThenSweep(g, b, n)) == UpTo(n)
    ensures RecentPages(g, WriteThenSweep(g, b, n) + [Read(0, 1)]) == UpTo(n)
  {
    hide Span;
    HoldsBelow(g, 0, n);
    OnePage(g, 0);
    OnePage(g, n);
    var ops := WriteThenSweep(g, b, n);
    if n == 0 {
      assert ops[..0] == [];
    } else {
      HoldsBelow(g, n - 1, n);
      SweptPages(g, b, n - 1);
      assert ops[..|ops| - 1] == WriteThenSweep(g, b, n - 1);
    }
    assert (ops + [Read(0, 1)])[..|ops|] == ops;
  }

  lemma OnePage(g: Geometry, p: nat)
    requires g.Holds(p)
    ensures Elems(Span(g, g.Base(p), 1)) == {p}
    ensures g.Base(0) == 0
  {
    InPage(g, p, 0);
    assert Span(g, g.Base(p), 1) == [p];
  }

  lemma {:induction false} SweptFlat(g: Geometry, remote: bytes, b: byte, n: nat)
    requires 0 < g.size <= |remote|
    ensures ExecuteFlat(g.size, remote, WriteThenSweep(g, b, n)).0 == remote[0 := b]
    ensures var ops := WriteThenSweep(g, b, n) + [Read(0, 1)];
            ExecuteFlat(g.size, remote, ops).1[|ops| - 1] == Data([b])
  {
    var ops := WriteThenSweep(g, b, n);
    if n == 0 {
      assert ops[..0] == [];
      assert Splice(remote, 0, [b]) == remote[0 := b];
    } else {
      SweptFlat(g, remote, b, n - 1);
      assert ops[..|ops| - 1] == WriteThenSweep(g, b, n - 1);
    }
    assert (ops + [Read(0, 1)])[..|ops|] == ops;
  }
}
