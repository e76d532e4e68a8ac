/** Bump-allocated regions over one cached memory, and the independent arrays they stand for. */
module RegionSpec {
  import opened Bytes
  import opened PageCacheSpec
  import opened PageCacheOps
  import opened CacheRuns
  import opened LostBytes
  import opened DirtyEviction
  import opened WorkingSet

  datatype Region = Region(offset: nat, size: nat, closed: bool)

  /** The cache, the next free offset, and the regions in the order of their allocation. */
  datatype Memory = Memory(cache: Cache, next: nat, regions: seq<Region>)

  datatype Call =
    | Allocate(size: int)
    | ReadAt(r: nat, offset: int, length: int)
    | WriteAt(r: nat, offset: int, data: bytes)
    | Fill(r: nat, value: int)
    | Close(r: nat)
    | FlushMemory
    | CloseMemory

  /** Regions lie one after the other from offset 0 up to `next`. */
  predicate Bumped(regions: seq<Region>, next: nat) {
    if regions == [] then next == 0
    else
      var last := regions[|regions| - 1];
      last.size > 0 && last.offset + last.size == next && Bumped(regions[..|regions| - 1], last.offset)
  }

  predicate Laid(g: Geometry, m: Memory) {
    Coherent(g, m.cache) && Bumped(m.regions, m.next) && m.next <= g.size
  }

  lemma {:induction false} BumpedRegion(regions: seq<Region>, next: nat, r: nat)
    requires Bumped(regions, next) && r < |regions|
    ensures regions[r].size > 0
    ensures regions[r].offset + regions[r].size <= next
    ensures forall q :: r < q < |regions| ==> regions[r].offset + regions[r].size <= regions[q].offset
    decreases |regions|
  {
    var n := |regions| - 1;
    if r < n {
      BumpedRegion(regions[..n], regions[n].offset, r);
    }
  }

  // ---- Filling a region, one transfer at a time ----

  function FillOps(offset: nat, left: nat, value: byte): seq<Op>
    decreases left
  {
    if left == 0 then []
    else
      var n := Min(left, MAX_TRANSFER);
      [Write(offset, Repeat(value, n))] + FillOps(offset + n, left - n, value)
  }

  lemma {:induction false} FillFlat(size: nat, v: bytes, offset: nat, left: nat, value: byte)
    requires offset + left <= size <= |v|
    ensures ExecuteFlat(size, v, FillOps(offset, left, value)).0 == Splice(v, offset, Repeat(value, left))
    decreases left
  {
    hide Splice, ExecuteFlat;
    if left == 0 {
      assert Repeat(value, 0) == [];
      SpliceNothing(v, offset);
      ExecuteFlatNothing(size, v);
    } else {
      var n := Min(left, MAX_TRANSFER);
      var op := Write(offset, Repeat(value, n));
      ExecuteFlatConcat(size, v, [op], FillOps(offset + n, left - n, value));
      ExecuteFlatOne(size, v, op);
      FillFlat(size, Splice(v, offset, op.data), offset + n, left - n, value);
      var all := Repeat(value, left);
      assert all[..n] == op.data && all[n..] == Repeat(value, left - n);
      SpliceInTwo(v, offset, all, n);
    }
  }

  // ---- One call on the memory ----

  predicate Open(regions: seq<Region>, r: nat) {
    r < |regions| && !regions[r].closed
  }

  function CloseAll(regions: seq<Region>): seq<Region> {
    seq(|regions|, i requires 0 <= i < |regions| => regions[i].(closed := true))
  }

  lemma {:induction false} BumpedClosed(regions: seq<Region>, next: nat)
    requires Bumped(regions, next)
    ensures Bumped(CloseAll(regions), next)
    ensures forall r :: 0 <= r < |regions| ==> Bumped(regions[r := regions[r].(closed := true)], next)
  {
    if regions != [] {
      var n := |regions| - 1;
      BumpedClosed(regions[..n], regions[n].offset);
      assert CloseAll(regions)[..n] == CloseAll(regions[..n]);
      forall r | 0 <= r < |regions| ensures Bumped(regions[r := regions[r].(closed := true)], next) {
        var changed := regions[r := regions[r].(closed := true)];
        if r < n {
          assert changed[..n] == regions[..n][r := regions[r].(closed := true)];
        } else {
          assert changed[..n] == regions[..n];
        }
      }
    }
  }

  function Perform(g: Geometry, m: Memory, call: Call): (r: (Memory, Reply))
    requires Laid(g, m)
    ensures Laid(g, r.0)
  {
    match call
    case Allocate(size) =>
      if size <= 0 || m.next + size > g.size then (m, Refused)
      else
        var regions := m.regions + [Region(m.next, size, false)];
        assert regions[..|m.regions|] == m.regions;
        (m.(next := m.next + size, regions := regions), Done)
    case ReadAt(r, offset, length) =>
      if Open(m.regions, r) && InRange(offset, length, m.regions[r].size) then
        BumpedRegion(m.regions, m.next, r);
        var (cache, reply) := Apply(g, m.cache, Read(m.regions[r].offset + offset, length));
        (m.(cache := cache), reply)
      else (m, Refused)
    case WriteAt(r, offset, data) =>
      if Open(m.regions, r) && InRange(offset, |data|, m.regions[r].size) then
        var (cache, reply) := Apply(g, m.cache, Write(m.regions[r].offset + offset, data));
        (m.(cache := cache), reply)
      else (m, Refused)
    case Fill(r, value) =>
      if Open(m.regions, r) && 0 <= value <= 255 then
        BumpedRegion(m.regions, m.next, r);
        (m.(cache := Execute(g, m.cache, FillOps(m.regions[r].offset, m.regions[r].size, value)).0), Done)
      else (m, Refused)
    case Close(r) =>
      BumpedClosed(m.regions, m.next);
      if r < |m.regions| then (m.(regions := m.regions[r := m.regions[r].(closed := true)]), Done)
      else (m, Refused)
    case FlushMemory =>
      (m.(cache := Apply(g, m.cache, FlushAll).0), Done)
    case CloseMemory =>
      BumpedClosed(m.regions, m.next);
      (m.(cache := Apply(g, m.cache, FlushAll).0, regions := CloseAll(m.regions)), Done)
  }

  // ---- The independent arrays ----

  datatype Array = Array(data: bytes, closed: bool)

  /** One array per region, and the bytes not allocated yet. */
  datatype Arrays = Arrays(arrays: seq<Array>, free: bytes)

  predicate OpenArray(arrays: seq<Array>, r: nat) {
    r < |arrays| && !arrays[r].closed
  }

  /** The same call on separate arrays: it can reach no array but the one it names. */
  function PerformArrays(a: Arrays, call: Call): (Arrays, Reply) {
    match call
    case Allocate(size) =>
      if size <= 0 || size > |a.free| then (a, Refused)
      else (Arrays(a.arrays + [Array(a.free[..size], false)], a.free[size..]), Done)
    case ReadAt(r, offset, length) =>
      if OpenArray(a.arrays, r) && InRange(offset, length, |a.arrays[r].data|) then
        (a, Data(Slice(a.arrays[r].data, offset, length)))
      else (a, Refused)
    case WriteAt(r, offset, data) =>
      if OpenArray(a.arrays, r) && InRange(offset, |data|, |a.arrays[r].data|) then
        (a.(arrays := a.arrays[r := a.arrays[r].(data := Splice(a.arrays[r].data, offset, data))]), Done)
      else (a, Refused)
    case Fill(r, value) =>
      if OpenArray(a.arrays, r) && 0 <= value <= 255 then
        (a.(arrays := a.arrays[r := a.arrays[r].(data := Repeat(value, |a.arrays[r].data|))]), Done)
      else (a, Refused)
    case Close(r) =>
      if r < |a.arrays| then (a.(arrays := a.arrays[r := a.arrays[r].(closed := true)]), Done) else (a, Refused)
    case FlushMemory => (a, Done)
    case CloseMemory =>
      (a.(arrays := seq(|a.arrays|, i requires 0 <= i < |a.arrays| => a.arrays[i].(closed := true))), Done)
  }

  /** The arrays that a reader of the regions sees in a flat memory. */
  function Cut(g: Geometry, m: Memory, v: bytes): (a: Arrays)
    requires Laid(g, m) && g.size <= |v|
    ensures |a.arrays| == |m.regions|
  {
    Arrays(seq(|m.regions|, i requires 0 <= i < |m.regions| && Laid(g, m) =>
                 BumpedRegion(m.regions, m.next, i);
                 Array(Slice(v, m.regions[i].offset, m.regions[i].size), m.regions[i].closed)),
           v[m.next..g.size])
  }

  // ---- Isolation ----

  /** Changing bytes of one region changes that array and no other. */
  lemma CutSplice(g: Geometry, m: Memory, v: bytes, r: nat, offset: nat, data: bytes)
    requires Laid(g, m) && g.size <= |v| && r < |m.regions| && offset + |data| <= m.regions[r].size
    ensures m.regions[r].offset + m.regions[r].size <= g.size
    ensures var a := Cut(g, m, v);
            && |a.arrays[r].data| == m.regions[r].size
            && Cut(g, m, Splice(v, m.regions[r].offset + offset, data))
               == a.(arrays := a.arrays[r := a.arrays[r].(data := Splice(a.arrays[r].data, offset, data))])
  {
    hide Coherent, Splice, Slice, Bumped;
    BumpedRegion(m.regions, m.next, r);
    var at := m.regions[r].offset + offset;
    var a, b := Cut(g, m, v), Cut(g, m, Splice(v, at, data));
    forall q | 0 <= q < |m.regions|
      ensures b.arrays[q] ==
              if q == r then a.arrays[r].(data := Splice(a.arrays[r].data, offset, data)) else a.arrays[q]
    {
      BumpedRegion(m.regions, m.next, q);
      if q == r {
        SliceAround(v, offset, data, m.regions[r].offset, m.regions[r].size);
      } else {
        SliceBeside(v, at, data, m.regions[q].offset, m.regions[q].size);
      }
    }
    SliceBeside(v, at, data, m.next, g.size - m.next);
    FreeSlice(g, m, v);
    FreeSlice(g, m, Splice(v, at, data));
  }

  lemma FreeSlice(g: Geometry, m: Memory, v: bytes)
    requires Laid(g, m) && g.size <= |v|
    ensures Cut(g, m, v).free == Slice(v, m.next, g.size - m.next)
  {
  }

  // ---- The cache operations behind a call ----

  function Lower(m: Memory, call: Call): seq<Op> {
    match call
    case ReadAt(r, offset, length) =>
      if Open(m.regions, r) && InRange(offset, length, m.regions[r].size) then
        [Read(m.regions[r].offset + offset, length)]
      else []
    case WriteAt(r, offset, data) =>
      if Open(m.regions, r) && InRange(offset, |data|, m.regions[r].size) then
        [Write(m.regions[r].offset + offset, data)]
      else []
    case Fill(r, value) =>
      if Open(m.regions, r) && 0 <= value <= 255 then FillOps(m.regions[r].offset, m.regions[r].size, value) else []
    case FlushMemory => [FlushAll]
    case CloseMemory => [FlushAll]
    case Allocate(_) => []
    case Close(_) => []
  }

  lemma Lowered(g: Geometry, m: Memory, call: Call)
    requires Laid(g, m)
    ensures Perform(g, m, call).0.cache == Execute(g, m.cache, Lower(m, call)).0
    ensures call.ReadAt? && Lower(m, call) != [] ==> Execute(g, m.cache, Lower(m, call)).1 == [Perform(g, m, call).1]
  {
    hide Coherent, Apply, Execute, Bumped;
    ExecuteNothing(g, m.cache);
    match call
    case ReadAt(r, offset, length) =>
      if Lower(m, call) != [] { ExecuteOne(g, m.cache, Read(m.regions[r].offset + offset, length)); }
    case WriteAt(r, offset, data) =>
      if Lower(m, call) != [] { ExecuteOne(g, m.cache, Write(m.regions[r].offset + offset, data)); }
    case Fill(_, _) =>
    case Allocate(_) =>
    case Close(_) =>
    case _ => ExecuteOne(g, m.cache, FlushAll);
  }

  // ---- A call on the plain array is a call on the separate arrays ----

  /** The arrays and the reply after a call, if the cache acts as the plain array `v`. */
  ghost predicate CutsTo(g: Geometry, m: Memory, v: bytes, call: Call)
    requires Laid(g, m) && g.size <= |v|
  {
    var after := Perform(g, m, call).0;
    var (w, replies) := ExecuteFlat(g.size, v, Lower(m, call));
    var (arrays, reply) := PerformArrays(Cut(g, m, v), call);
    && Cut(g, after, w) == arrays
    && (if call.ReadAt? && Lower(m, call) != [] then replies == [reply] else reply == Perform(g, m, call).1)
  }

  /** The arrays depend on the regions and the bytes, not on what the cache holds. */
  lemma SameCut(g: Geometry, m: Memory, n: Memory, v: bytes)
    requires Laid(g, m) && Laid(g, n) && g.size <= |v| && m.regions == n.regions && m.next == n.next
    ensures Cut(g, m, v) == Cut(g, n, v)
  {
    hide Coherent, Bumped, Slice;
    assert Cut(g, m, v).arrays == Cut(g, n, v).arrays;
  }

  lemma CutArray(g: Geometry, m: Memory, v: bytes, r: nat)
    requires Laid(g, m) && g.size <= |v| && r < |m.regions|
    ensures m.regions[r].offset + m.regions[r].size <= m.next
    ensures Cut(g, m, v).arrays[r] == Array(Slice(v, m.regions[r].offset, m.regions[r].size), m.regions[r].closed)
  {
    hide Coherent, Slice;
    BumpedRegion(m.regions, m.next, r);
  }

  lemma ReadCuts(g: Geometry, m: Memory, v: bytes, call: Call)
    requires Laid(g, m) && g.size <= |v| && call.ReadAt?
    ensures CutsTo(g, m, v, call)
  {
    hide Coherent, Bumped, Apply, ExecuteFlat, Cut, Slice;
    var ReadAt(r, offset, length) := call;
    ExecuteFlatNothing(g.size, v);
    SameCut(g, m, Perform(g, m, call).0, v);
    if r < |m.regions| {
      CutArray(g, m, v, r);
    }
    if Lower(m, call) != [] {
      ExecuteFlatOne(g.size, v, Read(m.regions[r].offset + offset, length));
      SliceOfSlice(v, m.regions[r].offset, m.regions[r].size, offset, length);
    }
  }

  lemma WriteCuts(g: Geometry, m: Memory, v: bytes, call: Call)
    requires Laid(g, m) && g.size <= |v| && call.WriteAt?
    ensures CutsTo(g, m, v, call)
  {
    hide Coherent, Bumped, WriteFrom, ExecuteFlat, Splice, Cut;
    var WriteAt(r, offset, data) := call;
    ExecuteFlatNothing(g.size, v);
    if r < |m.regions| {
      CutArray(g, m, v, r);
    }
    if Lower(m, call) == [] {
      SameCut(g, m, Perform(g, m, call).0, v);
      return;
    }
    ExecuteFlatOne(g.size, v, Write(m.regions[r].offset + offset, data));
    CutSplice(g, m, v, r, offset, data);
    SameCut(g, m, Perform(g, m, call).0, Splice(v, m.regions[r].offset + offset, data));
  }

  lemma FillCuts(g: Geometry, m: Memory, v: bytes, call: Call)
    requires Laid(g, m) && g.size <= |v| && call.Fill?
    ensures CutsTo(g, m, v, call)
  {
    hide Coherent, Bumped, Execute, ExecuteFlat, Splice, FillOps, Cut;
    var Fill(r, value) := call;
    ExecuteFlatNothing(g.size, v);
    if r < |m.regions| {
      CutArray(g, m, v, r);
    }
    if !Open(m.regions, r) || !(0 <= value <= 255) {
      SameCut(g, m, Perform(g, m, call).0, v);
      return;
    }
    var size := m.regions[r].size;
    FillFlat(g.size, v, m.regions[r].offset, size, value);
    CutSplice(g, m, v, r, 0, Repeat(value, size));
    SpliceWhole(Cut(g, m, v).arrays[r].data, Repeat(value, size));
    SameCut(g, m, Perform(g, m, call).0, Splice(v, m.regions[r].offset, Repeat(value, size)));
    assert Lower(m, call) == FillOps(m.regions[r].offset, size, value) && Perform(g, m, call).1 == Done;
  }

  lemma SpliceWhole(s: bytes, data: bytes)
    requires |s| == |data|
    ensures Splice(s, 0, data) == data
  {
  }

  lemma FreeSplit(g: Geometry, m: Memory, v: bytes, size: nat)
    requires Laid(g, m) && g.size <= |v| && m.next + size <= g.size
    ensures Slice(v, m.next, g.size - m.next)[..size] == Slice(v, m.next, size)
    ensures Slice(v, m.next, g.size - m.next)[size..] == Slice(v, m.next + size, g.size - m.next - size)
  {
    hide Coherent, Bumped;
  }

  lemma AllocateCuts(g: Geometry, m: Memory, v: bytes, call: Call)
    requires Laid(g, m) && g.size <= |v| && call.Allocate?
    ensures CutsTo(g, m, v, call)
  {
    hide Coherent, Bumped, ExecuteFlat, Cut, Slice;
    var after := Perform(g, m, call).0;
    ExecuteFlatNothing(g.size, v);
    FreeSlice(g, m, v);
    FreeSlice(g, after, v);
    if !(0 < call.size <= g.size - m.next) {
      return;
    }
    var a, b, n := Cut(g, m, v), Cut(g, after, v), |m.regions|;
    FreeSplit(g, m, v, call.size);
    forall i | 0 <= i <= n ensures b.arrays[i] == if i < n then a.arrays[i] else Array(a.free[..call.size], false) {
      CutArray(g, after, v, i);
      if i < n { CutArray(g, m, v, i); }
    }
    assert b.arrays == a.arrays + [Array(a.free[..call.size], false)];
  }

  lemma CloseCuts(g: Geometry, m: Memory, v: bytes, call: Call)
    requires Laid(g, m) && g.size <= |v| && (call.Close? || call.FlushMemory? || call.CloseMemory?)
    ensures CutsTo(g, m, v, call)
  {
    hide Coherent, Apply, ExecuteFlat;
    ExecuteFlatNothing(g.size, v);
    ExecuteFlatOne(g.size, v, FlushAll);
    var after := Perform(g, m, call).0;
    FreeSlice(g, m, v);
    FreeSlice(g, after, v);
    assert Cut(g, after, v).arrays == PerformArrays(Cut(g, m, v), call).0.arrays;
  }

  lemma CallCuts(g: Geometry, m: Memory, v: bytes, call: Call)
    requires Laid(g, m) && g.size <= |v|
    ensures CutsTo(g, m, v, call)
  {
    hide CutsTo;
    match call
    case ReadAt(_, _, _) => ReadCuts(g, m, v, call);
    case WriteAt(_, _, _) => WriteCuts(g, m, v, call);
    case Fill(_, _) => FillCuts(g, m, v, call);
    case Allocate(_) => AllocateCuts(g, m, v, call);
    case _ => CloseCuts(g, m, v, call);
  }

  // ---- Isolation of one call ----

  /** The cache acts on these operations as the plain array does. */
  ghost predicate ActsFlat(g: Geometry, s: Cache, ops: seq<Op>)
    requires Coherent(g, s)
  {
    && g.size <= |s.remote|
    && (View(g, Execute(g, s, ops).0), Execute(g, s, ops).1) == ExecuteFlat(g.size, View(g, s), ops)
  }

  /** The call acts on the arrays that readers see as it would on separate arrays. */
  ghost predicate Isolated(g: Geometry, m: Memory, call: Call)
    requires Laid(g, m) && g.size <= |m.cache.remote|
  {
    var (after, reply) := Perform(g, m, call);
    && g.size <= |after.cache.remote|
    && (Cut(g, after, View(g, after.cache)), reply) == PerformArrays(Cut(g, m, View(g, m.cache)), call)
  }

  lemma CallIsolated(g: Geometry, m: Memory, call: Call)
    requires Laid(g, m) && ActsFlat(g, m.cache, Lower(m, call))
    ensures g.size <= |m.cache.remote| && Isolated(g, m, call)
  {
    hide Coherent, Bumped, View, Lower, Perform, PerformArrays, Cut, Execute, ExecuteFlat;
    Lowered(g, m, call);
    CallCuts(g, m, View(g, m.cache), call);
  }

  // ---- Whole runs ----

  function PerformAll(g: Geometry, m: Memory, calls: seq<Call>): (r: (Memory, seq<Reply>))
    requires Laid(g, m)
    ensures Laid(g, r.0) && |r.1| == |calls|
  {
    if calls == [] then (m, [])
    else
      var (before, replies) := PerformAll(g, m, calls[..|calls| - 1]);
      var (after, reply) := Perform(g, before, calls[|calls| - 1]);
      (after, replies + [reply])
  }

  function PerformAllArrays(a: Arrays, calls: seq<Call>): (r: (Arrays, seq<Reply>))
    ensures |r.1| == |calls|
  {
    if calls == [] then (a, [])
    else
      var (before, replies) := PerformAllArrays(a, calls[..|calls| - 1]);
      var (after, reply) := PerformArrays(before, calls[|calls| - 1]);
      (after, replies + [reply])
  }

  /** The cache operations of a run of calls. */
  function LowerAll(g: Geometry, m: Memory, calls: seq<Call>): seq<Op>
    requires Laid(g, m)
  {
    if calls == [] then []
    else
      var front := calls[..|calls| - 1];
      LowerAll(g, m, front) + Lower(PerformAll(g, m, front).0, calls[|calls| - 1])
  }

  lemma {:induction false} LoweredAll(g: Geometry, m: Memory, calls: seq<Call>)
    requires Laid(g, m)
    ensures PerformAll(g, m, calls).0.cache == Execute(g, m.cache, LowerAll(g, m, calls)).0
  {
    hide Coherent, Bumped, Perform, Execute, Lower;
    ExecuteNothing(g, m.cache);
    if calls != [] {
      var front, call := calls[..|calls| - 1], calls[|calls| - 1];
      var before := PerformAll(g, m, front).0;
      LoweredAll(g, m, front);
      Lowered(g, before, call);
      ExecuteConcat(g, m.cache, LowerAll(g, m, front), Lower(before, call));
    }
  }

  /** What follows in a run that loses no byte acts as the plain array too. */
  lemma RestActsFlat(g: Geometry, s: Cache, a: seq<Op>, b: seq<Op>)
    requires Sound(g, s, {}) && NoByteLost(g, s.order, a + b)
    ensures Coherent(g, s) && ActsFlat(g, Execute(g, s, a).0, b)
  {
    hide Coherent, View, Execute, ExecuteFlat, NoByteLost, Sound;
    SoundSize(g, s, {});
    assert (a + b)[..|a|] == a;
    LostByPrefix(g, s.order, a + b, |a|);
    NothingLost(g, s, a);
    NothingLost(g, s, a + b);
    ExecuteConcat(g, s, a, b);
    ExecuteFlatConcat(g.size, View(g, s), a, b);
    var middle := Execute(g, s, a).0;
    var replies, flat := Execute(g, s, a + b).1, ExecuteFlat(g.size, View(g, s), a + b).1;
    assert replies[|a|..] == Execute(g, middle, b).1;
    assert flat[|a|..] == ExecuteFlat(g.size, View(g, middle), b).1;
    SoundSize(g, middle, Unsaved(g, a));
  }

  /** Region isolation. Regions share pages of one cache, and yet a run that pushes out no page with
      an unsaved byte gives every reply that separate arrays would give, and leaves every region with
      the bytes of its array. */
  lemma {:induction false} RegionIsolation(g: Geometry, m: Memory, calls: seq<Call>)
    requires Laid(g, m) && m.cache.dirty == {} && NoByteLost(g, m.cache.order, LowerAll(g, m, calls))
    ensures g.size <= |m.cache.remote|
    ensures var (after, replies) := PerformAll(g, m, calls);
            && g.size <= |after.cache.remote|
            && (Cut(g, after, View(g, after.cache)), replies)
               == PerformAllArrays(Cut(g, m, View(g, m.cache)), calls)
  {
    hide Coherent, Bumped, Perform, PerformArrays, View, Cut, NoByteLost, Sound, Lower;
    NothingUnsaved(g, m.cache);
    SoundSize(g, m.cache, {});
    if calls != [] {
      var front, call := calls[..|calls| - 1], calls[|calls| - 1];
      var before, ops := PerformAll(g, m, front).0, LowerAll(g, m, front);
      assert LowerAll(g, m, calls)[..|ops|] == ops;
      LostByPrefix(g, m.cache.order, LowerAll(g, m, calls), |ops|);
      RegionIsolation(g, m, front);
      LoweredAll(g, m, front);
      RestActsFlat(g, m.cache, ops, Lower(before, call));
      CallIsolated(g, before, call);
    }
  }

  /** So does a run that evicts no dirty page, and so one that between flushes never touches more
      pages than the cache holds. */
  lemma RegionsWhileClean(g: Geometry, m: Memory, calls: seq<Call>)
    requires Laid(g, m) && m.cache.dirty == {}
    requires var ops := LowerAll(g, m, calls); NoDirtyEviction(g, m.cache.order, ops) || WorkingSetFits(g, ops)
    ensures g.size <= |m.cache.remote|
    ensures var (after, replies) := PerformAll(g, m, calls);
            && g.size <= |after.cache.remote|
            && (Cut(g, after, View(g, after.cache)), replies)
               == PerformAllArrays(Cut(g, m, View(g, m.cache)), calls)
  {
    hide PageCacheSpec.PageCoherent, Bumped, PerformAll, View, NoByteLost, NoDirtyEviction, WorkingSetFits, LowerAll;
    var ops := LowerAll(g, m, calls);
    if WorkingSetFits(g, ops) {
      FittingRun(g, m.cache.order, ops);
    }
    NoByteLostThen(g, m.cache.order, ops);
    RegionIsolation(g, m, calls);
  }
}
