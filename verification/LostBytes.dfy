/** Which runs of the write-back cache lose a byte, decided from the shape of the run alone. */
module LostBytes {
  import opened Bytes
  import opened Lru
  import opened PageCacheSpec
  import opened PageCacheOps
  import opened Transparency
  import opened CacheRuns

  predicate Writes(g: Geometry, op: Op, i: nat) {
    op.Write? && InRange(op.offset, |op.data|, g.size) && op.offset <= i < op.offset + |op.data|
  }

  /** The offsets that an operation writes. */
  function Written(g: Geometry, op: Op): set<nat> {
    set i: nat | i < g.size && Writes(g, op, i)
  }

  function UnsavedAfter(g: Geometry, unsaved: set<nat>, op: Op): set<nat> {
    if op.FlushAll? then {} else unsaved + Written(g, op)
  }

  /** The offsets written since the last flush. */
  function Unsaved(g: Geometry, ops: seq<Op>): set<nat> {
    if ops == [] then {} else UnsavedAfter(g, Unsaved(g, ops[..|ops| - 1]), ops[|ops| - 1])
  }

  /** The page of the byte stays cached while the trace is touched. */
  predicate Stays(g: Geometry, order: seq<nat>, trace: seq<nat>, i: nat) {
    Survives(order, trace, i / g.pageSize, g.capacity)
  }

  /** The page of the byte is touched, and stays cached from its load on. */
  predicate StaysFrom(g: Geometry, order: seq<nat>, trace: seq<nat>, i: nat) {
    SurvivesFrom(order, trace, i / g.pageSize, g.capacity)
  }

  /** The page of every unsaved byte stays cached throughout the operation, and the page of every byte
      that the operation writes stays cached from its load to the end. */
  predicate Kept(g: Geometry, order: seq<nat>, unsaved: set<nat>, op: Op) {
    var trace := TraceOf(g, op);
    trace == [] ||
    (&& (forall i :: i in unsaved - Written(g, op) ==> Stays(g, order, trace, i))
     && (forall i :: i in Written(g, op) ==> StaysFrom(g, order, trace, i)))
  }

  /** No operation pushes out a page with an unsaved byte. This looks at offsets, lengths and recency
      only, at no contents. */
  predicate NoByteLost(g: Geometry, order: seq<nat>, ops: seq<Op>) {
    ops == [] ||
    var front := ops[..|ops| - 1];
    && NoByteLost(g, order, front)
    && Kept(g, Run(order, Trace(g, front), g.capacity), Unsaved(g, front), ops[|ops| - 1])
  }

  // ---- Such a run is a run of the plain array ----

  /** Only unsaved bytes may differ from the remote ones. */
  ghost predicate Sound(g: Geometry, s: Cache, unsaved: set<nat>) {
    && Coherent(g, s)
    && (forall i :: 0 <= i < |s.remote| && View(g, s)[i] != s.remote[i] ==> i in unsaved)
  }

  /** The operation acts on what readers see as on the plain array. */
  ghost predicate Faithful(g: Geometry, s: Cache, op: Op)
    requires Coherent(g, s)
  {
    g.size <= |s.remote| && (View(g, Apply(g, s, op).0), Apply(g, s, op).1) == ApplyFlat(g.size, View(g, s), op)
  }

  lemma SpanStarts(g: Geometry, offset: nat, length: nat)
    requires length > 0
    ensures Span(g, offset, length) != []
  {
    SpanSplit(g, offset, length);
  }

  lemma KeptByRead(g: Geometry, s: Cache, unsaved: set<nat>, op: Op, i: nat)
    requires Sound(g, s, unsaved) && op.Read? && InRange(op.offset, op.length, g.size) && op.length > 0
    requires Kept(g, s.order, unsaved, op)
    requires i < |s.remote| && View(g, s)[i] != s.remote[i]
    ensures Survives(s.order, Span(g, op.offset, op.length), i / g.pageSize, g.capacity)
  {
    hide View, Span, Survives, SurvivesFrom, Coherent;
    SpanStarts(g, op.offset, op.length);
    assert i in unsaved - Written(g, op);
  }

  lemma ReadKept(g: Geometry, s: Cache, unsaved: set<nat>, op: Op)
    requires Sound(g, s, unsaved) && op.Read? && InRange(op.offset, op.length, g.size)
    requires Kept(g, s.order, unsaved, op)
    ensures Sound(g, Apply(g, s, op).0, unsaved) && Faithful(g, s, op)
  {
    hide View, ReadFrom, Span, Survives, Coherent, Kept, Slice;
    var Read(offset, length) := op;
    SizeBound(g, s);
    if length == 0 {
      ReadNothing(g, s, offset);
      return;
    }
    forall i | 0 <= i < |s.remote| && View(g, s)[i] != s.remote[i]
      ensures Survives(s.order, Span(g, offset, length), i / g.pageSize, g.capacity)
    {
      KeptByRead(g, s, unsaved, op, i);
    }
    ReadTransparentIff(g, s, offset, length);
    ReadRemote(g, s, offset, length);
    ReadReturns(g, s, offset, length);
  }

  lemma ReadNothing(g: Geometry, s: Cache, offset: nat)
    requires Coherent(g, s) && offset <= g.size
    ensures ReadFrom(g, s, offset, 0) == (s, [])
  {
  }

  lemma KeptByWrite(g: Geometry, s: Cache, unsaved: set<nat>, op: Op, i: nat)
    requires Sound(g, s, unsaved) && op.Write? && InRange(op.offset, |op.data|, g.size) && op.data != []
    requires Kept(g, s.order, unsaved, op) && i < |s.remote|
    ensures WriteKeeps(g, s, op.offset, op.data, i)
  {
    hide View, Span, Survives, SurvivesFrom, Coherent;
    SizeBound(g, s);
    SpanStarts(g, op.offset, |op.data|);
    assert i in Written(g, op) <==> op.offset <= i < op.offset + |op.data|;
    assert View(g, s)[i] != s.remote[i] && i !in Written(g, op) ==> i in unsaved - Written(g, op);
  }

  lemma WrittenSound(g: Geometry, s: Cache, unsaved: set<nat>, op: Op)
    requires Sound(g, s, unsaved) && op.Write? && InRange(op.offset, |op.data|, g.size)
    requires Faithful(g, s, op) && Apply(g, s, op).0.remote == s.remote
    ensures Sound(g, Apply(g, s, op).0, unsaved + Written(g, op))
  {
    hide View, WriteFrom, Coherent, Splice;
    var after := Apply(g, s, op).0;
    forall i | 0 <= i < |s.remote| && View(g, after)[i] != after.remote[i] ensures i in unsaved + Written(g, op) {
      SpliceAt(View(g, s), op.offset, op.data, i);
    }
  }

  lemma WriteKept(g: Geometry, s: Cache, unsaved: set<nat>, op: Op)
    requires Sound(g, s, unsaved) && op.Write? && InRange(op.offset, |op.data|, g.size)
    requires Kept(g, s.order, unsaved, op)
    ensures Sound(g, Apply(g, s, op).0, unsaved + Written(g, op)) && Faithful(g, s, op)
  {
    hide View, WriteFrom, Coherent, Splice, Kept, Sound, WriteKeeps;
    var Write(offset, data) := op;
    SoundSize(g, s, unsaved);
    if data == [] {
      SpliceNothing(View(g, s), offset);
      WriteNothing(g, s, offset);
    } else {
      forall i | 0 <= i < |s.remote| ensures WriteKeeps(g, s, offset, data, i) {
        KeptByWrite(g, s, unsaved, op, i);
      }
      WriteTransparentIff(g, s, offset, data);
      WriteTouches(g, s, offset, data);
    }
    WrittenSound(g, s, unsaved, op);
  }

  lemma WriteNothing(g: Geometry, s: Cache, offset: nat)
    requires Coherent(g, s) && offset <= g.size
    ensures WriteFrom(g, s, offset, []) == s
  {
  }

  lemma ApplyKept(g: Geometry, s: Cache, unsaved: set<nat>, op: Op)
    requires Sound(g, s, unsaved) && Kept(g, s.order, unsaved, op)
    ensures Sound(g, Apply(g, s, op).0, UnsavedAfter(g, unsaved, op)) && Faithful(g, s, op)
  {
    hide View, Kept, Span, PageCoherent, ReadFrom, WriteFrom;
    SizeBound(g, s);
    match op
    case Read(offset, length) => if InRange(offset, length, g.size) { ReadKept(g, s, unsaved, op); }
    case Write(offset, data) => if InRange(offset, |data|, g.size) { WriteKept(g, s, unsaved, op); }
    case FlushAll => FlushView(g, s);
  }

  /** A run that loses no byte gives every reply that the plain array gives, and shows readers the
      bytes of that array. */
  lemma {:induction false} NothingLost(g: Geometry, s: Cache, ops: seq<Op>)
    requires Sound(g, s, {}) && NoByteLost(g, s.order, ops)
    ensures g.size <= |s.remote|
    ensures var (after, replies) := Execute(g, s, ops);
            && (View(g, after), replies) == ExecuteFlat(g.size, View(g, s), ops)
            && Sound(g, after, Unsaved(g, ops))
  {
    hide Coherent, View, Apply, ApplyFlat, Kept, Trace, UnsavedAfter, Sound;
    SoundSize(g, s, {});
    if ops != [] {
      var front, op := ops[..|ops| - 1], ops[|ops| - 1];
      NothingLost(g, s, front);
      ExecuteTouches(g, s, front);
      ApplyKept(g, Execute(g, s, front).0, Unsaved(g, front), op);
    }
  }

  lemma SoundSize(g: Geometry, s: Cache, unsaved: set<nat>)
    requires Sound(g, s, unsaved)
    ensures Coherent(g, s) && g.size <= |s.remote|
  {
  }

  /** A new cache, or one just flushed, has nothing to lose. */
  lemma NothingUnsaved(g: Geometry, s: Cache)
    requires Coherent(g, s) && s.dirty == {}
    ensures Sound(g, s, {}) && View(g, s) == s.remote
  {
    hide View;
    forall i | 0 <= i < |s.remote| ensures View(g, s)[i] == s.remote[i] {
      CleanByte(g, s, i);
    }
  }

  lemma CleanByte(g: Geometry, s: Cache, i: nat)
    requires Coherent(g, s) && s.dirty == {} && i < |s.remote|
    ensures View(g, s)[i] == s.remote[i]
  {
    PageOf(g, i);
    var p := i / g.pageSize;
    if i < g.size && p in s.pages {
      assert PageCoherent(g, s, p);
      assert s.pages[p][i % g.pageSize] == Slice(s.remote, g.Base(p), g.Len(p))[i % g.pageSize];
    }
  }

  // ---- Any other run can show it ----

  predicate SameOp(a: Op, b: Op) {
    match a
    case Read(_, _) => a == b
    case Write(offset, data) => b.Write? && b.offset == offset && |b.data| == |data|
    case FlushAll => b.FlushAll?
  }

  /** The same operations at the same offsets with the same lengths; the written bytes may differ. */
  predicate SameShape(a: seq<Op>, b: seq<Op>) {
    |a| == |b| && forall k :: 0 <= k < |a| ==> SameOp(a[k], b[k])
  }

  lemma {:induction false} ShapeDecides(g: Geometry, order: seq<nat>, a: seq<Op>, b: seq<Op>)
    requires SameShape(a, b)
    ensures Trace(g, a) == Trace(g, b) && Unsaved(g, a) == Unsaved(g, b)
    ensures NoByteLost(g, order, a) <==> NoByteLost(g, order, b)
  {
    hide Run, Survives, SurvivesFrom, Span, SameShape;
    ShapeFront(a, b);
    if a != [] {
      ShapeDecides(g, order, a[..|a| - 1], b[..|b| - 1]);
      SameWritten(g, a[|a| - 1], b[|b| - 1]);
    }
  }

  lemma ShapeFront(a: seq<Op>, b: seq<Op>)
    requires SameShape(a, b)
    ensures |b| == |a|
    ensures a != [] ==> SameShape(a[..|a| - 1], b[..|b| - 1]) && SameOp(a[|a| - 1], b[|b| - 1])
  {
  }

  lemma SameWritten(g: Geometry, a: Op, b: Op)
    requires SameOp(a, b)
    ensures TraceOf(g, a) == TraceOf(g, b) && Written(g, a) == Written(g, b)
  {
    forall i: nat ensures Writes(g, a, i) <==> Writes(g, b, i) {
    }
  }

  /** The run as a witness: what it writes last before the end or before a flush to come is marked,
      and everything flushed is zero. */
  function Marked(ops: seq<Op>, marking: bool): (r: seq<Op>)
    ensures SameShape(r, ops)
  {
    if ops == [] then []
    else
      var front := ops[..|ops| - 1];
      match ops[|ops| - 1]
      case Read(offset, length) => Marked(front, marking) + [Read(offset, length)]
      case Write(offset, data) => Marked(front, marking) + [Write(offset, Repeat(if marking then 1 else 0, |data|))]
      case FlushAll => Marked(front, false) + [FlushAll]
  }

  /** The byte that a marked run leaves at an offset. */
  function Mark(g: Geometry, ops: seq<Op>, marking: bool, i: nat): byte {
    if marking && i in Unsaved(g, ops) then 1 else 0
  }

  lemma {:induction false} MarkedArray(g: Geometry, ops: seq<Op>, marking: bool)
    ensures forall i :: 0 <= i < g.size ==>
              ExecuteFlat(g.size, Zeros(g.size), Marked(ops, marking)).0[i] == Mark(g, ops, marking, i)
  {
    hide Splice;
    if ops != [] {
      var front, op := ops[..|ops| - 1], ops[|ops| - 1];
      var before := if op.FlushAll? then false else marking;
      MarkedArray(g, front, before);
      var run := Marked(ops, marking);
      assert run[..|run| - 1] == Marked(front, before);
      var v := ExecuteFlat(g.size, Zeros(g.size), Marked(front, before)).0;
      forall i | 0 <= i < g.size ensures ApplyFlat(g.size, v, run[|run| - 1]).0[i] == Mark(g, ops, marking, i) {
        assert i in Written(g, op) <==> Writes(g, op, i);
        if op.Write? && InRange(op.offset, |op.data|, g.size) {
          SpliceAt(v, op.offset, run[|run| - 1].data, i);
        }
      }
    }
  }

  lemma ApplyRemote(g: Geometry, s: Cache, op: Op)
    requires Coherent(g, s)
    ensures Apply(g, s, op).0.remote == if op.FlushAll? then View(g, s) else s.remote
  {
    hide Coherent, View, ReadFrom, WriteFrom;
    match op
    case Read(offset, length) => if InRange(offset, length, g.size) { ReadTouches(g, s, offset, length); }
    case Write(offset, data) => if InRange(offset, |data|, g.size) { WriteTouches(g, s, offset, data); }
    case FlushAll =>
  }

  /** A cache in front of zeros that holds the pages of a recency order and nothing unsaved. */
  function Warm(g: Geometry, order: seq<nat>): Cache {
    var pages := map p | p in order && g.Holds(p) :: Zeros(g.Len(p));
    Cache(order, pages, {}, Zeros(g.size), 0, |order|, |order|, 0, 0)
  }

  /** An order that a cache can have. */
  predicate CanHold(g: Geometry, order: seq<nat>) {
    Fits(order, g.capacity) && forall p :: p in order ==> g.Holds(p)
  }

  lemma WarmClean(g: Geometry, order: seq<nat>)
    requires CanHold(g, order)
    ensures var s := Warm(g, order); Coherent(g, s) && Sound(g, s, {}) && View(g, s) == s.remote
  {
    hide View;
    var s := Warm(g, order);
    assert Coherent(g, s) by {
      WarmCoherent(g, order);
    }
    NothingUnsaved(g, s);
  }

  lemma WarmCoherent(g: Geometry, order: seq<nat>)
    requires CanHold(g, order)
    ensures Coherent(g, Warm(g, order))
  {
    var s := Warm(g, order);
    forall p | p in s.pages ensures PageCoherent(g, s, p) {
      assert g.Base(p) + g.Len(p) <= g.size;
      assert Zeros(g.Len(p)) == Slice(s.remote, g.Base(p), g.Len(p));
    }
  }

  /** Everything that a marked run has flushed is zero. */
  lemma {:induction false} MarkedRemote(g: Geometry, order: seq<nat>, ops: seq<Op>, marking: bool)
    requires CanHold(g, order) && NoByteLost(g, order, ops)
    ensures Coherent(g, Warm(g, order))
    ensures Execute(g, Warm(g, order), Marked(ops, marking)).0.remote == Zeros(g.size)
  {
    hide Coherent, View, Apply, Kept, Trace, Sound;
    WarmClean(g, order);
    if ops != [] {
      var front, op := ops[..|ops| - 1], ops[|ops| - 1];
      var before := if op.FlushAll? then false else marking;
      MarkedRemote(g, order, front, before);
      var run := Marked(ops, marking);
      assert run[..|run| - 1] == Marked(front, before);
      ApplyRemote(g, Execute(g, Warm(g, order), Marked(front, before)).0, run[|run| - 1]);
      if op.FlushAll? {
        MarkedView(g, order, front, false);
        AllZero(View(g, Execute(g, Warm(g, order), Marked(front, false)).0));
      }
    }
  }

  lemma AllZero(v: bytes)
    requires forall i :: 0 <= i < |v| ==> v[i] == 0
    ensures v == Zeros(|v|)
  {
  }

  lemma MarkedView(g: Geometry, order: seq<nat>, ops: seq<Op>, marking: bool)
    requires CanHold(g, order) && NoByteLost(g, order, ops)
    ensures Coherent(g, Warm(g, order))
    ensures var s := Execute(g, Warm(g, order), Marked(ops, marking)).0;
            && s.order == Run(order, Trace(g, ops), g.capacity)
            && |View(g, s)| == g.size
            && (forall i :: 0 <= i < g.size ==> View(g, s)[i] == Mark(g, ops, marking, i))
  {
    hide Coherent, View, Apply, Kept, Execute, ExecuteFlat, Trace, Sound, Mark;
    var empty, run := Warm(g, order), Marked(ops, marking);
    WarmClean(g, order);
    NothingUnsaved(g, empty);
    ShapeDecides(g, order, run, ops);
    NothingLost(g, empty, run);
    ExecuteTouches(g, empty, run);
    MarkedArray(g, ops, marking);
  }

  /** What readers see and the plain array agree after the run. */
  ghost predicate LikeArray(g: Geometry, s: Cache, run: seq<Op>)
    requires Coherent(g, s)
  {
    g.size <= |s.remote| && View(g, Execute(g, s, run).0) == ExecuteFlat(g.size, View(g, s), run).0
  }

  /** Readers see ones on the unsaved bytes, over zeros. */
  ghost predicate Marks(g: Geometry, s: Cache, unsaved: set<nat>) {
    && Coherent(g, s) && s.remote == Zeros(g.size)
    && (forall i :: 0 <= i < g.size ==> View(g, s)[i] == if i in unsaved then 1 else 0)
    && (forall i :: i in unsaved ==> i < g.size)
  }

  /** An operation that does not keep the marked bytes turns one of them back to zero. */
  lemma LostMark(g: Geometry, s: Cache, unsaved: set<nat>, op: Op)
    requires Marks(g, s, unsaved) && !Kept(g, s.order, unsaved, op)
    requires op.Write? ==> op.data == Repeat(1, |op.data|)
    ensures View(g, Apply(g, s, op).0) != ApplyFlat(g.size, View(g, s), op).0
  {
    hide Coherent, View, ReadFrom, WriteFrom, Span, Splice, Survives, SurvivesFrom;
    match op
    case Read(offset, length) =>
      var i :| i in unsaved - Written(g, op) && !Stays(g, s.order, TraceOf(g, op), i);
      ReadByte(g, s, offset, length, i);
    case Write(offset, data) =>
      LostWrite(g, s, unsaved, op);
    case FlushAll =>
  }

  lemma LostWrite(g: Geometry, s: Cache, unsaved: set<nat>, op: Op)
    requires Marks(g, s, unsaved) && !Kept(g, s.order, unsaved, op)
    requires op.Write? && op.data == Repeat(1, |op.data|)
    ensures View(g, Apply(g, s, op).0) != ApplyFlat(g.size, View(g, s), op).0
  {
    hide Coherent, View, WriteFrom, Span, Splice, Survives, SurvivesFrom;
    var Write(offset, data) := op;
    var trace := TraceOf(g, op);
    if i: nat :| i in Written(g, op) && !StaysFrom(g, s.order, trace, i) {
      WriteByte(g, s, offset, data, i);
      SpliceAt(View(g, s), offset, data, i);
    } else {
      var i :| i in unsaved - Written(g, op) && !Stays(g, s.order, trace, i);
      assert !Writes(g, op, i);
      WriteByte(g, s, offset, data, i);
      SpliceAt(View(g, s), offset, data, i);
    }
  }

  lemma {:induction false} UnsavedBound(g: Geometry, ops: seq<Op>)
    ensures forall i :: i in Unsaved(g, ops) ==> i < g.size
  {
    if ops != [] {
      UnsavedBound(g, ops[..|ops| - 1]);
    }
  }

  lemma {:induction false} LossShows(g: Geometry, order: seq<nat>, ops: seq<Op>) returns (k: nat, run: seq<Op>)
    requires CanHold(g, order) && !NoByteLost(g, order, ops)
    ensures Coherent(g, Warm(g, order)) && k <= |ops| && SameShape(run, ops[..k]) && !LikeArray(g, Warm(g, order), run)
  {
    hide Coherent, View, Kept, Execute, ExecuteFlat, Trace, Sound, Apply, ApplyFlat;
    WarmClean(g, order);
    var front := ops[..|ops| - 1];
    if !NoByteLost(g, order, front) {
      k, run := LossShows(g, order, front);
      assert front[..k] == ops[..k];
      return;
    }
    k, run := |ops|, Marked(ops, true);
    assert ops[..k] == ops;
    LastMark(g, order, ops);
  }

  lemma MarkedMarks(g: Geometry, order: seq<nat>, ops: seq<Op>)
    requires CanHold(g, order) && NoByteLost(g, order, ops)
    ensures Coherent(g, Warm(g, order))
    ensures var s := Execute(g, Warm(g, order), Marked(ops, true)).0;
            && Marks(g, s, Unsaved(g, ops)) && s.order == Run(order, Trace(g, ops), g.capacity)
            && View(g, s) == ExecuteFlat(g.size, Zeros(g.size), Marked(ops, true)).0
  {
    hide Coherent, View, Kept, Trace, Execute, ExecuteFlat, Unsaved;
    UnsavedBound(g, ops);
    MarkedView(g, order, ops, true);
    MarkedRemote(g, order, ops, true);
    MarkedArray(g, ops, true);
  }

  lemma LastMark(g: Geometry, order: seq<nat>, ops: seq<Op>)
    requires CanHold(g, order) && ops != [] && !NoByteLost(g, order, ops) && NoByteLost(g, order, ops[..|ops| - 1])
    ensures Coherent(g, Warm(g, order)) && !LikeArray(g, Warm(g, order), Marked(ops, true))
  {
    hide Coherent, View, Kept, Trace, Apply, ApplyFlat, Marks, Unsaved;
    var front, op := ops[..|ops| - 1], ops[|ops| - 1];
    var before, run := Marked(front, true), Marked(ops, true);
    WarmClean(g, order);
    MarkedMarks(g, order, front);
    var s := Execute(g, Warm(g, order), before).0;
    if op.FlushAll? {
      KeptByFlush(g, s.order, Unsaved(g, front));
      assert false;
    }
    var last := run[|run| - 1];
    assert run[..|run| - 1] == before && SameOp(op, last);
    SameKept(g, s.order, Unsaved(g, front), op, last);
    LostMark(g, s, Unsaved(g, front), last);
  }

  lemma KeptByFlush(g: Geometry, order: seq<nat>, unsaved: set<nat>)
    ensures Kept(g, order, unsaved, FlushAll)
  {
  }

  lemma SameKept(g: Geometry, order: seq<nat>, unsaved: set<nat>, a: Op, b: Op)
    requires SameOp(a, b)
    ensures Kept(g, order, unsaved, a) <==> Kept(g, order, unsaved, b)
  {
    hide Survives, SurvivesFrom, Span;
    SameWritten(g, a, b);
  }

  /** The cache has this recency order and nothing unsaved. */
  predicate Clean(g: Geometry, s: Cache, order: seq<nat>) {
    Coherent(g, s) && s.dirty == {} && s.order == order
  }

  /** Which runs lose no byte: exactly those of which no prefix, whatever it writes and whatever the
      remote bytes and the cached ones are, shows readers anything but the plain array. */
  lemma NoByteLostIff(g: Geometry, order: seq<nat>, ops: seq<Op>)
    requires CanHold(g, order)
    ensures NoByteLost(g, order, ops) <==>
            forall k, s, run :: 0 <= k <= |ops| && Clean(g, s, order) && SameShape(run, ops[..k]) ==>
              LikeArray(g, s, run)
  {
    hide Coherent, View, NoByteLost, Execute, ExecuteFlat, SameShape, LikeArray;
    if NoByteLost(g, order, ops) {
      forall k, s, run | 0 <= k <= |ops| && Clean(g, s, order) && SameShape(run, ops[..k])
        ensures LikeArray(g, s, run)
      {
        LostByPrefix(g, order, ops, k);
        LikeShape(g, s, run, ops[..k]);
      }
    } else {
      var k, run := LossShows(g, order, ops);
      assert Clean(g, Warm(g, order), order);
    }
  }

  lemma LikeShape(g: Geometry, s: Cache, run: seq<Op>, ops: seq<Op>)
    requires Coherent(g, s) && s.dirty == {} && SameShape(run, ops) && NoByteLost(g, s.order, ops)
    ensures LikeArray(g, s, run)
  {
    hide Coherent, View, NoByteLost, Execute, ExecuteFlat, SameShape, Sound;
    NothingUnsaved(g, s);
    ShapeDecides(g, s.order, run, ops);
    NothingLost(g, s, run);
  }

  /** What loses no byte has lost none at any earlier point. */
  lemma {:induction false} LostByPrefix(g: Geometry, order: seq<nat>, ops: seq<Op>, k: nat)
    requires NoByteLost(g, order, ops) && k <= |ops|
    ensures NoByteLost(g, order, ops[..k])
  {
    hide Kept, Trace, Unsaved;
    if k == |ops| {
      assert ops[..k] == ops;
    } else {
      var front := ops[..|ops| - 1];
      LostByPrefix(g, order, front, k);
      assert front[..k] == ops[..k];
    }
  }
}
