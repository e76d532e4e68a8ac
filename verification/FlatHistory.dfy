/** What a byte array answers, read off the operations alone: every read returns the bytes last written. */
module FlatHistory {
  import opened Bytes
  import opened PageCacheSpec
  import opened CacheRuns
  import opened LostBytes
  import opened DirtyEviction
  import opened WorkingSet

  /** The byte at offset `i` after the operations: that of the last write in range that has it, or else the
      byte it began with. */
  function LastWritten(size: nat, memory: bytes, ops: seq<Op>, i: nat): byte
    requires i < |memory|
  {
    if ops == [] then memory[i]
    else
      match ops[|ops| - 1]
      case Write(offset, data) =>
        if 0 <= offset <= i < offset + |data| <= size then data[i - offset]
        else LastWritten(size, memory, ops[..|ops| - 1], i)
      case _ => LastWritten(size, memory, ops[..|ops| - 1], i)
  }

  /** The reply to an operation that comes after the others. */
  predicate Answers(size: nat, memory: bytes, before: seq<Op>, op: Op, reply: Reply)
    requires size <= |memory|
  {
    match op
    case Read(offset, length) =>
      if 0 <= offset && 0 <= length && offset + length <= size then
        && reply.Data? && |reply.data| == length
        && forall k :: 0 <= k < length ==> reply.data[k] == LastWritten(size, memory, before, offset + k)
      else reply == Refused
    case Write(offset, data) => reply == if 0 <= offset && offset + |data| <= size then Done else Refused
    case FlushAll => reply == Done
  }

  lemma {:induction false} FlatByte(size: nat, memory: bytes, ops: seq<Op>, i: nat)
    requires size <= |memory| && i < |memory|
    ensures ExecuteFlat(size, memory, ops).0[i] == LastWritten(size, memory, ops, i)
  {
    hide Splice;
    if ops != [] {
      FlatByte(size, memory, ops[..|ops| - 1], i);
      var before, op := ExecuteFlat(size, memory, ops[..|ops| - 1]).0, ops[|ops| - 1];
      if op.Write? && InRange(op.offset, |op.data|, size) {
        SpliceAt(before, op.offset, op.data, i);
      }
    }
  }

  lemma FlatReply(size: nat, memory: bytes, before: seq<Op>, op: Op)
    requires size <= |memory|
    ensures Answers(size, memory, before, op, ApplyFlat(size, ExecuteFlat(size, memory, before).0, op).1)
  {
    hide ExecuteFlat, LastWritten;
    var v := ExecuteFlat(size, memory, before).0;
    if op.Read? && InRange(op.offset, op.length, size) {
      var Read(offset, length) := op;
      forall k | 0 <= k < length ensures Slice(v, offset, length)[k] == LastWritten(size, memory, before, offset + k) {
        FlatByte(size, memory, before, offset + k);
      }
    }
  }

  /** The plain array answers every read with the bytes last written. */
  lemma {:induction false} FlatAnswers(size: nat, memory: bytes, ops: seq<Op>)
    requires size <= |memory|
    ensures forall k :: 0 <= k < |ops| ==>
              Answers(size, memory, ops[..k], ops[k], ExecuteFlat(size, memory, ops).1[k])
  {
    hide Answers, ApplyFlat;
    if ops != [] {
      var n := |ops| - 1;
      FlatAnswers(size, memory, ops[..n]);
      FlatReply(size, memory, ops[..n], ops[n]);
      forall k | 0 <= k < |ops| ensures Answers(size, memory, ops[..k], ops[k], ExecuteFlat(size, memory, ops).1[k]) {
        if k < n {
          assert ops[..n][..k] == ops[..k];
        }
      }
    }
  }

  /** So does the write-back cache, in every run that pushes out no page with an unsaved byte. */
  lemma ReadsLastWritten(g: Geometry, s: Cache, ops: seq<Op>)
    requires Coherent(g, s) && s.dirty == {} && NoByteLost(g, s.order, ops)
    ensures g.size <= |s.remote|
    ensures forall k :: 0 <= k < |ops| ==>
              Answers(g.size, s.remote, ops[..k], ops[k], Execute(g, s, ops).1[k])
  {
    hide PageCoherent, View, NoByteLost, Execute, ExecuteFlat, Sound, Answers;
    NothingUnsaved(g, s);
    NothingLost(g, s, ops);
    FlatAnswers(g.size, s.remote, ops);
  }

  /** And in particular in every run that touches at most as many pages between flushes as the cache holds. */
  lemma WorkingSetReads(g: Geometry, s: Cache, ops: seq<Op>)
    requires Coherent(g, s) && s.dirty == {} && WorkingSetFits(g, ops)
    ensures g.size <= |s.remote|
    ensures forall k :: 0 <= k < |ops| ==>
              Answers(g.size, s.remote, ops[..k], ops[k], Execute(g, s, ops).1[k])
  {
    hide PageCoherent, NoByteLost, NoDirtyEviction, Execute, WorkingSetFits, Answers;
    FittingRun(g, s.order, ops);
    NoByteLostThen(g, s.order, ops);
    ReadsLastWritten(g, s, ops);
  }
}
