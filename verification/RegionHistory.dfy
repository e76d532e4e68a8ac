/** What the region memory answers, read off its calls and replies alone. */
module RegionHistory {
  import opened Bytes
  import opened PageCacheSpec
  import opened CacheRuns
  import opened LostBytes
  import opened RegionSpec

  // ---- Sizes ----

  /** The sizes of the regions handed out, in order. */
  function Sizes(calls: seq<Call>, replies: seq<Reply>): seq<nat>
    requires |calls| == |replies|
  {
    if calls == [] then []
    else
      var n := |calls| - 1;
      var before := Sizes(calls[..n], replies[..n]);
      if calls[n].Allocate? && replies[n].Done? && calls[n].size >= 0 then before + [calls[n].size] else before
  }

  function Sum(sizes: seq<nat>): nat {
    if sizes == [] then 0 else Sum(sizes[..|sizes| - 1]) + sizes[|sizes| - 1]
  }

  lemma SumMore(sizes: seq<nat>, size: nat)
    ensures Sum(sizes + [size]) == Sum(sizes) + size
  {
    assert (sizes + [size])[..|sizes|] == sizes;
  }

  /** The next free offset is the sum of the sizes. */
  lemma {:induction false} BumpedSum(regions: seq<Region>, next: nat, sizes: seq<nat>)
    requires Bumped(regions, next) && |sizes| == |regions|
    requires forall i :: 0 <= i < |sizes| ==> sizes[i] == regions[i].size
    ensures Sum(sizes) == next
  {
    if regions != [] {
      var n := |regions| - 1;
      BumpedSum(regions[..n], regions[n].offset, sizes[..n]);
    }
  }

  /** An allocation is granted exactly if its size is positive and fits into what is left. */
  predicate AllocationReply(total: nat, before: seq<nat>, size: int, reply: Reply) {
    reply == if size > 0 && Sum(before) + size <= total then Done else Refused
  }

  lemma PerformSizes(g: Geometry, m: Memory, call: Call, before: seq<nat>)
    requires Laid(g, m) && m.next == Sum(before)
    ensures var (after, reply) := Perform(g, m, call);
            && (call.Allocate? ==> AllocationReply(g.size, before, call.size, reply))
            && after.next ==
               Sum(if call.Allocate? && reply.Done? && call.size >= 0 then before + [call.size] else before)
  {
    hide Coherent, Bumped, Apply, Execute;
    if call.Allocate? && call.size > 0 {
      SumMore(before, call.size);
    }
  }

  /** A memory just created over given remote bytes. */
  function NewMemory(g: Geometry, remote: bytes): (m: Memory)
    requires g.size <= |remote|
    ensures Laid(g, m)
  {
    FreshCoherent(g, remote);
    Memory(Fresh(remote), 0, [])
  }

  lemma NewArrays(g: Geometry, remote: bytes)
    requires g.size <= |remote|
    ensures var m := NewMemory(g, remote);
            View(g, m.cache) == remote && Cut(g, m, remote) == Arrays([], remote[..g.size])
  {
    FreshCoherent(g, remote);
  }

  /** Allocation, in every run from a new memory, whatever the cache loses: a region is handed out if and
      only if its size is positive and the sizes handed out before and this one sum to at most the remote
      memory. */
  lemma {:induction false} AllocationLaw(g: Geometry, remote: bytes, calls: seq<Call>)
    requires g.size <= |remote|
    ensures var (m, replies) := PerformAll(g, NewMemory(g, remote), calls);
            && m.next == Sum(Sizes(calls, replies)) <= g.size
            && forall k :: 0 <= k < |calls| && calls[k].Allocate? ==>
                 AllocationReply(g.size, Sizes(calls[..k], replies[..k]), calls[k].size, replies[k])
  {
    hide Coherent, Bumped, Perform, AllocationReply;
    var start := NewMemory(g, remote);
    var (m, replies) := PerformAll(g, start, calls);
    if calls != [] {
      var n := |calls| - 1;
      AllocationLaw(g, remote, calls[..n]);
      var (before, first) := PerformAll(g, start, calls[..n]);
      assert replies[..n] == first;
      PerformSizes(g, before, calls[n], Sizes(calls[..n], first));
      forall k | 0 <= k < |calls| && calls[k].Allocate?
        ensures AllocationReply(g.size, Sizes(calls[..k], replies[..k]), calls[k].size, replies[k])
      {
        if k < n {
          assert calls[..n][..k] == calls[..k] && first[..k] == replies[..k];
        }
      }
    }
  }

  // ---- Contents ----

  /** The region was closed since it was handed out. */
  predicate Shut(calls: seq<Call>, replies: seq<Reply>, r: nat)
    requires |calls| == |replies|
  {
    calls != [] &&
    var n := |calls| - 1;
    var before := Shut(calls[..n], replies[..n], r);
    match calls[n]
    case Close(q) => before || (q == r && replies[n].Done?)
    case CloseMemory => r < |Sizes(calls[..n], replies[..n])|
    case _ => before
  }

  /** Byte `k` of region `r`: that of the last write or fill of this region that has it, or else the remote
      byte where the region was handed out, behind all regions before it. */
  function ByteIn(memory: bytes, calls: seq<Call>, replies: seq<Reply>, r: nat, k: nat): byte
    requires |calls| == |replies|
  {
    if calls == [] then 0
    else
      var n := |calls| - 1;
      var before := Sizes(calls[..n], replies[..n]);
      match calls[n]
      case WriteAt(q, offset, data) =>
        if q == r && replies[n].Done? && offset <= k < offset + |data| && 0 <= offset then data[k - offset]
        else ByteIn(memory, calls[..n], replies[..n], r, k)
      case Fill(q, value) =>
        if q == r && replies[n].Done? && 0 <= value < 256 then value
        else ByteIn(memory, calls[..n], replies[..n], r, k)
      case Allocate(size) =>
        if r == |before| && replies[n].Done? && Sum(before) + k < |memory| then memory[Sum(before) + k]
        else ByteIn(memory, calls[..n], replies[..n], r, k)
      case _ => ByteIn(memory, calls[..n], replies[..n], r, k)
  }

  /** The reply to a call that comes after the others. */
  predicate CallReply(total: nat, memory: bytes, calls: seq<Call>, replies: seq<Reply>, call: Call, reply: Reply)
    requires |calls| == |replies|
  {
    var sizes := Sizes(calls, replies);
    match call
    case Allocate(size) => AllocationReply(total, sizes, size, reply)
    case ReadAt(r, offset, length) =>
      if r < |sizes| && !Shut(calls, replies, r) && 0 <= offset && 0 <= length && offset + length <= sizes[r] then
        && reply.Data? && |reply.data| == length
        && forall k :: 0 <= k < length ==> reply.data[k] == ByteIn(memory, calls, replies, r, offset + k)
      else reply == Refused
    case WriteAt(r, offset, data) =>
      reply == if r < |sizes| && !Shut(calls, replies, r) && 0 <= offset && offset + |data| <= sizes[r] then Done
               else Refused
    case Fill(r, value) =>
      reply == if r < |sizes| && !Shut(calls, replies, r) && 0 <= value <= 255 then Done else Refused
    case Close(r) => reply == if r < |sizes| then Done else Refused
    case FlushMemory => reply == Done
    case CloseMemory => reply == Done
  }

  // ---- The separate arrays hold what the calls say ----

  /** The arrays are those of the calls: their sizes, which are closed, every byte, and what is left. */
  ghost predicate Told(a: Arrays, total: nat, memory: bytes, calls: seq<Call>, replies: seq<Reply>)
    requires |calls| == |replies| && total <= |memory|
  {
    var sizes := Sizes(calls, replies);
    && |a.arrays| == |sizes| && Sum(sizes) <= total && a.free == memory[Sum(sizes)..total]
    && (forall r: nat :: Shut(calls, replies, r) ==> r < |sizes|)
    && (forall r :: 0 <= r < |sizes| ==>
          |a.arrays[r].data| == sizes[r] && a.arrays[r].closed == Shut(calls, replies, r))
    && (forall r, k :: 0 <= r < |sizes| && 0 <= k < sizes[r] ==>
          a.arrays[r].data[k] == ByteIn(memory, calls, replies, r, k))
  }

  lemma ToldReply(a: Arrays, total: nat, memory: bytes, calls: seq<Call>, replies: seq<Reply>, call: Call)
    requires |calls| == |replies| && total <= |memory| && Told(a, total, memory, calls, replies)
    ensures CallReply(total, memory, calls, replies, call, PerformArrays(a, call).1)
  {
    hide Sizes, Sum, Shut, ByteIn;
  }

  /** What one more call makes of the history. */
  lemma HistoryStep(memory: bytes, calls: seq<Call>, replies: seq<Reply>, call: Call, reply: Reply, r: nat, k: nat)
    requires |calls| == |replies|
    ensures var cs, rs, sizes := calls + [call], replies + [reply], Sizes(calls, replies);
            && Sizes(cs, rs) == (if call.Allocate? && reply.Done? && call.size >= 0 then sizes + [call.size] else sizes)
            && Shut(cs, rs, r) == (match call
                                   case Close(q) => Shut(calls, replies, r) || (q == r && reply.Done?)
                                   case CloseMemory => r < |sizes|
                                   case _ => Shut(calls, replies, r))
            && ByteIn(memory, cs, rs, r, k) ==
               (match call
                case WriteAt(q, offset, data) =>
                  if q == r && reply.Done? && offset <= k < offset + |data| && 0 <= offset then data[k - offset]
                  else ByteIn(memory, calls, replies, r, k)
                case Fill(q, value) =>
                  if q == r && reply.Done? && 0 <= value < 256 then value else ByteIn(memory, calls, replies, r, k)
                case Allocate(size) =>
                  if r == |sizes| && reply.Done? && Sum(sizes) + k < |memory| then memory[Sum(sizes) + k]
                  else ByteIn(memory, calls, replies, r, k)
                case _ => ByteIn(memory, calls, replies, r, k))
  {
    hide Sum;
    assert (calls + [call])[..|calls|] == calls && (replies + [reply])[..|replies|] == replies;
  }

  lemma ToldNothing(total: nat, memory: bytes)
    requires total <= |memory|
    ensures Told(Arrays([], memory[..total]), total, memory, [], [])
  {
  }

  lemma ToldAllocate(a: Arrays, total: nat, memory: bytes, calls: seq<Call>, replies: seq<Reply>, call: Call)
    requires |calls| == |replies| && total <= |memory| && Told(a, total, memory, calls, replies)
    requires call.Allocate?
    ensures var (after, reply) := PerformArrays(a, call);
            Told(after, total, memory, calls + [call], replies + [reply])
  {
    hide Sizes, Sum, Shut, ByteIn;
    var (after, reply) := PerformArrays(a, call);
    var cs, rs, sizes := calls + [call], replies + [reply], Sizes(calls, replies);
    HistoryStep(memory, calls, replies, call, reply, 0, 0);
    if reply.Done? {
      SumMore(sizes, call.size);
      TakenFree(memory, Sum(sizes), total, call.size);
      assert after.arrays[..|sizes|] == a.arrays;
      assert after.arrays[|sizes|].data == memory[Sum(sizes)..Sum(sizes) + call.size];
    }
    forall r: nat ensures Shut(cs, rs, r) == Shut(calls, replies, r) {
      HistoryStep(memory, calls, replies, call, reply, r, 0);
    }
    forall r, k | 0 <= r < |Sizes(cs, rs)| && 0 <= k < Sizes(cs, rs)[r]
      ensures after.arrays[r].data[k] == ByteIn(memory, cs, rs, r, k)
    {
      HistoryStep(memory, calls, replies, call, reply, r, k);
      if r < |sizes| {
        assert after.arrays[r] == a.arrays[r];
      }
    }
  }

  lemma ToldWrite(a: Arrays, total: nat, memory: bytes, calls: seq<Call>, replies: seq<Reply>, call: Call)
    requires |calls| == |replies| && total <= |memory| && Told(a, total, memory, calls, replies)
    requires call.WriteAt? || call.Fill?
    ensures var (after, reply) := PerformArrays(a, call);
            Told(after, total, memory, calls + [call], replies + [reply])
  {
    hide Sizes, Sum, Shut, ByteIn, Splice;
    var (after, reply) := PerformArrays(a, call);
    var cs, rs, sizes := calls + [call], replies + [reply], Sizes(calls, replies);
    HistoryStep(memory, calls, replies, call, reply, 0, 0);
    forall r: nat ensures Shut(cs, rs, r) == Shut(calls, replies, r) {
      HistoryStep(memory, calls, replies, call, reply, r, 0);
    }
    forall r, k | 0 <= r < |sizes| && 0 <= k < sizes[r]
      ensures after.arrays[r].data[k] == ByteIn(memory, cs, rs, r, k)
    {
      HistoryStep(memory, calls, replies, call, reply, r, k);
      if call.WriteAt? && reply.Done? && call.r == r {
        SpliceAt(a.arrays[r].data, call.offset, call.data, k);
      }
    }
  }

  lemma ToldQuiet(a: Arrays, total: nat, memory: bytes, calls: seq<Call>, replies: seq<Reply>, call: Call)
    requires |calls| == |replies| && total <= |memory| && Told(a, total, memory, calls, replies)
    requires !call.Allocate? && !call.WriteAt? && !call.Fill?
    ensures var (after, reply) := PerformArrays(a, call);
            Told(after, total, memory, calls + [call], replies + [reply])
  {
    hide Sizes, Sum, Shut, ByteIn;
    var (after, reply) := PerformArrays(a, call);
    var cs, rs, sizes := calls + [call], replies + [reply], Sizes(calls, replies);
    HistoryStep(memory, calls, replies, call, reply, 0, 0);
    forall r: nat
      ensures Shut(cs, rs, r) == (match call
                                  case Close(q) => Shut(calls, replies, r) || (q == r && reply.Done?)
                                  case CloseMemory => r < |sizes|
                                  case _ => Shut(calls, replies, r))
    {
      HistoryStep(memory, calls, replies, call, reply, r, 0);
    }
    forall r, k | 0 <= r < |sizes| && 0 <= k < sizes[r]
      ensures after.arrays[r].data[k] == ByteIn(memory, cs, rs, r, k)
    {
      HistoryStep(memory, calls, replies, call, reply, r, k);
    }
  }

  lemma ToldStep(a: Arrays, total: nat, memory: bytes, calls: seq<Call>, replies: seq<Reply>, call: Call)
    requires |calls| == |replies| && total <= |memory| && Told(a, total, memory, calls, replies)
    ensures var (after, reply) := PerformArrays(a, call);
            Told(after, total, memory, calls + [call], replies + [reply])
  {
    hide Told, PerformArrays;
    match call
    case Allocate(_) => ToldAllocate(a, total, memory, calls, replies, call);
    case WriteAt(_, _, _) => ToldWrite(a, total, memory, calls, replies, call);
    case Fill(_, _) => ToldWrite(a, total, memory, calls, replies, call);
    case _ => ToldQuiet(a, total, memory, calls, replies, call);
  }

  lemma TakenFree(memory: bytes, at: nat, total: nat, size: nat)
    requires at + size <= total <= |memory|
    ensures memory[at..total][..size] == memory[at..at + size] && memory[at..total][size..] == memory[at + size..total]
  {
  }

  /** Separate arrays answer every call as its history says, and hold in the end what it says. */
  lemma {:induction false} ArraysTold(total: nat, memory: bytes, calls: seq<Call>)
    requires total <= |memory|
    ensures var (a, replies) := PerformAllArrays(Arrays([], memory[..total]), calls);
            && Told(a, total, memory, calls, replies)
            && forall k :: 0 <= k < |calls| ==>
                 CallReply(total, memory, calls[..k], replies[..k], calls[k], replies[k])
  {
    hide Told, PerformArrays, CallReply;
    var start := Arrays([], memory[..total]);
    var (a, replies) := PerformAllArrays(start, calls);
    if calls == [] {
      ToldNothing(total, memory);
    } else {
      var n := |calls| - 1;
      ArraysTold(total, memory, calls[..n]);
      var (before, first) := PerformAllArrays(start, calls[..n]);
      assert replies[..n] == first;
      ToldStep(before, total, memory, calls[..n], first, calls[n]);
      ToldReply(before, total, memory, calls[..n], first, calls[n]);
      assert calls[..n] + [calls[n]] == calls && first + [replies[n]] == replies;
      forall k | 0 <= k < |calls|
        ensures CallReply(total, memory, calls[..k], replies[..k], calls[k], replies[k])
      {
        if k < n {
          assert calls[..n][..k] == calls[..k] && first[..k] == replies[..k];
        }
      }
    }
  }

  /** The region memory, in every run from its construction that pushes out no page with an unsaved byte:
      every call is answered as its history of calls and replies says. A read returns the bytes last written
      to or filled into that region, an access is refused exactly outside the region or once it is closed. */
  lemma RegionsLastWritten(g: Geometry, remote: bytes, calls: seq<Call>)
    requires g.size <= |remote|
    requires NoByteLost(g, [], LowerAll(g, NewMemory(g, remote), calls))
    ensures var replies := PerformAll(g, NewMemory(g, remote), calls).1;
            forall k :: 0 <= k < |calls| ==>
              CallReply(g.size, remote, calls[..k], replies[..k], calls[k], replies[k])
  {
    hide Coherent, View, Bumped, NoByteLost, LowerAll, PerformAll, PerformAllArrays, CallReply, Told, Cut;
    NewArrays(g, remote);
    RegionIsolation(g, NewMemory(g, remote), calls);
    ArraysTold(g.size, remote, calls);
  }
}
