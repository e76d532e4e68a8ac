/** The requests of the allocator on the wire: what a client sends for each, and what the server takes an
    accepted request to ask. */
module RequestCodec {
  import opened Bytes
  import opened Wire
  import opened RequestStream
  import A = AllocatorSpec

  /** What an accepted request asks of the allocator. */
  function Meaning(r: Request): A.Request {
    var h := r.header;
    if h.op == OP_INFO then A.Info
    else if h.op == OP_READ then A.Read(h.offset, h.length)
    else if h.op == OP_WRITE then A.Write(h.offset, r.payload)
    else if h.op == OP_BLOCK_INFO then A.BlockInfo
    else if h.op == OP_BLOCK_READ then A.BlockRead(h.offset, h.length)
    else if h.op == OP_BLOCK_WRITE then A.BlockWrite(h.offset, h.length, r.payload)
    else if h.op == OP_BORROW then A.Borrow(h.length)
    else if h.op == OP_RELEASE then A.Release(h.offset)
    else if h.op == OP_KEEPALIVE then A.KeepAlive(h.offset)
    else A.Ping
  }

  /** The request fits the field widths of the header. */
  predicate Sendable(q: A.Request) {
    match q
    case Borrow(requested) => requested < 0x1_0000_0000
    case Release(id) => id < 0x1_0000_0000_0000_0000
    case KeepAlive(id) => id < 0x1_0000_0000_0000_0000
    case Read(offset, length) => offset < 0x1_0000_0000_0000_0000 && length < 0x1_0000_0000
    case Write(offset, data) => offset < 0x1_0000_0000_0000_0000 && |data| < 0x1_0000_0000
    case BlockRead(sector, count) => sector < 0x1_0000_0000_0000_0000 && count < 0x1_0000_0000
    case BlockWrite(sector, count, data) =>
      sector < 0x1_0000_0000_0000_0000 && count < 0x1_0000_0000 && |data| == 512 * count
    case _ => true
  }

  lemma Widths()
    ensures Pow256(1) == 0x100 && Pow256(4) == 0x1_0000_0000 && Pow256(8) == 0x1_0000_0000_0000_0000
  {
    assert Pow256(2) == 0x1_0000 && Pow256(3) == 0x100_0000;
    assert Pow256(5) == 0x100_0000_0000 && Pow256(6) == 0x1_0000_0000_0000 && Pow256(7) == 0x100_0000_0000_0000;
  }

  /** What a client sends for a request. Fields that the operation does not use are 0. */
  function Encoded(q: A.Request): Request
    requires Sendable(q)
  {
    Widths();
    match q
    case Info => Request(HeaderFields(1, 0, 0), [])
    case Read(offset, length) => Request(HeaderFields(2, offset, length), [])
    case Write(offset, data) => Request(HeaderFields(3, offset, |data|), data)
    case Ping => Request(HeaderFields(4, 0, 0), [])
    case BlockInfo => Request(HeaderFields(5, 0, 0), [])
    case BlockRead(sector, count) => Request(HeaderFields(6, sector, count), [])
    case BlockWrite(sector, count, data) => Request(HeaderFields(7, sector, count), data)
    case Borrow(requested) => Request(HeaderFields(8, 0, requested), [])
    case Release(id) => Request(HeaderFields(9, id, 0), [])
    case KeepAlive(id) => Request(HeaderFields(10, id, 0), [])
  }

  /** The server takes what a client sends for a request to ask that request, on every request that can be
      sent at all. */
  lemma MeaningOfEncoded(q: A.Request)
    requires Sendable(q)
    ensures Meaning(Encoded(q)) == q
  {
  }

  /** The server accepts a request exactly if its range lies in the buffer and in one transfer of a MiB. */
  predicate Servable(q: A.Request, size: nat) {
    match q
    case Read(offset, length) => length <= 1048576 && offset + length <= size
    case Write(offset, data) => |data| <= 1048576 && offset + |data| <= size
    case BlockRead(sector, count) => 512 * count <= 1048576 && 512 * (sector + count) <= size
    case BlockWrite(sector, count, _) => 512 * count <= 1048576 && 512 * (sector + count) <= size
    case _ => true
  }

  lemma AcceptedIff(q: A.Request, size: nat)
    requires Sendable(q) && size % 512 == 0
    ensures Accepted(Encoded(q), size) <==> Servable(q, size)
  {
  }

  /** The fields that an operation uses; the server looks at no other. */
  predicate SameFields(r: Request, s: Request) {
    && r.header.op == s.header.op && r.payload == s.payload
    && (r.header.op in {2, 3, 6, 7, 9, 10} ==> r.header.offset == s.header.offset)
    && (r.header.op in {2, 3, 6, 7, 8} ==> r.header.length == s.header.length)
  }

  /** Conversely every accepted request is what a client sends for what the server takes it to ask, but for
      the fields that its operation does not use; and exactly so when those are 0. */
  lemma EncodedMeaning(r: Request, size: nat)
    requires Accepted(r, size) && size % 512 == 0
    ensures Sendable(Meaning(r)) && Servable(Meaning(r), size)
    ensures SameFields(r, Encoded(Meaning(r)))
    ensures r == Encoded(Meaning(r)) <==>
            && (r.header.op in {1, 4, 5, 8} ==> r.header.offset == 0)
            && (r.header.op in {1, 4, 5, 9, 10} ==> r.header.length == 0)
  {
    Widths();
  }

  // ---- Lists of requests ----

  predicate AllSendable(asked: seq<A.Request>) {
    forall k :: 0 <= k < |asked| ==> Sendable(asked[k])
  }

  predicate AllServable(asked: seq<A.Request>, size: nat) {
    forall k :: 0 <= k < |asked| ==> Servable(asked[k], size)
  }

  function EncodedAll(asked: seq<A.Request>): (r: seq<Request>)
    requires AllSendable(asked)
    ensures |r| == |asked| && forall k :: 0 <= k < |r| ==> r[k] == Encoded(asked[k])
  {
    seq(|asked|, k requires 0 <= k < |asked| && AllSendable(asked) => Encoded(asked[k]))
  }

  /** The server recovers from the bytes of a list of servable requests exactly that list, and then decodes
      whatever follows. */
  lemma AskedRoundTrip(asked: seq<A.Request>, rest: bytes, size: nat)
    requires AllSendable(asked) && AllServable(asked, size) && size % 512 == 0
    ensures var all := DecodeAll(EncodeAll(EncodedAll(asked)) + rest, size);
            && |asked| <= |all|
            && (forall k :: 0 <= k < |asked| ==> Meaning(all[k]) == asked[k])
            && all[|asked|..] == DecodeAll(rest, size)
  {
    hide Encoded, Meaning, Accepted, Servable, DecodeAll, EncodeAll;
    var requests := EncodedAll(asked);
    forall r | r in requests ensures Accepted(r, size) {
      var k :| 0 <= k < |requests| && requests[k] == r;
      AcceptedIff(asked[k], size);
    }
    StreamRoundTrip(requests, rest, size);
    forall k | 0 <= k < |asked| ensures Meaning(requests[k]) == asked[k] {
      MeaningOfEncoded(asked[k]);
    }
  }
}
