/** The server's side of a connection: requests decoded from a stream that arrives in arbitrary pieces. */
module RequestStream {
  import opened Bytes
  import opened Wire
  import AllocatorSpec

  const OP_INFO := 1
  const OP_READ := 2
  const OP_WRITE := 3
  const OP_PING := 4
  const OP_BLOCK_INFO := 5
  const OP_BLOCK_READ := 6
  const OP_BLOCK_WRITE := 7
  const OP_BORROW := 8
  const OP_RELEASE := 9
  const OP_KEEPALIVE := 10

  /** How many payload bytes follow an accepted header, on a buffer of `size` bytes; None when the
      operation is unknown or its range is refused. */
  function PayloadSize(h: Header, size: nat): Option<nat> {
    if h.op in {OP_INFO, OP_PING, OP_BORROW, OP_RELEASE, OP_KEEPALIVE, OP_BLOCK_INFO} then Some(0)
    else if h.op in {OP_READ, OP_WRITE} then
      if !AllocatorSpec.BytesAllowed(h.offset, h.length, size) then None
      else Some(if h.op == OP_WRITE then h.length else 0)
    else if h.op in {OP_BLOCK_READ, OP_BLOCK_WRITE} then
      if !AllocatorSpec.SectorsAllowed(h.offset, h.length, size) then None
      else Some(if h.op == OP_BLOCK_WRITE then h.length * SECTOR_SIZE else 0)
    else None
  }

  datatype Request = Request(header: Header, payload: bytes)

  predicate Accepted(r: Request, size: nat) {
    PayloadSize(r.header, size) == Some(|r.payload|)
  }

  predicate AllAccepted(requests: seq<Request>, size: nat) {
    forall r :: r in requests ==> Accepted(r, size)
  }

  function Encode(r: Request): bytes {
    PackHeader(r.header) + r.payload
  }

  function EncodeAll(requests: seq<Request>): bytes {
    if requests == [] then [] else Encode(requests[0]) + EncodeAll(requests[1..])
  }

  /** The first request of the stream, unless it is cut short or refused. */
  function DecodeOne(stream: bytes, size: nat): (r: Option<Request>)
    ensures r.Some? ==> Accepted(r.value, size) && HEADER_SIZE + |r.value.payload| <= |stream|
  {
    if |stream| < HEADER_SIZE then None
    else
      match UnpackHeader(stream[..HEADER_SIZE])
      case None => None
      case Some(h) =>
        match PayloadSize(h, size)
        case None => None
        case Some(n) =>
          if |stream| < HEADER_SIZE + n then None
          else Some(Request(h, stream[HEADER_SIZE..HEADER_SIZE + n]))
  }

  /** The requests of the stream up to the first that is cut short or refused. */
  function DecodeAll(stream: bytes, size: nat): seq<Request>
    decreases |stream|
  {
    match DecodeOne(stream, size)
    case None => []
    case Some(r) => [r] + DecodeAll(stream[HEADER_SIZE + |r.payload|..], size)
  }

  lemma DecodeEncoded(r: Request, rest: bytes, size: nat)
    requires Accepted(r, size)
    ensures DecodeOne(Encode(r) + rest, size) == Some(r)
    ensures (Encode(r) + rest)[HEADER_SIZE + |r.payload|..] == rest
  {
    var stream := Encode(r) + rest;
    UnpackPackHeader(r.header);
    assert stream[..HEADER_SIZE] == PackHeader(r.header);
    assert stream[HEADER_SIZE..HEADER_SIZE + |r.payload|] == r.payload;
  }

  lemma Regroup<T>(a: seq<T>, b: seq<T>, c: seq<T>)
    ensures a + b + c == a + (b + c)
  {
  }

  /** Decoding gives back every list of accepted requests, and then whatever follows it. */
  lemma {:induction false} StreamRoundTrip(requests: seq<Request>, rest: bytes, size: nat)
    requires AllAccepted(requests, size)
    ensures DecodeAll(EncodeAll(requests) + rest, size) == requests + DecodeAll(rest, size)
    decreases |requests|
  {
    hide PayloadSize, DecodeOne, Encode, Accepted;
    if requests == [] {
      assert EncodeAll(requests) + rest == rest;
    } else {
      var first, others := requests[0], requests[1..];
      assert first in requests;
      StreamRoundTrip(others, rest, size);
      var tail := EncodeAll(others) + rest;
      DecodeEncoded(first, tail, size);
      Regroup(Encode(first), EncodeAll(others), rest);
      Regroup([first], others, DecodeAll(rest, size));
      assert [first] + others == requests;
    }
  }

  /** The decoder invents nothing: what it accepts is accepted, and encodes to the bytes it consumed. */
  lemma {:induction false} DecodedIsPrefix(stream: bytes, size: nat)
    ensures AllAccepted(DecodeAll(stream, size), size)
    ensures EncodeAll(DecodeAll(stream, size)) <= stream
    decreases |stream|
  {
    hide PayloadSize;
    match DecodeOne(stream, size)
    case None =>
    case Some(r) =>
      var n := HEADER_SIZE + |r.payload|;
      DecodedIsPrefix(stream[n..], size);
      PackUnpackHeader(stream[..HEADER_SIZE]);
      assert Encode(r) == stream[..n];
      assert stream == stream[..n] + stream[n..];
  }

  /** A connection: the bytes that the peer sent and that are not yet received, and the bytes sent back. A
      receive returns any non-empty first part of the former, and nothing only when the peer has closed
      and all is received. */
  class Conn {
    var pending: bytes
    var sent: bytes

    constructor (pending: bytes)
      ensures this.pending == pending && sent == []
    {
      this.pending, sent := pending, [];
    }

    method Send(data: bytes)
      modifies this`sent
      ensures sent == old(sent) + data
    {
      sent := sent + data;
    }

    method Recv(max: pos) returns (data: bytes)
      modifies this`pending
      ensures |data| <= max && old(pending) == data + pending
      ensures data == [] <==> old(pending) == []
    {
      if pending == [] {
        return [];
      }
      var k: nat :| 1 <= k && k <= max && k <= |pending|;
      data := pending[..k];
      pending := pending[k..];
    }
  }

  method RecvAll(conn: Conn, size: nat) returns (data: Option<bytes>)
    modifies conn`pending
    ensures |old(conn.pending)| >= size ==>
      data == Some(old(conn.pending)[..size]) && conn.pending == old(conn.pending)[size..]
    ensures |old(conn.pending)| < size ==> data == None && conn.pending == []
  {
    var got := [];
    while |got| < size
      invariant |got| <= size && old(conn.pending) == got + conn.pending
      decreases size - |got|
    {
      var chunk := conn.Recv(Min(MAX_TRANSFER, size - |got|));
      if chunk == [] {
        return None;
      }
      got := got + chunk;
    }
    data := Some(got);
  }

  /** Receives one request: a header, then the payload that the header calls for. */
  method ReceiveRequest(conn: Conn, size: nat) returns (r: Option<Request>)
    modifies conn`pending
    ensures r == DecodeOne(old(conn.pending), size)
    ensures r.Some? ==> conn.pending == old(conn.pending)[HEADER_SIZE + |r.value.payload|..]
  {
    hide PayloadSize, UnpackHeader;
    ghost var stream := conn.pending;
    var header := RecvAll(conn, HEADER_SIZE);
    if header.None? {
      return None;
    }
    var h := UnpackHeader(header.value);
    if h.None? {
      return None;
    }
    var n := PayloadSize(h.value, size);
    if n.None? {
      return None;
    }
    var payload := RecvAll(conn, n.value);
    if payload.None? {
      return None;
    }
    assert stream[HEADER_SIZE..][..n.value] == stream[HEADER_SIZE..HEADER_SIZE + n.value];
    r := Some(Request(h.value, payload.value));
  }
}
