/** The client's side of a connection: each reply is a header and as many bytes as its length says. */
module ReplyAlignment {
  import opened Bytes
  import opened Wire
  import opened RequestStream

  /** What the server sends back. */
  datatype Sent = Sent(header: Header, body: bytes)

  /** The replies the server may give to a request it has accepted. */
  predicate IsReply(r: Request, s: Sent) {
    && s.header.op == r.header.op
    && if r.header.op == OP_INFO then s.header.offset == 0 && s.header.length == |s.body|
       else if r.header.op == OP_PING then s.header.offset == 0 && s.header.length == 4 && s.body == [80, 79, 78, 71]
       else if r.header.op == OP_BORROW then s.header.length == 24 && |s.body| == 24
       else if r.header.op == OP_BLOCK_INFO then s.header.offset == 0 && s.header.length == 16 && |s.body| == 16
       else if r.header.op in {OP_RELEASE, OP_KEEPALIVE} then
         s.header.offset == r.header.offset && s.header.length == 0 && s.body == []
       else
         && s.header.offset == r.header.offset && s.header.length == r.header.length
         && |s.body| == (if r.header.op == OP_READ then r.header.length
                         else if r.header.op == OP_BLOCK_READ then r.header.length * SECTOR_SIZE
                         else 0)
  }

  /** The header announces a number of bytes that the body has not. */
  predicate Misannounced(r: Request) {
    r.header.op in {OP_WRITE, OP_BLOCK_READ, OP_BLOCK_WRITE} && r.header.length > 0
  }

  lemma MisannouncedIff(r: Request, s: Sent, size: nat)
    requires Accepted(r, size) && IsReply(r, s)
    ensures Misannounced(r) <==> s.header.length != |s.body|
  {
  }

  /** The bytes on the wire. */
  function Stream(sent: seq<Sent>): bytes {
    if sent == [] then [] else PackHeader(sent[0].header) + sent[0].body + Stream(sent[1..])
  }

  function Bodies(sent: seq<Sent>): seq<bytes> {
    if sent == [] then [] else [sent[0].body] + Bodies(sent[1..])
  }

  /** One reply as the client takes it: a header, then as many bytes as its length says. */
  function TakeReply(stream: bytes): (r: Option<(bytes, bytes)>) {
    if |stream| < HEADER_SIZE then None
    else
      match UnpackHeader(stream[..HEADER_SIZE])
      case None => None
      case Some(h) =>
        if |stream| < HEADER_SIZE + h.length then None
        else Some((stream[HEADER_SIZE..HEADER_SIZE + h.length], stream[HEADER_SIZE + h.length..]))
  }

  /** `n` replies one after the other, and the bytes left over; None when the client waits for more
      bytes than were sent or gives up on a wrong magic. */
  function TakeReplies(stream: bytes, n: nat): Option<(seq<bytes>, bytes)> {
    if n == 0 then Some(([], stream))
    else
      match TakeReply(stream)
      case None => None
      case Some((body, rest)) =>
        match TakeReplies(rest, n - 1)
        case None => None
        case Some((bodies, left)) => Some(([body] + bodies, left))
  }

  lemma TakeSent(s: Sent, rest: bytes)
    ensures var stream := PackHeader(s.header) + s.body + rest;
            && (s.header.length == |s.body| ==> TakeReply(stream) == Some((s.body, rest)))
            && (TakeReply(stream).Some? ==> |TakeReply(stream).value.0| == s.header.length)
  {
    var stream := PackHeader(s.header) + s.body + rest;
    UnpackPackHeader(s.header);
    assert stream[..HEADER_SIZE] == PackHeader(s.header);
    if s.header.length == |s.body| {
      assert stream[HEADER_SIZE..HEADER_SIZE + |s.body|] == s.body;
      assert stream[HEADER_SIZE + |s.body|..] == rest;
    }
  }

  predicate StartsWith(stream: bytes, h: Header, body: bytes, rest: bytes) {
    stream == PackHeader(h) + body + rest && h.length == |body|
  }

  /** What the client takes as a reply, exactly: a header with the magic, and as many bytes as it says. */
  lemma TakeReplyIff(stream: bytes, body: bytes, rest: bytes)
    ensures TakeReply(stream) == Some((body, rest)) <==> exists h: Header :: StartsWith(stream, h, body, rest)
  {
    if exists h: Header :: StartsWith(stream, h, body, rest) {
      var h: Header :| StartsWith(stream, h, body, rest);
      TakeSent(Sent(h, body), rest);
    }
    if TakeReply(stream) == Some((body, rest)) {
      var h := UnpackHeader(stream[..HEADER_SIZE]).value;
      PackUnpackHeader(stream[..HEADER_SIZE]);
      assert StartsWith(stream, h, body, rest);
    }
  }

  /** The client takes exactly the replies that were sent, to the last byte, if and only if no request
      was a WRITE, BLOCK_READ or BLOCK_WRITE of non-zero length. */
  lemma {:induction false} AlignedIff(requests: seq<Request>, sent: seq<Sent>, size: nat)
    requires |requests| == |sent| && AllAccepted(requests, size)
    requires forall i :: 0 <= i < |sent| ==> IsReply(requests[i], sent[i])
    ensures TakeReplies(Stream(sent), |sent|) == Some((Bodies(sent), []))
            <==> (forall r :: r in requests ==> !Misannounced(r))
    decreases |sent|
  {
    hide IsReply, Misannounced, TakeReply, Accepted;
    if sent != [] {
      var r, s, rest := requests[0], sent[0], Stream(sent[1..]);
      assert r in requests && IsReply(r, s);
      MisannouncedIff(r, s, size);
      TakeSent(s, rest);
      AlignedIff(requests[1..], sent[1..], size);
      assert requests == [r] + requests[1..];
      var all := Bodies(sent);
      assert all[0] == s.body && all[1..] == Bodies(sent[1..]);
      if TakeReplies(Stream(sent), |sent|) == Some((all, [])) {
        var body := TakeReply(Stream(sent)).value.0;
        assert all[0] == body;
      }
    }
  }
}
