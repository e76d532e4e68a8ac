/** One connection of the phone's server: its decode loop drives the allocator and sends the replies. */
module Connections {
  import opened Bytes
  import opened Wire
  import opened RequestStream
  import opened RequestCodec
  import opened ReplyAlignment
  import A = AllocatorSpec
  import opened AllocatorRuns
  import Leases
  import opened TermuxServers

  // ---- Replies on the wire ----

  /** The reply carries what the allocator answered. */
  predicate Carries(s: Sent, reply: A.Reply) {
    match reply
    case Granted(id, offset, length) => s.header.offset == id && UnpackLease(s.body) == Some((id, offset, length))
    case Sectors(size, count) => |s.body| == 16 && Unpack(s.body[..8]) == size && Unpack(s.body[8..]) == count
    case Data(data) => s.body == data
    case Pong => s.body == [80, 79, 78, 71]
    case Done => s.body == []
    case Active(_) => true
    case Failed => false
  }

  /** What the server sends for an answer, with the text of an INFO reply; nothing for a failure, and
      nothing for a number too large for its field. */
  function Answer(r: Request, reply: A.Reply, text: bytes): Option<Sent> {
    var h := r.header;
    match reply
    case Active(_) =>
      if |text| < Pow256(4) && OP_INFO < Pow256(1) then Widths(); Some(Sent(HeaderFields(OP_INFO, 0, |text|), text))
      else None
    case Pong => Widths(); Some(Sent(HeaderFields(OP_PING, 0, 4), [80, 79, 78, 71]))
    case Granted(id, offset, length) =>
      if id < Pow256(8) && offset < Pow256(8) && length < Pow256(8) then
        Widths(); Some(Sent(HeaderFields(OP_BORROW, id, 24), PackLease(id, offset, length)))
      else None
    case Sectors(size, count) =>
      if size < Pow256(8) && count < Pow256(8) then
        Widths(); Some(Sent(HeaderFields(OP_BLOCK_INFO, 0, 16), Pack(size, 8) + Pack(count, 8)))
      else None
    case Data(data) => Some(Sent(h, data))
    case Done =>
      Widths();
      Some(Sent(if h.op in {OP_RELEASE, OP_KEEPALIVE} then HeaderFields(h.op, h.offset, 0) else h, []))
    case Failed => None
  }

  /** A number of the answer does not fit its field on the wire. */
  predicate TooLarge(reply: A.Reply, text: bytes) {
    match reply
    case Active(_) => |text| >= 0x1_0000_0000
    case Granted(id, offset, length) =>
      id >= 0x1_0000_0000_0000_0000 || offset >= 0x1_0000_0000_0000_0000 || length >= 0x1_0000_0000_0000_0000
    case Sectors(size, count) => size >= 0x1_0000_0000_0000_0000 || count >= 0x1_0000_0000_0000_0000
    case _ => false
  }

  lemma AnswerCarries(r: Request, reply: A.Reply, text: bytes)
    ensures var sent := Answer(r, reply, text);
            && (sent.None? <==> reply.Failed? || TooLarge(reply, text))
            && (sent.Some? ==> Carries(sent.value, reply))
  {
    Widths();
    match reply
    case Granted(id, offset, length) => if !TooLarge(reply, text) { LeaseReply(id, offset, length); }
    case Sectors(size, count) =>
      if !TooLarge(reply, text) {
        var b := Pack(size, 8) + Pack(count, 8);
        assert b[..8] == Pack(size, 8) && b[8..] == Pack(count, 8);
        UnpackPack(size, 8);
        UnpackPack(count, 8);
      }
    case _ =>
  }

  /** Which answers a request can get. */
  lemma AnswerFits(r: Request, s: A.Server, e: A.Event)
    requires Accepted(r, s.size) && s.kind.Phone? && A.Invariant(s) && A.Legal(s, e) && e.request == Meaning(r)
    ensures match A.Step(s, e).1
            case Failed => r.header.op in {8, 9, 10}
            case Active(_) => r.header.op == 1
            case Pong => r.header.op == 4
            case Granted(_, _, _) => r.header.op == 8
            case Sectors(_, _) => r.header.op == 5
            case Done => r.header.op in {3, 7, 9, 10}
            case Data(data) =>
              (r.header.op == 2 && |data| == r.header.length) || (r.header.op == 6 && |data| == 512 * r.header.length)
  {
    hide A.ValidRange, Leases.WellPlaced, Leases.AliveDisjoint, Leases.AllDisjoint, A.LegalBorrow;
  }

  lemma AnswerIsReply(r: Request, s: A.Server, e: A.Event, text: bytes)
    requires Accepted(r, s.size) && s.kind.Phone? && A.Invariant(s) && A.Legal(s, e) && e.request == Meaning(r)
    requires Answer(r, A.Step(s, e).1, text).Some?
    ensures IsReply(r, Answer(r, A.Step(s, e).1, text).value)
  {
    hide A.Step, A.Legal, A.Invariant, Accepted, Meaning, PackLease;
    Widths();
    AnswerFits(r, s, e);
  }

  // ---- The order of the requests ----

  /** The events are the first requests of the stream, one by one. */
  ghost predicate InOrder(events: seq<A.Event>, requests: seq<Request>) {
    |events| <= |requests| && forall k :: 0 <= k < |events| ==> events[k].request == Meaning(requests[k])
  }

  lemma InOrderMore(events: seq<A.Event>, e: A.Event, all: seq<Request>, r: Request, rest: seq<Request>)
    requires InOrder(events, all) && all[|events|..] == [r] + rest && e.request == Meaning(r)
    ensures InOrder(events + [e], all) && all[|events + [e]|..] == rest
    ensures |all| > |events| && all[|events|] == r
  {
    assert all[|events|] == ([r] + rest)[0];
    assert all[|events| + 1..] == all[|events|..][1..];
  }

  lemma InOrderEnd(events: seq<A.Event>, all: seq<Request>)
    requires InOrder(events, all) && all[|events|..] == []
    ensures |events| == |all|
  {
  }

  lemma DecodeStep(stream: bytes, size: nat)
    ensures match DecodeOne(stream, size)
            case None => DecodeAll(stream, size) == []
            case Some(r) =>
              && Accepted(r, size)
              && DecodeAll(stream, size) == [r] + DecodeAll(stream[HEADER_SIZE + |r.payload|..], size)
  {
    hide DecodeOne, Accepted;
  }

  /** Each reply sent is one that its request may get, and carries what the allocator answered. */
  predicate Answered(requests: seq<Request>, replies: seq<A.Reply>, answers: seq<Sent>) {
    && |answers| <= |replies| && |answers| <= |requests|
    && forall k :: 0 <= k < |answers| ==> IsReply(requests[k], answers[k]) && Carries(answers[k], replies[k])
  }

  lemma AnsweredMore(requests: seq<Request>, replies: seq<A.Reply>, answers: seq<Sent>, reply: A.Reply, s: Sent)
    requires Answered(requests, replies, answers) && |answers| == |replies| < |requests|
    requires IsReply(requests[|answers|], s) && Carries(s, reply)
    ensures Answered(requests, replies + [reply], answers + [s])
  {
    hide IsReply, Carries;
  }

  lemma AnsweredSame(requests: seq<Request>, replies: seq<A.Reply>, answers: seq<Sent>, reply: A.Reply)
    requires Answered(requests, replies, answers)
    ensures Answered(requests, replies + [reply], answers)
  {
    hide IsReply, Carries;
  }

  lemma {:induction false} StreamMore(answers: seq<Sent>, s: Sent)
    ensures Stream(answers + [s]) == Stream(answers) + (PackHeader(s.header) + s.body)
    decreases |answers|
  {
    hide PackHeader;
    if answers == [] {
      assert [] + [s] == [s] && [s][1..] == [];
      assert Stream([s]) == PackHeader(s.header) + s.body + Stream([]);
      assert Stream([]) == [] && PackHeader(s.header) + s.body + [] == PackHeader(s.header) + s.body;
    } else {
      var first, rest := answers[0], answers[1..];
      assert (answers + [s])[1..] == rest + [s];
      StreamMore(rest, s);
      Regroup(PackHeader(first.header) + first.body, Stream(rest), PackHeader(s.header) + s.body);
    }
  }

  // ---- The loop ----

  /** The text of an INFO reply, which is not modelled. */
  method InfoText() returns (text: bytes)
  {
    text := *;
  }

  /** The requests that the peer sent first were carried out as it asked. */
  predicate AsAsked(asked: seq<A.Request>, events: seq<A.Event>) {
    forall k :: 0 <= k < |events| && k < |asked| ==> events[k].request == asked[k]
  }

  lemma AskedInOrder(asked: seq<A.Request>, rest: bytes, size: nat, events: seq<A.Event>)
    requires AllSendable(asked) && AllServable(asked, size) && size % 512 == 0
    requires InOrder(events, DecodeAll(EncodeAll(EncodedAll(asked)) + rest, size))
    ensures AsAsked(asked, events) && |asked| <= |DecodeAll(EncodeAll(EncodedAll(asked)) + rest, size)|
  {
    hide Meaning, DecodeAll, EncodeAll;
    AskedRoundTrip(asked, rest, size);
  }

  /** The client takes exactly the replies sent if and only if none of them is misannounced. */
  lemma RepliesAlign(requests: seq<Request>, replies: seq<A.Reply>, answers: seq<Sent>, size: nat)
    requires Answered(requests, replies, answers) && AllAccepted(requests, size)
    ensures TakeReplies(Stream(answers), |answers|) == Some((Bodies(answers), []))
            <==> forall k :: 0 <= k < |answers| ==> !Misannounced(requests[k])
  {
    hide IsReply, Carries, Misannounced, Accepted, TakeReplies, Stream;
    var first := requests[..|answers|];
    AlignedIff(first, answers, size);
    assert forall r :: r in first ==> exists k :: 0 <= k < |answers| && requests[k] == r;
    forall k | 0 <= k < |answers| ensures requests[k] in first {
      assert first[k] == requests[k];
    }
  }

  /** The decode loop of a connection whose peer sent the requests `asked` and then any bytes at all,
      however they are split on arrival. It carries them out in order, as one run of the allocator, and
      sends a reply that carries the answer of each, up to the first that gets none: one that the allocator
      refuses, or an answer too large for its field. Otherwise it goes on to the first request that is
      malformed, out of range or cut short. */
  method Client(conn: Conn, server: RAMLinkServer, ghost asked: seq<A.Request>, ghost rest: bytes)
    returns (replies: seq<A.Reply>, ghost events: seq<A.Event>, ghost answers: seq<Sent>)
    requires server.Valid()
    requires AllSendable(asked) && AllServable(asked, server.size)
    requires conn.pending == EncodeAll(EncodedAll(asked)) + rest
    modifies conn, server.book, server.book.repr, server.memory, server.book.clock
    ensures server.Valid() && old(A.Invariant(server.State()))
    ensures LegalRun(old(server.State()), events)
    ensures (server.State(), replies) == Run(old(server.State()), events)
    ensures AsAsked(asked, events)
    ensures InOrder(events, DecodeAll(old(conn.pending), server.size))
    ensures conn.sent == old(conn.sent) + Stream(answers)
    ensures Answered(DecodeAll(old(conn.pending), server.size), replies, answers)
    ensures |answers| <= |events| <= |answers| + 1
    ensures |events| < |asked| || |events| < |DecodeAll(old(conn.pending), server.size)| ==> |answers| < |events|
    ensures |answers| < |events| ==>
      replies[|answers|].Failed? || exists text :: TooLarge(replies[|answers|], text)
    ensures TakeReplies(Stream(answers), |answers|) == Some((Bodies(answers), []))
            <==> forall k :: 0 <= k < |answers| ==> !Misannounced(DecodeAll(old(conn.pending), server.size)[k])
  {
    hide DecodeOne, DecodeAll, Accepted, Meaning, InOrder, Answered, Stream, EncodeAll, Answer, Carries, IsReply,
      TakeReplies, Misannounced, TooLarge, A.Invariant, A.Legal, A.Step, Run, LegalRun;
    replies, events, answers := [], [], [];
    ghost var start, all := server.State(), DecodeAll(conn.pending, server.size);
    NothingServed(start, all);
    WholeSectors(start);
    DecodedIsPrefix(conn.pending, server.size);
    assert conn.sent == conn.sent + [];
    while true
      invariant server.Valid() && fresh(server.book.repr - old(server.book.repr))
      invariant A.Invariant(start) && LegalRun(start, events) && (server.State(), replies) == Run(start, events)
      invariant |events| <= |all| && InOrder(events, all) && all[|events|..] == DecodeAll(conn.pending, server.size)
      invariant |answers| == |events| == |replies| && Answered(all, replies, answers)
      invariant conn.sent == old(conn.sent) + Stream(answers)
      decreases |conn.pending|
    {
      DecodeStep(conn.pending, server.size);
      var r := ReceiveRequest(conn, server.size);
      if r.None? {
        InOrderEnd(events, all);
        break;
      }
      ghost var before := server.State();
      BlockPayload(r.value, server.size);
      var reply;
      ghost var e;
      reply, e := server.Handle(Meaning(r.value));
      RunSnoc(start, events, e);
      InOrderMore(events, e, all, r.value, DecodeAll(conn.pending, server.size));
      var text := InfoText();
      var answer := Answer(r.value, reply, text);
      AnswerCarries(r.value, reply, text);
      if answer.None? {
        AnsweredSame(all, replies, answers, reply);
        replies, events := replies + [reply], events + [e];
        break;
      }
      AnswerIsReply(r.value, before, e, text);
      AnsweredMore(all, replies, answers, reply, answer.value);
      StreamMore(answers, answer.value);
      Regroup(old(conn.sent), Stream(answers), PackHeader(answer.value.header) + answer.value.body);
      conn.Send(PackHeader(answer.value.header) + answer.value.body);
      replies, events, answers := replies + [reply], events + [e], answers + [answer.value];
    }
    AskedInOrder(asked, rest, server.size, events);
    RepliesAlign(all, replies, answers, server.size);
  }

  lemma NothingServed(s: A.Server, all: seq<Request>)
    requires A.Invariant(s)
    ensures LegalRun(s, []) && Run(s, []) == (s, [])
    ensures InOrder([], all) && all[0..] == all && Answered(all, [], []) && Stream([]) == []
  {
  }

  lemma WholeSectors(s: A.Server)
    requires A.Invariant(s)
    ensures s.size % 512 == 0
  {
  }

  /** The payload of an accepted block write is as many whole sectors as its header says. */
  lemma BlockPayload(r: Request, size: nat)
    requires Accepted(r, size)
    ensures Meaning(r).BlockWrite? ==> |Meaning(r).data| == Meaning(r).count * SECTOR_SIZE
  {
  }
}
