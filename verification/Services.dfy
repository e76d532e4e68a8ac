/** The memory service as the object the local API drives: it borrows over a network that may break at
    any request, and cuts reads and writes into chunks. */
module Services {
  import opened Bytes
  import opened ServiceSpec
  import opened Transfers

  datatype Reply = Data(data: bytes) | Done | Refused | Raised

  const MIB: pos := 1024 * 1024

  lemma RunLast(history: seq<Event>, e: Event)
    ensures Run(history + [e]) == Step(Run(history), e)
  {
    assert (history + [e])[..|history|] == history;
  }

  /** The events of a transfer's requests. */
  function Requests(lucks: seq<Luck>): seq<Event> {
    seq(|lucks|, k requires 0 <= k < |lucks| => Request(lucks[k]))
  }

  lemma TransferMore(lucks: seq<Luck>, luck: Luck)
    ensures var more := lucks + [luck];
            more[..|lucks|] == lucks && more[|lucks|] == luck && Requests(more) == Requests(lucks) + [Request(luck)]
  {
  }

  lemma NextPiece(total: nat, k: nat)
    requires Reach(total, k) < total
    ensures PieceSize(total, k) == Min(MAX_TRANSFER, total - Reach(total, k)) > 0
  {
  }

  lemma NextWrite(data: bytes, k: nat)
    requires Reach(|data|, k) < |data|
    ensures var pos := Reach(|data|, k); var n := Min(MAX_TRANSFER, |data| - pos);
            n > 0 && Piece(data, k) == data[pos..pos + n] && Reach(|data|, k + 1) == pos + n
  {
  }

  /** One more chunk of a write. */
  lemma WriteMore(size: nat, want: nat, c: Client, memory: bytes, offset: nat, data: bytes, lucks: seq<Luck>,
                  luck: Luck)
    requires Answered(size, want, c, offset, |data|, lucks) && Reach(|data|, |lucks|) < |data|
    requires Possible(size, want, Address(c, offset, |data|, lucks), |Piece(data, |lucks|)|, luck)
    requires Reachable(After(c, lucks).connected, luck)
    ensures var more, ask := lucks + [luck], AskWrite(Piece(data, |lucks|));
            var address := Address(c, offset, |data|, lucks);
            && Progress(size, want, c, offset, |data|, more)
            && (luck.Works() <==> Answered(size, want, c, offset, |data|, more))
            && Written(c, memory, offset, data, more) ==
               MemoryAfter(Written(c, memory, offset, data, lucks), address, ask, luck)
            && WriteAsks(c, want, offset, data, more) ==
               WriteAsks(c, want, offset, data, lucks)
               + Attempts(After(c, lucks).connected, want, address, ask, luck)
            && After(c, more) == Step(After(c, lucks), Request(luck))
            && Requests(more) == Requests(lucks) + [Request(luck)]
  {
    hide Possible, Step, MemoryAfter, Reach, Piece;
    TransferMore(lucks, luck);
  }

  /** One more chunk of a read. */
  lemma ReadMore(size: nat, want: nat, c: Client, memory: bytes, offset: nat, total: nat, lucks: seq<Luck>, luck: Luck)
    requires |memory| == size
    requires Answered(size, want, c, offset, total, lucks) && Reach(total, |lucks|) < total
    requires Possible(size, want, Address(c, offset, total, lucks), PieceSize(total, |lucks|), luck)
    requires Reachable(After(c, lucks).connected, luck)
    ensures var more, n := lucks + [luck], PieceSize(total, |lucks|);
            var address, (before, out) := Address(c, offset, total, lucks), ReadOver(c, memory, offset, total, lucks);
            var after := MemoryAfter(before, address, AskRead(n), luck);
            && Progress(size, want, c, offset, total, more)
            && (luck.Works() <==> Answered(size, want, c, offset, total, more))
            && ReadOver(c, memory, offset, total, more).0 == after
            && (address + n <= size ==>
                  ReadOver(c, memory, offset, total, more).1 == out + Slice(after, address, n))
            && ReadAsks(c, want, offset, total, more) ==
               ReadAsks(c, want, offset, total, lucks)
               + Attempts(After(c, lucks).connected, want, address, AskRead(n), luck)
            && After(c, more) == Step(After(c, lucks), Request(luck))
            && Requests(more) == Requests(lucks) + [Request(luck)]
  {
    hide Possible, Step, MemoryAfter, Reach, Slice;
    TransferMore(lucks, luck);
  }

  lemma NoRequests()
    ensures Requests([]) == []
  {
  }

  lemma NothingWritten(size: nat, want: nat, c: Client, memory: bytes, offset: nat, data: bytes)
    ensures Reach(|data|, 0) == 0 && Answered(size, want, c, offset, |data|, []) && After(c, []) == c
    ensures Written(c, memory, offset, data, []) == memory && WriteAsks(c, want, offset, data, []) == []
  {
  }

  lemma NothingRead(size: nat, want: nat, c: Client, memory: bytes, offset: nat, total: nat)
    ensures Reach(total, 0) == 0 && Answered(size, want, c, offset, total, []) && After(c, []) == c
    ensures ReadOver(c, memory, offset, total, []) == (memory, []) && ReadAsks(c, want, offset, total, []) == []
  {
  }

  lemma WrittenHere(memory: bytes, address: nat, ask: Ask)
    ensures ask.AskWrite? && address + |ask.data| <= |memory| ==>
              Slice(Served(memory, address, ask, true), address, |ask.data|) == ask.data
  {
  }

  /** The server's buffer behind a network. Any attempt may break, before or after it is served. */
  class Network {
    var memory: bytes
    // Every request sent so far.
    ghost var asked: seq<Message>

    constructor (memory: bytes)
      ensures this.memory == memory && asked == []
    {
      this.memory, asked := memory, [];
    }

    /** A new socket and a BORROW of whole sectors: the granted block is zeroed. */
    method Borrow(length: nat) returns (grant: Option<Grant>)
      modifies this
      ensures asked == old(asked) + [Lend(length, grant)]
      ensures match grant
              case Some(g) => g.length == length && Granted(|memory|, g) && memory == Zeroed(old(memory), g)
              case None => memory == old(memory)
    {
      var works: bool, id: pos, base: nat := *, *, *;
      grant := None;
      if works && base + length <= |memory| {
        memory := Splice(memory, base, Zeros(length));
        grant := Some(Grant(id, base, length));
      }
      asked := asked + [Lend(length, grant)];
    }

    /** A READ or WRITE of at most one transfer at an absolute address, sent if there is a socket. The
        acknowledgement of a write is taken as a header without a body. */
    method Exchange(connected: bool, address: nat, ask: Ask) returns (body: Option<bytes>, ghost served: bool)
      requires ask.Size() <= MAX_TRANSFER
      modifies this
      ensures asked == old(asked) + if connected then [Access(address, ask)] else []
      ensures memory == Served(old(memory), address, ask, served)
      ensures body.Some? || served ==> connected
      ensures body.Some? ==>
        && served && address + ask.Size() <= |memory|
        && body.value == if ask.AskRead? then Slice(memory, address, ask.n) else []
    {
      var arrives: bool, answered: bool := *, *;
      body, served := None, arrives && connected && address + ask.Size() <= |memory|;
      if !connected {
        return;
      }
      asked := asked + [Access(address, ask)];
      if arrives && address + ask.Size() <= |memory| {
        var found := [];
        match ask {
          case AskRead(n) => found := memory[address..address + n];
          case AskWrite(data) => memory := Splice(memory, address, data);
        }
        if answered {
          body := Some(found);
        }
      }
    }

    /** A KEEPALIVE or RELEASE. */
    method Signal(ghost message: Message) returns (works: bool)
      modifies this`asked
      ensures asked == old(asked) + [message]
    {
      asked := asked + [message];
      works := *;
    }
  }

  class RemoteMemory {
    const network: Network
    const megabytes: pos
    var connected: bool
    var leaseId: nat
    var baseOffset: nat
    var length: nat
    var reconnects: nat
    // What happened so far.
    ghost var history: seq<Event>

    constructor (network: Network, megabytes: pos)
      ensures this.network == network && Valid() && history == []
    {
      this.network, this.megabytes := network, megabytes;
      connected, leaseId, baseOffset, length, reconnects, history := false, 0, 0, 0, 0, [];
    }

    ghost function State(): Client
      reads this
    {
      Client(connected, leaseId, baseOffset, length, reconnects)
    }

    ghost predicate Valid()
      reads this
    {
      State() == Run(history) && (length == 0 || length == megabytes * MIB)
    }

    /** One BORROW of the configured number of MiB is sent, and the lease held is the one that came back. */
    method ConnectAndBorrow() returns (works: bool, ghost e: Event)
      requires Valid()
      modifies this, network
      ensures Valid() && history == old(history) + [e] && State() == Step(old(State()), e)
      ensures e.Connect? && (works <==> e.grant.Some?)
      ensures network.asked == old(network.asked) + [Lend(megabytes * 1048576, e.grant)]
      ensures match e.grant
              case Some(g) =>
                && Granted(|network.memory|, g) && network.memory == Zeroed(old(network.memory), g)
                && connected && leaseId == g.id && baseOffset == g.base && length == g.length == megabytes * 1048576
              case None => network.memory == old(network.memory) && State() == old(State())
    {
      hide Run, Zeroed;
      var grant := network.Borrow(megabytes * MIB);
      e := Connect(grant);
      RunLast(history, e);
      history := history + [e];
      if grant.None? {
        return false, e;
      }
      Hold(grant.value);
      works := true;
    }

    method Hold(grant: Grant)
      modifies this`connected, this`leaseId, this`baseOffset, this`length
      ensures State() == Holding(old(State()), grant)
    {
      connected, leaseId, baseOffset, length := true, grant.id, grant.base, grant.length;
    }

    method MarkDisconnected()
      modifies this`connected, this`leaseId, this`baseOffset
      ensures State() == Disconnected(old(State()))
    {
      connected, leaseId, baseOffset := false, 0, 0;
    }

    /** One request, and if it breaks a new lease and one more attempt at the same address. What it does
        to the server's memory is settled by what happened to the two attempts; an answered write
        lies at the address it was sent to. */
    method RequestWithReconnect(address: nat, ask: Ask) returns (body: Option<bytes>, ghost luck: Luck)
      requires Valid() && ask.Size() <= MAX_TRANSFER
      modifies this, network
      ensures Valid() && history == old(history) + [Request(luck)]
      ensures State() == Step(old(State()), Request(luck))
      ensures network.memory == MemoryAfter(old(network.memory), address, ask, luck)
      ensures network.asked == old(network.asked) + Attempts(old(connected), megabytes * MIB, address, ask, luck)
      ensures Reachable(old(connected), luck)
      ensures Possible(|network.memory|, megabytes * MIB, address, ask.Size(), luck)
      ensures body.Some? <==> luck.Works()
      ensures body.Some? ==>
        && address + ask.Size() <= |network.memory|
        && (ask.AskRead? ==> body.value == Slice(network.memory, address, ask.n))
        && (ask.AskWrite? ==> Slice(network.memory, address, |ask.data|) == ask.data)
    {
      hide Splice, Slice, Zeros, Run, Served, Zeroed;
      ghost var size, first := |network.memory|, false;
      body, first := network.Exchange(connected, address, ask);
      if body.Some? {
        luck := AtOnce;
        RunLast(history, Request(luck));
        history := history + [Request(luck)];
        WrittenHere(old(network.memory), address, ask);
        return;
      }
      MarkDisconnected();
      var grant := network.Borrow(megabytes * MIB);
      if grant.None? {
        luck := NoLease(first);
        RunLast(history, Request(luck));
        history := history + [Request(luck)];
        return;
      }
      Hold(grant.value);
      reconnects := reconnects + 1;
      ghost var middle, served := network.memory, false;
      body, served := network.Exchange(connected, address, ask);
      luck := Retried(first, grant.value, served, body.Some?);
      RunLast(history, Request(luck));
      history := history + [Request(luck)];
      WrittenHere(middle, address, ask);
    }

    /** Sends a KEEPALIVE for the lease held, if one is, and drops the lease if it fails. */
    method KeepAlive() returns (works: bool, ghost e: Event)
      requires Valid()
      modifies this, network`asked
      ensures Valid() && history == old(history) + [e] && e == ServiceSpec.KeepAlive(works)
      ensures State() == Step(old(State()), e)
      ensures network.asked ==
              old(network.asked) + if old(connected && leaseId != 0) then [Renew(old(leaseId))] else []
      ensures works ==> old(connected && leaseId != 0)
    {
      hide Run;
      works := false;
      if connected && leaseId != 0 {
        works := network.Signal(Renew(leaseId));
        if !works {
          MarkDisconnected();
        }
      }
      e := ServiceSpec.KeepAlive(works);
      RunLast(history, e);
      history := history + [e];
    }

    /** Sends a RELEASE for the lease held, if one is, and gives socket and lease id up either way. */
    method Release() returns (ghost e: Event)
      requires Valid()
      modifies this, network`asked
      ensures Valid() && history == old(history) + [e] && e == ServiceSpec.Release
      ensures State() == Step(old(State()), e) && !connected && leaseId == 0
      ensures network.asked ==
              old(network.asked) + if old(connected && leaseId != 0) then [GiveBack(old(leaseId))] else []
    {
      hide Run;
      var held, id := connected, leaseId;
      connected, leaseId := false, 0;
      if held && id != 0 {
        var _ := network.Signal(GiveBack(id));
      }
      e := ServiceSpec.Release;
      RunLast(history, e);
      history := history + [e];
    }

    /** A read inside the borrowed length, chunk by chunk at the base of the lease held at each chunk.
        Without a break it is one slice of the lease. */
    method Read(offset: int, length: int) returns (reply: Reply, ghost lucks: seq<Luck>)
      requires Valid()
      modifies this, network
      ensures Valid() && history == old(history) + Requests(lucks)
      ensures reply.Refused? <==> offset < 0 || length < 0 || offset + length > old(this.length)
      ensures reply.Refused? ==> lucks == [] && State() == old(State()) && network.memory == old(network.memory)
      ensures !reply.Refused? ==>
        && Progress(|network.memory|, megabytes * MIB, old(State()), offset, length, lucks)
        && State() == After(old(State()), lucks)
        && network.memory == ReadOver(old(State()), old(network.memory), offset, length, lucks).0
        && network.asked == old(network.asked) + ReadAsks(old(State()), megabytes * MIB, offset, length, lucks)
        && (reply.Data? <==> Completed(|network.memory|, megabytes * MIB, old(State()), offset, length, lucks))
        && (reply.Data? ==>
              && |reply.data| == length
              && reply.data == ReadOver(old(State()), old(network.memory), offset, length, lucks).1
              && (length > 0 && Settled(old(State()), offset, length, lucks) ==>
                    Sees(old(State()), old(network.memory), offset, length, lucks)))
    {
      hide Run, Step, MemoryAfter, Possible, Reach, Slice, Settled, Sees, ReadOver, ReadAsks, After, Progress, Requests;
      lucks := [];
      NoRequests();
      ghost var c, memory, size, want := State(), network.memory, |network.memory|, megabytes * MIB;
      if offset < 0 || length < 0 || offset + length > this.length {
        return Refused, lucks;
      }
      NothingRead(size, want, c, memory, offset, length);
      var pos, output := offset, [];
      while pos < offset + length
        invariant Valid() && history == old(history) + Requests(lucks)
        invariant Answered(size, want, c, offset, length, lucks) && pos == offset + Reach(length, |lucks|)
        invariant |network.memory| == size && State() == After(c, lucks)
        invariant (network.memory, output) == ReadOver(c, memory, offset, length, lucks)
        invariant |output| == pos - offset
        invariant network.asked == old(network.asked) + ReadAsks(c, want, offset, length, lucks)
        decreases offset + length - pos
      {
        var n := Min(MAX_TRANSFER, offset + length - pos);
        NextPiece(length, |lucks|);
        var body;
        ghost var luck;
        body, luck := RequestWithReconnect(baseOffset + pos, AskRead(n));
        ReadMore(size, want, c, memory, offset, length, lucks, luck);
        lucks := lucks + [luck];
        if body.None? {
          return Raised, lucks;
        }
        output := output + body.value;
        pos := pos + n;
      }
      if length > 0 && Settled(c, offset, length, lucks) {
        SettledSees(size, want, c, memory, offset, length, lucks);
      }
      reply := Data(output);
    }

    /** A write inside the borrowed length, chunk by chunk at the base of the lease held at each chunk.
        Without a break it replaces one slice of the lease. */
    method Write(offset: int, data: bytes) returns (reply: Reply, ghost lucks: seq<Luck>)
      requires Valid()
      modifies this, network
      ensures Valid() && history == old(history) + Requests(lucks)
      ensures reply.Refused? <==> offset < 0 || offset + |data| > old(this.length)
      ensures reply.Refused? ==> lucks == [] && State() == old(State()) && network.memory == old(network.memory)
      ensures !reply.Refused? ==>
        && Progress(|network.memory|, megabytes * MIB, old(State()), offset, |data|, lucks)
        && State() == After(old(State()), lucks)
        && network.memory == Written(old(State()), old(network.memory), offset, data, lucks)
        && network.asked == old(network.asked) + WriteAsks(old(State()), megabytes * MIB, offset, data, lucks)
        && (reply == Done <==> Completed(|network.memory|, megabytes * MIB, old(State()), offset, |data|, lucks))
        && (reply == Done && data != [] && Steady(old(State()), lucks) ==>
              Lands(old(State()), old(network.memory), offset, data, lucks))
    {
      hide Run, Step, MemoryAfter, Possible, Reach, Splice, Slice, Steady, Lands, Written, WriteAsks, After, Progress,
        Requests, Piece;
      lucks := [];
      NoRequests();
      ghost var c, memory, size, want := State(), network.memory, |network.memory|, megabytes * MIB;
      if offset < 0 || offset + |data| > this.length {
        return Refused, lucks;
      }
      NothingWritten(size, want, c, memory, offset, data);
      var pos := 0;
      while pos < |data|
        invariant Valid() && history == old(history) + Requests(lucks)
        invariant Answered(size, want, c, offset, |data|, lucks) && pos == Reach(|data|, |lucks|)
        invariant |network.memory| == size && State() == After(c, lucks)
        invariant network.memory == Written(c, memory, offset, data, lucks)
        invariant network.asked == old(network.asked) + WriteAsks(c, want, offset, data, lucks)
        decreases |data| - pos
      {
        var n := Min(MAX_TRANSFER, |data| - pos);
        NextWrite(data, |lucks|);
        var body;
        ghost var luck;
        body, luck := RequestWithReconnect(baseOffset + offset + pos, AskWrite(data[pos..pos + n]));
        WriteMore(size, want, c, memory, offset, data, lucks, luck);
        lucks := lucks + [luck];
        if body.None? {
          return Raised, lucks;
        }
        pos := pos + n;
      }
      if data != [] && Steady(c, lucks) {
        SteadyLands(size, want, c, memory, offset, data, lucks);
      }
      reply := Done;
    }
  }
}
