/** The client that keeps one lease: its connection as a state machine over what the network does. */
module ServiceSpec {
  import opened Bytes

  /** A lease granted by the server; ids start at 1. */
  datatype Grant = Grant(id: pos, base: nat, length: nat)

  datatype Client = Client(connected: bool, leaseId: nat, base: nat, length: nat, reconnects: nat)

  const START := Client(false, 0, 0, 0, 0)

  /** What the network does to one request: it works at once; or it breaks, be it served or not, and no
      new lease is granted; or it breaks and is sent again under a new lease, where again it may be
      served or not and the answer may arrive or not. */
  datatype Luck =
    | AtOnce
    | NoLease(first: bool)
    | Retried(first: bool, grant: Grant, served: bool, works: bool)
  {
    predicate Works() {
      AtOnce? || (Retried? && works)
    }
  }

  datatype Event =
    | Connect(grant: Option<Grant>)
    | KeepAlive(works: bool)
    | Request(luck: Luck)
    | Release

  function Holding(c: Client, g: Grant): Client {
    c.(connected := true, leaseId := g.id, base := g.base, length := g.length)
  }

  function Disconnected(c: Client): Client {
    c.(connected := false, leaseId := 0, base := 0)
  }

  function Step(c: Client, e: Event): Client {
    match e
    case Connect(grant) => if grant.Some? then Holding(c, grant.value) else c
    case KeepAlive(works) => if !c.connected || c.leaseId == 0 || works then c else Disconnected(c)
    case Request(AtOnce) => c
    case Request(Retried(_, g, _, _)) => Holding(Disconnected(c), g).(reconnects := c.reconnects + 1)
    case Request(NoLease(_)) => Disconnected(c)
    case Release => c.(connected := false, leaseId := 0)
  }

  function Run(events: seq<Event>): Client {
    if events == [] then START else Step(Run(events[..|events| - 1]), events[|events| - 1])
  }

  // ---- What any history leaves behind ----

  /** The latest grant of a history. */
  function Latest(events: seq<Event>): Option<Grant> {
    if events == [] then None
    else
      match events[|events| - 1]
      case Connect(Some(g)) => Some(g)
      case Request(Retried(_, g, _, _)) => Some(g)
      case _ => Latest(events[..|events| - 1])
  }

  /** Whether the latest grant was dropped since: by a release, a failed keepalive, or a request
      that broke and got no new lease. */
  function Dropped(events: seq<Event>): bool {
    if events == [] then true
    else
      var front := events[..|events| - 1];
      match events[|events| - 1]
      case Connect(Some(_)) => false
      case Connect(None) => Dropped(front)
      case Request(Retried(_, _, _, _)) => false
      case Request(NoLease(_)) => true
      case Request(AtOnce) => Dropped(front)
      case KeepAlive(works) => Dropped(front) || !works
      case Release => true
  }

  function Reconnections(events: seq<Event>): nat {
    if events == [] then 0
    else
      var e := events[|events| - 1];
      Reconnections(events[..|events| - 1]) + if e.Request? && e.luck.Retried? then 1 else 0
  }

  /** After any history a socket is held exactly when a lease id is, which is exactly when the latest
      grant has not been dropped; then base and length are those of that grant. The length outlives
      the connection. */
  lemma {:induction false} HeldLease(events: seq<Event>)
    ensures var c := Run(events);
            && (c.connected <==> c.leaseId != 0)
            && (c.connected <==> !Dropped(events))
            && (c.connected ==> Latest(events) == Some(Grant(c.leaseId, c.base, c.length)))
            && c.length == (match Latest(events) case Some(g) => g.length case None => 0)
            && c.reconnects == Reconnections(events)
  {
    if events != [] {
      HeldLease(events[..|events| - 1]);
    }
  }
}
