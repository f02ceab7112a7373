/**
 * The discovery loop as values: draining one socket's pending datagrams into the
 * registry, one poll cycle over every socket followed by eviction, and the background
 * loop that runs one cycle per receive timeout until it is told to stop. Module
 * `Client` implements these with loops; the lemmas here state what they promise.
 */
module Discovery {
  import opened Wrappers
  import opened Net
  import opened Dns
  import opened Registry

  /** Capacity of the receive buffer; a longer datagram is cut to this length. */
  const BUFFER_SIZE: nat := 2048

  /**
   * One result of a non-blocking receive: a datagram, or an error (no data pending,
   * or any other I/O error). A socket's pending input is a sequence of these; the end
   * of the sequence stands for "no data pending".
   */
  datatype Recv = Datagram(bytes: seq<Byte>) | RecvError

  /** DNS decoding, supplied by the caller: `None` for a datagram that does not parse. */
  type Parser = seq<Byte> -> Option<Packet>

  /** The bytes of a datagram that fit in the receive buffer. */
  function Truncated(bytes: seq<Byte>): (r: seq<Byte>)
    ensures |r| == if |bytes| <= BUFFER_SIZE then |bytes| else BUFFER_SIZE
    ensures r <= bytes
  {
    if |bytes| <= BUFFER_SIZE then bytes else bytes[..BUFFER_SIZE]
  }

  /** The registry after one received datagram: handled if it parses, unchanged if not. */
  function Deliver(db: Db, bytes: seq<Byte>, service: string, now: nat, parse: Parser): Db {
    match parse(Truncated(bytes))
    case Some(packet) => HandleResponse(db, packet, service, now)
    case None => db
  }

  /** Draining one socket: deliver datagrams until the first receive error. */
  function Drain(db: Db, inbox: seq<Recv>, service: string, now: nat, parse: Parser): Db
    decreases |inbox|
  {
    if inbox == [] || inbox[0].RecvError? then db
    else Drain(Deliver(db, inbox[0].bytes, service, now, parse), inbox[1..], service, now, parse)
  }

  /** Draining every socket in order. */
  function DrainSockets(db: Db, inboxes: seq<seq<Recv>>, service: string, now: nat, parse: Parser): Db
    decreases |inboxes|
  {
    if inboxes == [] then db
    else DrainSockets(Drain(db, inboxes[0], service, now, parse), inboxes[1..], service, now, parse)
  }

  /** One poll cycle: every socket is drained, then stale entries are evicted once. */
  function PollCycle(db: Db, inboxes: seq<seq<Recv>>, service: string, now: nat, parse: Parser): Db {
    RemoveOld(DrainSockets(db, inboxes, service, now, parse), now)
  }

  /**
   * One outcome of waiting for the stop signal: the wait timed out (a cycle runs at
   * time `now` with the sockets' pending input `inboxes`), a stop was signalled, or
   * the sending side is gone.
   */
  datatype Wake = Timeout(now: nat, inboxes: seq<seq<Recv>>) | Signalled | Disconnected

  /** How many cycles the loop runs: the number of timeouts before the first other outcome. */
  function LeadingTimeouts(wakes: seq<Wake>): (n: nat)
    ensures n <= |wakes|
    ensures forall i :: 0 <= i < n ==> wakes[i].Timeout?
    ensures n < |wakes| ==> !wakes[n].Timeout?
    decreases |wakes|
  {
    if wakes == [] || !wakes[0].Timeout? then 0 else 1 + LeadingTimeouts(wakes[1..])
  }

  /** The registry after the loop has consumed `wakes`. */
  function RunRegistry(db: Db, wakes: seq<Wake>, service: string, parse: Parser): Db
    decreases |wakes|
  {
    if wakes == [] || !wakes[0].Timeout? then db
    else RunRegistry(PollCycle(db, wakes[0].inboxes, service, wakes[0].now, parse), wakes[1..], service, parse)
  }

  /** What the loop does that is visible outside the registry, in order. */
  datatype Event = Sent(via: Ipv4Addr, to: SocketAddr, query: Query) | Drained(via: Ipv4Addr) | Evicted(now: nat)

  /** For each socket in turn: send the query, then drain. */
  function SocketsTrace(sockets: seq<Ipv4Addr>, service: string): seq<Event>
    decreases |sockets|
  {
    if sockets == [] then []
    else [Sent(sockets[0], QUERY_DESTINATION, Request(service)), Drained(sockets[0])] + SocketsTrace(sockets[1..], service)
  }

  function CycleTrace(sockets: seq<Ipv4Addr>, service: string, now: nat): seq<Event> {
    SocketsTrace(sockets, service) + [Evicted(now)]
  }

  function RunTrace(wakes: seq<Wake>, sockets: seq<Ipv4Addr>, service: string): seq<Event>
    decreases |wakes|
  {
    if wakes == [] || !wakes[0].Timeout? then []
    else CycleTrace(sockets, service, wakes[0].now) + RunTrace(wakes[1..], sockets, service)
  }

  // ---------------------------------------------------------------------------
  // Draining

  /** The datagrams a drain reads: those before the first receive error, cut to the buffer. */
  function Delivered(inbox: seq<Recv>): seq<seq<Byte>>
    decreases |inbox|
  {
    if inbox == [] || inbox[0].RecvError? then [] else [Truncated(inbox[0].bytes)] + Delivered(inbox[1..])
  }

  /** The packets among datagrams that parse, in order. */
  function Decoded(datagrams: seq<seq<Byte>>, parse: Parser): seq<Packet>
    decreases |datagrams|
  {
    if datagrams == [] then []
    else
      match parse(datagrams[0])
      case Some(p) => [p] + Decoded(datagrams[1..], parse)
      case None => Decoded(datagrams[1..], parse)
  }

  /** Packets handled one after another. */
  function HandleAll(db: Db, packets: seq<Packet>, service: string, now: nat): Db
    decreases |packets|
  {
    if packets == [] then db else HandleAll(HandleResponse(db, packets[0], service, now), packets[1..], service, now)
  }

  /**
   * Draining a socket is handling, in order, every datagram received before the first
   * receive error that parses; datagrams that do not parse contribute nothing.
   */
  lemma {:induction false} DrainIsHandleAll(db: Db, inbox: seq<Recv>, service: string, now: nat, parse: Parser)
    ensures Drain(db, inbox, service, now, parse) == HandleAll(db, Decoded(Delivered(inbox), parse), service, now)
    decreases |inbox|
  {
    if inbox != [] && inbox[0].Datagram? {
      var d := Truncated(inbox[0].bytes);
      assert Delivered(inbox) == [d] + Delivered(inbox[1..]);
      assert ([d] + Delivered(inbox[1..]))[1..] == Delivered(inbox[1..]);
      DrainIsHandleAll(Deliver(db, inbox[0].bytes, service, now, parse), inbox[1..], service, now, parse);
      match parse(d) {
        case Some(p) =>
          assert ([p] + Decoded(Delivered(inbox[1..]), parse))[1..] == Decoded(Delivered(inbox[1..]), parse);
        case None =>
      }
    }
  }

  /** Nothing after a receive error is read. */
  lemma {:induction false} DrainStopsAtError(db: Db, inbox: seq<Recv>, i: nat, service: string, now: nat, parse: Parser)
    requires i < |inbox| && inbox[i].RecvError?
    ensures Drain(db, inbox, service, now, parse) == Drain(db, inbox[..i], service, now, parse)
    decreases i
  {
    if i > 0 && inbox[0].Datagram? {
      assert inbox[..i][1..] == inbox[1..][..i - 1];
      DrainStopsAtError(Deliver(db, inbox[0].bytes, service, now, parse), inbox[1..], i - 1, service, now, parse);
    }
  }

  // ---------------------------------------------------------------------------
  // Liveness of a confirmed service

  /** No stored time is later than `now`. */
  ghost predicate NotAhead(db: Db, now: nat) {
    forall k :: k in db ==> db[k].lastSeen <= now
  }

  /** `r` keeps every key of `db`, with no earlier time and no fewer addresses, and no time later than `now`. */
  ghost predicate Grown(db: Db, r: Db, now: nat) {
    && db.Keys <= r.Keys
    && NotAhead(r, now)
    && forall k :: k in db ==> db[k].lastSeen <= r[k].lastSeen && db[k].addresses <= r[k].addresses
  }

  lemma {:induction false} DrainGrows(db: Db, inbox: seq<Recv>, service: string, now: nat, parse: Parser)
    requires NotAhead(db, now)
    ensures Grown(db, Drain(db, inbox, service, now, parse), now)
    decreases |inbox|
  {
    if inbox != [] && inbox[0].Datagram? {
      var db' := Deliver(db, inbox[0].bytes, service, now, parse);
      match parse(Truncated(inbox[0].bytes)) {
        case Some(p) => HandleResponseMonotone(db, p, service, now);
        case None =>
      }
      DrainGrows(db', inbox[1..], service, now, parse);
    }
  }

  lemma {:induction false} DrainSocketsGrows(db: Db, inboxes: seq<seq<Recv>>, service: string, now: nat, parse: Parser)
    requires NotAhead(db, now)
    ensures Grown(db, DrainSockets(db, inboxes, service, now, parse), now)
    decreases |inboxes|
  {
    if inboxes != [] {
      DrainGrows(db, inboxes[0], service, now, parse);
      DrainSocketsGrows(Drain(db, inboxes[0], service, now, parse), inboxes[1..], service, now, parse);
    }
  }

  /**
   * With a clock that has not gone backwards, a service present before a poll cycle at
   * `now` and confirmed less than `MAX_AGE` before `now` is still present after it, even
   * if no response in that cycle mentions it.
   */
  lemma SurvivesNextCycle(db: Db, inboxes: seq<seq<Recv>>, service: string, now: nat, parse: Parser, s: Service)
    requires NotAhead(db, now)
    requires s in db && now < db[s].lastSeen + MAX_AGE
    ensures var r := PollCycle(db, inboxes, service, now, parse);
      s in r && db[s].lastSeen <= r[s].lastSeen && db[s].addresses <= r[s].addresses
  {
    DrainSocketsGrows(db, inboxes, service, now, parse);
  }

  /** The datagram at `j` is read by the drain, parses as a response, and confirms `s`. */
  ghost predicate ConfirmsAt(inbox: seq<Recv>, j: int, service: string, parse: Parser, s: Service) {
    && 0 <= j < |inbox|
    && (forall m :: 0 <= m < j ==> inbox[m].Datagram?)
    && inbox[j].Datagram?
    && match parse(Truncated(inbox[j].bytes))
       case Some(p) => !p.isQuery && s in Confirmed(p.answers, service)
       case None => false
  }

  /** Some socket's pending input, in this cycle, holds a response confirming `s`. */
  ghost predicate ConfirmedInCycle(inboxes: seq<seq<Recv>>, service: string, parse: Parser, s: Service) {
    exists i, j :: 0 <= i < |inboxes| && ConfirmsAt(inboxes[i], j, service, parse, s)
  }

  lemma {:induction false} DrainKeepsCurrent(db: Db, inbox: seq<Recv>, service: string, now: nat, parse: Parser, s: Service)
    requires s in db && db[s].lastSeen == now
    ensures var r := Drain(db, inbox, service, now, parse);
      s in r && r[s].lastSeen == now
    decreases |inbox|
  {
    if inbox != [] && inbox[0].Datagram? {
      match parse(Truncated(inbox[0].bytes)) {
        case Some(p) => HandleResponseKeepsCurrent(db, p, service, now, s);
        case None =>
      }
      DrainKeepsCurrent(Deliver(db, inbox[0].bytes, service, now, parse), inbox[1..], service, now, parse, s);
    }
  }

  lemma {:induction false} DrainConfirms(db: Db, inbox: seq<Recv>, j: int, service: string, now: nat, parse: Parser, s: Service)
    requires ConfirmsAt(inbox, j, service, parse, s)
    ensures var r := Drain(db, inbox, service, now, parse);
      s in r && r[s].lastSeen == now
    decreases |inbox|
  {
    var db' := Deliver(db, inbox[0].bytes, service, now, parse);
    if j == 0 {
      var p := parse(Truncated(inbox[0].bytes)).value;
      HandleResponseCharacterised(db, p, service, now);
      DrainKeepsCurrent(db', inbox[1..], service, now, parse, s);
    } else {
      assert inbox[1..][j - 1] == inbox[j];
      assert forall m :: 0 <= m < j - 1 ==> inbox[1..][m] == inbox[m + 1];
      DrainConfirms(db', inbox[1..], j - 1, service, now, parse, s);
    }
  }

  lemma {:induction false} DrainSocketsKeepsCurrent(db: Db, inboxes: seq<seq<Recv>>, service: string, now: nat, parse: Parser, s: Service)
    requires s in db && db[s].lastSeen == now
    ensures var r := DrainSockets(db, inboxes, service, now, parse);
      s in r && r[s].lastSeen == now
    decreases |inboxes|
  {
    if inboxes != [] {
      DrainKeepsCurrent(db, inboxes[0], service, now, parse, s);
      DrainSocketsKeepsCurrent(Drain(db, inboxes[0], service, now, parse), inboxes[1..], service, now, parse, s);
    }
  }

  lemma {:induction false} DrainSocketsConfirms(db: Db, inboxes: seq<seq<Recv>>, i: int, j: int, service: string, now: nat, parse: Parser, s: Service)
    requires 0 <= i < |inboxes| && ConfirmsAt(inboxes[i], j, service, parse, s)
    ensures var r := DrainSockets(db, inboxes, service, now, parse);
      s in r && r[s].lastSeen == now
    decreases |inboxes|
  {
    var db' := Drain(db, inboxes[0], service, now, parse);
    if i == 0 {
      DrainConfirms(db, inboxes[0], j, service, now, parse, s);
      DrainSocketsKeepsCurrent(db', inboxes[1..], service, now, parse, s);
    } else {
      assert inboxes[1..][i - 1] == inboxes[i];
      DrainSocketsConfirms(db', inboxes[1..], i - 1, j, service, now, parse, s);
    }
  }

  /**
   * A service that some response in the cycle confirms is present after the cycle's
   * eviction pass, with time `now`: eviction never removes what the same cycle confirmed.
   */
  lemma ConfirmedNotEvicted(db: Db, inboxes: seq<seq<Recv>>, service: string, now: nat, parse: Parser, s: Service)
    requires ConfirmedInCycle(inboxes, service, parse, s)
    ensures var r := PollCycle(db, inboxes, service, now, parse);
      s in r && r[s].lastSeen == now
  {
    var i, j :| 0 <= i < |inboxes| && ConfirmsAt(inboxes[i], j, service, parse, s);
    DrainSocketsConfirms(db, inboxes, i, j, service, now, parse, s);
  }

  /** After a cycle, every entry was confirmed less than `MAX_AGE` before the cycle's time. */
  lemma CycleLeavesOnlyFresh(db: Db, inboxes: seq<seq<Recv>>, service: string, now: nat, parse: Parser)
    ensures var r := PollCycle(db, inboxes, service, now, parse);
      forall k :: k in r ==> now < r[k].lastSeen + MAX_AGE
  {
  }

  /**
   * A service confirmed in every cycle the loop runs is in the registry when the loop
   * has run at least one cycle, however many it runs.
   */
  lemma {:induction false} ConfirmedEveryCycleNeverEvicted(db: Db, wakes: seq<Wake>, service: string, parse: Parser, s: Service)
    requires 0 < LeadingTimeouts(wakes)
    requires forall i :: 0 <= i < LeadingTimeouts(wakes) ==> ConfirmedInCycle(wakes[i].inboxes, service, parse, s)
    ensures s in RunRegistry(db, wakes, service, parse)
    decreases |wakes|
  {
    var db' := PollCycle(db, wakes[0].inboxes, service, wakes[0].now, parse);
    ConfirmedNotEvicted(db, wakes[0].inboxes, service, wakes[0].now, parse, s);
    var rest := wakes[1..];
    if 0 < LeadingTimeouts(rest) {
      forall i | 0 <= i < LeadingTimeouts(rest) ensures ConfirmedInCycle(rest[i].inboxes, service, parse, s) {
        assert rest[i] == wakes[i + 1];
      }
      ConfirmedEveryCycleNeverEvicted(db', rest, service, parse, s);
    }
  }

  // ---------------------------------------------------------------------------
  // The loop's trace

  /**
   * In a cycle, socket `i`'s query is sent and then the socket is drained, sockets in
   * order, and eviction comes last, after every socket.
   */
  lemma {:induction false} CycleTraceOrder(sockets: seq<Ipv4Addr>, service: string, now: nat)
    ensures var t := CycleTrace(sockets, service, now);
      && |t| == 2 * |sockets| + 1
      && (forall i :: 0 <= i < |sockets| ==>
            t[2 * i] == Sent(sockets[i], QUERY_DESTINATION, Request(service)) && t[2 * i + 1] == Drained(sockets[i]))
      && t[2 * |sockets|] == Evicted(now)
    decreases |sockets|
  {
    if sockets != [] {
      CycleTraceOrder(sockets[1..], service, now);
      var t := CycleTrace(sockets, service, now);
      var t' := CycleTrace(sockets[1..], service, now);
      assert t == [Sent(sockets[0], QUERY_DESTINATION, Request(service)), Drained(sockets[0])] + t';
      forall i | 1 <= i < |sockets|
        ensures t[2 * i] == Sent(sockets[i], QUERY_DESTINATION, Request(service)) && t[2 * i + 1] == Drained(sockets[i])
      {
        assert t[2 * i] == t'[2 * (i - 1)];
        assert t[2 * i + 1] == t'[2 * (i - 1) + 1];
        assert sockets[1..][i - 1] == sockets[i];
      }
    }
  }

  /** The loop's trace is one full cycle trace per leading timeout and nothing more. */
  lemma {:induction false} RunTraceLength(wakes: seq<Wake>, sockets: seq<Ipv4Addr>, service: string)
    ensures |RunTrace(wakes, sockets, service)| == LeadingTimeouts(wakes) * (2 * |sockets| + 1)
    decreases |wakes|
  {
    if wakes != [] && wakes[0].Timeout? {
      CycleTraceOrder(sockets, service, wakes[0].now);
      RunTraceLength(wakes[1..], sockets, service);
      var c := 2 * |sockets| + 1;
      var n := LeadingTimeouts(wakes[1..]);
      assert (1 + n) * c == c + n * c;
    }
  }

  /** The trace of the first `i + 1` cycles is that of the first `i` followed by cycle `i`'s full trace. */
  lemma {:induction false} RunTraceSnoc(wakes: seq<Wake>, sockets: seq<Ipv4Addr>, service: string, i: nat)
    requires i < LeadingTimeouts(wakes)
    ensures RunTrace(wakes[..i + 1], sockets, service)
         == RunTrace(wakes[..i], sockets, service) + CycleTrace(sockets, service, wakes[i].now)
    decreases i
  {
    if i == 0 {
      assert wakes[..1][1..] == [];
    } else {
      assert wakes[..i + 1][1..] == wakes[1..][..i];
      assert wakes[..i][1..] == wakes[1..][..i - 1];
      assert wakes[1..][i - 1] == wakes[i];
      RunTraceSnoc(wakes[1..], sockets, service, i - 1);
    }
  }

  /** A run's trace is that of its leading timeouts: nothing is traced from the first stop on. */
  lemma {:induction false} RunTraceWhole(wakes: seq<Wake>, sockets: seq<Ipv4Addr>, service: string)
    ensures RunTrace(wakes, sockets, service) == RunTrace(wakes[..LeadingTimeouts(wakes)], sockets, service)
    decreases |wakes|
  {
    if wakes != [] && wakes[0].Timeout? {
      var n := LeadingTimeouts(wakes);
      RunTraceWhole(wakes[1..], sockets, service);
      assert wakes[..n][1..] == wakes[1..][..n - 1];
    } else if wakes != [] {
      assert wakes[..0] == [];
    }
  }

  /** With no sockets, no cycle ever adds an entry: a registry that starts empty stays empty. */
  lemma {:induction false} NoSocketsNoServices(wakes: seq<Wake>, service: string, parse: Parser)
    requires forall i :: 0 <= i < |wakes| && wakes[i].Timeout? ==> wakes[i].inboxes == []
    ensures RunRegistry(map[], wakes, service, parse) == map[]
    decreases |wakes|
  {
    if wakes != [] && wakes[0].Timeout? {
      assert PollCycle(map[], wakes[0].inboxes, service, wakes[0].now, parse) == map[];
      assert forall i :: 0 <= i < |wakes[1..]| ==> wakes[1..][i] == wakes[i + 1];
      NoSocketsNoServices(wakes[1..], service, parse);
    }
  }

  /** The timeouts of a run, up to its first other outcome, come at times no earlier than `from` and never earlier than the one before. */
  ghost predicate ClockFrom(wakes: seq<Wake>, from: nat)
    decreases |wakes|
  {
    wakes == [] || !wakes[0].Timeout? || (from <= wakes[0].now && ClockFrom(wakes[1..], wakes[0].now))
  }

  /**
   * Every cycle of the run either confirms `s` or runs less than `MAX_AGE` after the
   * last confirmation of `s`; `seen` is that last confirmation before the run.
   */
  ghost predicate RefreshedInTime(wakes: seq<Wake>, service: string, parse: Parser, s: Service, seen: nat)
    decreases |wakes|
  {
    wakes == [] || !wakes[0].Timeout? ||
      var confirmed := ConfirmedInCycle(wakes[0].inboxes, service, parse, s);
      && (confirmed || wakes[0].now < seen + MAX_AGE)
      && RefreshedInTime(wakes[1..], service, parse, s, if confirmed then wakes[0].now else seen)
  }

  /**
   * With a clock that never goes backwards, a service present before the run stays
   * present after every cycle, as long as each cycle either confirms it or comes less
   * than `MAX_AGE` after its last confirmation: the one-second cadence against the
   * five-second expiry gives a live service several chances to be refreshed.
   */
  lemma {:induction false} RefreshedInTimeNeverEvicted(db: Db, wakes: seq<Wake>, service: string, parse: Parser, s: Service, seen: nat, from: nat)
    requires NotAhead(db, from) && ClockFrom(wakes, from)
    requires s in db && seen <= db[s].lastSeen
    requires RefreshedInTime(wakes, service, parse, s, seen)
    ensures forall n :: 0 <= n <= |wakes| ==> s in RunRegistry(db, wakes[..n], service, parse)
    decreases |wakes|
  {
    if wakes != [] && wakes[0].Timeout? {
      var w := wakes[0];
      var confirmed := ConfirmedInCycle(w.inboxes, service, parse, s);
      var db' := PollCycle(db, w.inboxes, service, w.now, parse);
      if confirmed {
        ConfirmedNotEvicted(db, w.inboxes, service, w.now, parse, s);
      } else {
        SurvivesNextCycle(db, w.inboxes, service, w.now, parse, s);
      }
      DrainSocketsGrows(db, w.inboxes, service, w.now, parse);
      assert NotAhead(db', w.now);
      RefreshedInTimeNeverEvicted(db', wakes[1..], service, parse, s, if confirmed then w.now else seen, w.now);
      forall n | 0 <= n <= |wakes| ensures s in RunRegistry(db, wakes[..n], service, parse) {
        if n > 0 {
          assert wakes[..n][1..] == wakes[1..][..n - 1];
        }
      }
    } else {
      forall n | 0 <= n <= |wakes| ensures s in RunRegistry(db, wakes[..n], service, parse) {
        if n > 0 {
          assert wakes[..n][0] == wakes[0];
        }
      }
    }
  }
}
