/**
 * The client: the sockets opened at construction, the registry it shares with its
 * background loop, the snapshot accessor, and the loop itself, run sequentially
 * over the outcomes of its waits for the stop signal.
 */
module Client {
  import opened Wrappers
  import opened Net
  import opened Dns
  import opened Registry
  import opened Discovery
  import opened Database

  /** Construction fails when a socket cannot be set up on an interface. */
  datatype SetupError = SocketSetup(ip: Ipv4Addr)

  /** `n` is the first position whose socket setup fails. */
  predicate FirstFailure(addrs: seq<Ipv4Addr>, setupOk: Ipv4Addr -> bool, n: int) {
    0 <= n < |addrs| && !setupOk(addrs[n]) && forall j :: 0 <= j < n ==> setupOk(addrs[j])
  }

  class MdnsClient {
    /** The service name queried for and matched against SRV answers. */
    const service: string
    /** One socket per usable interface, named by the interface's address. */
    const sockets: seq<Ipv4Addr>
    const database: ServiceDatabase

    /** A client over sockets already opened on the given interface addresses, with an empty registry. */
    constructor (service: string, sockets: seq<Ipv4Addr>)
      ensures this.service == service && this.sockets == sockets
      ensures fresh(database) && database.entries == map[]
    {
      this.service := service;
      this.sockets := sockets;
      database := new ServiceDatabase();
    }

    /**
     * Construction with the interface list the operating system reports: a socket is
     * set up on every non-loopback IPv4 interface, in enumeration order; `setupOk` says
     * whether that succeeds on a given address. The first failure aborts construction.
     */
    static method New(service: string, ifaces: seq<Interface>, setupOk: Ipv4Addr -> bool)
      returns (r: Result<MdnsClient, SetupError>)
      ensures r.Success? <==> forall ip :: ip in UsableAddrs(ifaces) ==> setupOk(ip)
      ensures r.Success? ==>
        && fresh(r.value) && fresh(r.value.database)
        && r.value.service == service && r.value.sockets == UsableAddrs(ifaces)
        && r.value.database.entries == map[]
      ensures r.Failure? ==> exists n :: 0 <= n < |UsableAddrs(ifaces)| && FirstFailure(UsableAddrs(ifaces), setupOk, n)
                                         && r.error == SocketSetup(UsableAddrs(ifaces)[n])
    {
      var addrs := UsableAddrs(ifaces);
      var i := 0;
      while i < |addrs|
        invariant 0 <= i <= |addrs|
        invariant forall j :: 0 <= j < i ==> setupOk(addrs[j])
      {
        if !setupOk(addrs[i]) {
          assert FirstFailure(addrs, setupOk, i);
          return Failure(SocketSetup(addrs[i]));
        }
        i := i + 1;
      }
      var client := new MdnsClient(service, addrs);
      return Success(client);
    }

    /** A snapshot of the registry: one (service, record) pair per entry, in no particular order. */
    method GetServices() returns (snapshot: seq<(Service, ServiceRecord)>)
      ensures |snapshot| == |database.entries|
      ensures forall i :: 0 <= i < |snapshot| ==>
                snapshot[i].0 in database.entries && snapshot[i].1 == database.entries[snapshot[i].0]
      ensures forall i, j :: 0 <= i < j < |snapshot| ==> snapshot[i].0 != snapshot[j].0
      ensures forall k :: k in database.entries ==> exists i :: 0 <= i < |snapshot| && snapshot[i].0 == k
    {
      var entries := database.entries;
      var pending := entries.Keys;
      snapshot := [];
      while pending != {}
        invariant pending <= entries.Keys
        invariant |snapshot| + |pending| == |entries.Keys|
        invariant forall i :: 0 <= i < |snapshot| ==>
                    snapshot[i].0 in entries && snapshot[i].0 !in pending && snapshot[i].1 == entries[snapshot[i].0]
        invariant forall i, j :: 0 <= i < j < |snapshot| ==> snapshot[i].0 != snapshot[j].0
        invariant forall k :: k in entries && k !in pending ==> exists i :: 0 <= i < |snapshot| && snapshot[i].0 == k
        decreases pending
      {
        var k :| k in pending;
        ghost var taken := snapshot;
        snapshot := snapshot + [(k, entries[k])];
        assert snapshot[|taken|].0 == k;
        assert forall i :: 0 <= i < |taken| ==> snapshot[i] == taken[i];
        pending := pending - {k};
      }
    }

    /**
     * Drain one socket at time `now`: read datagrams until the first receive error,
     * handling each one that parses and skipping each one that does not.
     */
    method ReceiveResponse(inbox: seq<Recv>, now: nat, parse: Parser)
      modifies database
      ensures database.entries == Drain(old(database.entries), inbox, service, now, parse)
    {
      var i := 0;
      while i < |inbox| && inbox[i].Datagram?
        invariant 0 <= i <= |inbox|
        invariant Drain(database.entries, inbox[i..], service, now, parse) == Drain(old(database.entries), inbox, service, now, parse)
      {
        assert inbox[i..][1..] == inbox[i + 1..];
        match parse(Truncated(inbox[i].bytes)) {
          case Some(packet) => database.HandleResponse(packet, service, now);
          case None =>
        }
        i := i + 1;
      }
    }

    /**
     * One poll cycle at time `now`: for every socket in turn, send the query and drain
     * the socket; then evict once.
     */
    method PollOnce(now: nat, inboxes: seq<seq<Recv>>, parse: Parser) returns (events: seq<Event>)
      requires |inboxes| == |sockets|
      modifies database
      ensures database.entries == PollCycle(old(database.entries), inboxes, service, now, parse)
      ensures events == CycleTrace(sockets, service, now)
    {
      events := [];
      var i := 0;
      while i < |sockets|
        invariant 0 <= i <= |sockets|
        invariant DrainSockets(database.entries, inboxes[i..], service, now, parse)
               == DrainSockets(old(database.entries), inboxes, service, now, parse)
        invariant events + SocketsTrace(sockets[i..], service) == SocketsTrace(sockets, service)
      {
        assert inboxes[i..][1..] == inboxes[i + 1..];
        assert sockets[i..][1..] == sockets[i + 1..];
        events := events + [Sent(sockets[i], QUERY_DESTINATION, Request(service))];
        ReceiveResponse(inboxes[i], now, parse);
        events := events + [Drained(sockets[i])];
        i := i + 1;
      }
      database.RemoveOldEntries(now);
      events := events + [Evicted(now)];
    }

    /**
     * The background loop over the outcomes of its successive waits: a timeout runs one
     * poll cycle; a stop signal or a lost sender ends the loop. If `wakes` runs out
     * first, the loop is still running (`stopped` is false).
     */
    method Run(wakes: seq<Wake>, parse: Parser) returns (cycles: nat, stopped: bool, trace: seq<Event>)
      requires forall i :: 0 <= i < |wakes| && wakes[i].Timeout? ==> |wakes[i].inboxes| == |sockets|
      modifies database
      ensures cycles == LeadingTimeouts(wakes)
      ensures stopped <==> cycles < |wakes|
      ensures trace == RunTrace(wakes, sockets, service)
      ensures database.entries == RunRegistry(old(database.entries), wakes, service, parse)
    {
      cycles, stopped, trace := 0, false, [];
      while cycles < |wakes| && !stopped
        invariant cycles <= |wakes|
        invariant forall i :: 0 <= i < cycles ==> wakes[i].Timeout?
        invariant stopped ==> cycles < |wakes| && !wakes[cycles].Timeout?
        invariant RunRegistry(database.entries, wakes[cycles..], service, parse)
               == RunRegistry(old(database.entries), wakes, service, parse)
        invariant trace + RunTrace(wakes[cycles..], sockets, service) == RunTrace(wakes, sockets, service)
        decreases |wakes| - cycles, if stopped then 0 else 1
      {
        assert wakes[cycles..][1..] == wakes[cycles + 1..];
        match wakes[cycles] {
          case Signalled =>
            stopped := true;
          case Disconnected =>
            stopped := true;
          case Timeout(now, inboxes) =>
            var events := PollOnce(now, inboxes, parse);
            trace := trace + events;
            cycles := cycles + 1;
        }
      }
    }
  }
}
