/**
 * The service registry as values: the map from a service's identity to what is known
 * about it, and the pure definitions of how a decoded response and an eviction pass
 * change that map. The in-place implementation is `Database.ServiceDatabase`; the
 * lemmas here state what those changes promise.
 */
module Registry {
  import opened Net
  import opened Dns

  /** A service's identity: the SRV target host and port. */
  datatype Service = Service(host: string, port: Port)

  /** What is known of a service: when it was last confirmed and its IPv4 addresses. */
  datatype ServiceRecord = ServiceRecord(lastSeen: nat, addresses: set<Ipv4Addr>)

  type Db = map<Service, ServiceRecord>

  /** Time is a monotonic clock reading in nanoseconds. */
  const NANOS_PER_SEC: nat := 1_000_000_000

  /** Entries not confirmed within this span are evicted: 5 seconds. */
  const MAX_AGE: nat := 5 * NANOS_PER_SEC

  /** Time elapsed since an earlier reading; a reading from the future counts as zero elapsed. */
  function Elapsed(now: nat, since: nat): nat {
    if since <= now then now - since else 0
  }

  predicate IsFresh(record: ServiceRecord, now: nat) {
    Elapsed(now, record.lastSeen) < MAX_AGE
  }

  /** Upsert of one service: refresh the time of a known entry, or add an entry with no addresses. */
  function Refresh(db: Db, s: Service, now: nat): Db {
    if s in db then db[s := db[s].(lastSeen := now)] else db[s := ServiceRecord(now, {})]
  }

  /** The SRV pass applied to one answer. */
  function SrvStep(db: Db, a: Answer, service: string, now: nat): Db {
    if a.Srv? && a.name == service then Refresh(db, Service(a.target, a.port), now) else db
  }

  /** The SRV pass: every answer in order. */
  function ApplySrv(db: Db, answers: seq<Answer>, service: string, now: nat): Db
    decreases |answers|
  {
    if answers == [] then db
    else ApplySrv(SrvStep(db, answers[0], service, now), answers[1..], service, now)
  }

  /** Add an address to every entry whose host is the given name. */
  function Attribute(db: Db, host: string, addr: Ipv4Addr): Db {
    map k | k in db :: if k.host == host then db[k].(addresses := db[k].addresses + {addr}) else db[k]
  }

  /** The A pass applied to one answer. */
  function AStep(db: Db, a: Answer): Db {
    if a.A? then Attribute(db, a.name, a.addr) else db
  }

  /** The A pass: every answer in order. */
  function ApplyA(db: Db, answers: seq<Answer>): Db
    decreases |answers|
  {
    if answers == [] then db else ApplyA(AStep(db, answers[0]), answers[1..])
  }

  /** One decoded packet applied to the registry: queries are ignored, then the SRV pass, then the A pass. */
  function HandleResponse(db: Db, packet: Packet, service: string, now: nat): Db {
    if packet.isQuery then db
    else ApplyA(ApplySrv(db, packet.answers, service, now), packet.answers)
  }

  /** The eviction pass: keep the entries confirmed less than `MAX_AGE` ago. */
  function RemoveOld(db: Db, now: nat): Db {
    map k | k in db && IsFresh(db[k], now) :: db[k]
  }

  // Order-free reference definitions of what a packet's answers contribute.

  /** The services a packet's SRV answers for `service` confirm. */
  function Confirmed(answers: seq<Answer>, service: string): set<Service> {
    set a | a in answers && a.Srv? && a.name == service :: Service(a.target, a.port)
  }

  /** The addresses a packet's A answers give for `host`. */
  function AddrsFor(answers: seq<Answer>, host: string): set<Ipv4Addr> {
    set a | a in answers && a.A? && a.name == host :: a.addr
  }

  /** What a key's record becomes once a response that is not a query has been applied. */
  function Expected(db: Db, answers: seq<Answer>, service: string, now: nat, k: Service): ServiceRecord
    requires k in db || k in Confirmed(answers, service)
  {
    var known := if k in db then db[k].addresses else {};
    var seen := if k in Confirmed(answers, service) then now else db[k].lastSeen;
    ServiceRecord(seen, known + AddrsFor(answers, k.host))
  }

  // ---------------------------------------------------------------------------
  // One answer at a time

  /**
   * An SRV answer for the service upserts `Service(target, port)`: a new key gets
   * `now` and no addresses, a known key gets `now` and keeps its addresses, nothing
   * else changes. An SRV answer for another name, or any other answer, changes nothing.
   */
  lemma SrvAnswerUpserts(db: Db, a: Answer, service: string, now: nat)
    ensures var r := SrvStep(db, a, service, now);
      if a.Srv? && a.name == service then
        var s := Service(a.target, a.port);
        && r.Keys == db.Keys + {s}
        && r[s] == ServiceRecord(now, if s in db then db[s].addresses else {})
        && forall k :: k in db && k != s ==> r[k] == db[k]
      else r == db
  {
  }

  /**
   * An A answer adds its address to exactly the entries whose host is its name;
   * no key is added or removed and no time changes.
   */
  lemma AAnswerAttributes(db: Db, a: Answer)
    ensures var r := AStep(db, a);
      && r.Keys == db.Keys
      && forall k :: k in r ==>
           r[k].lastSeen == db[k].lastSeen
           && r[k].addresses == if a.A? && a.name == k.host then db[k].addresses + {a.addr} else db[k].addresses
  {
  }

  // ---------------------------------------------------------------------------
  // Whole passes

  /** What a packet's answers contribute is what its first answer and the rest contribute. */
  lemma ConfirmedSplit(answers: seq<Answer>, name: string)
    requires answers != []
    ensures Confirmed(answers, name) == Confirmed([answers[0]], name) + Confirmed(answers[1..], name)
    ensures AddrsFor(answers, name) == AddrsFor([answers[0]], name) + AddrsFor(answers[1..], name)
  {
  }

  /** The SRV pass adds exactly the confirmed services and sets their time to `now`, keeping addresses. */
  lemma {:induction false} ApplySrvCharacterised(db: Db, answers: seq<Answer>, service: string, now: nat)
    ensures var r := ApplySrv(db, answers, service, now);
      && r.Keys == db.Keys + Confirmed(answers, service)
      && forall k :: k in r ==>
           r[k] == if k in Confirmed(answers, service)
                   then ServiceRecord(now, if k in db then db[k].addresses else {})
                   else db[k]
    decreases |answers|
  {
    if answers != [] {
      ConfirmedSplit(answers, service);
      ApplySrvCharacterised(SrvStep(db, answers[0], service, now), answers[1..], service, now);
    }
  }

  /** The A pass keeps keys and times, and adds to each entry every address given for its host. */
  lemma {:induction false} ApplyACharacterised(db: Db, answers: seq<Answer>)
    ensures var r := ApplyA(db, answers);
      && r.Keys == db.Keys
      && forall k :: k in r ==>
           r[k] == ServiceRecord(db[k].lastSeen, db[k].addresses + AddrsFor(answers, k.host))
    decreases |answers|
  {
    if answers != [] {
      var db' := AStep(db, answers[0]);
      ApplyACharacterised(db', answers[1..]);
      forall k | k in db
        ensures AddrsFor(answers, k.host) == AddrsFor([answers[0]], k.host) + AddrsFor(answers[1..], k.host)
      {
        ConfirmedSplit(answers, k.host);
      }
    }
  }

  /**
   * A response (not a query) leaves the registry holding the old keys plus the
   * confirmed services; confirmed entries carry `now`, others keep their time, and
   * each entry gains every address the packet gives for its host, whatever the
   * order of SRV and A answers in the packet.
   */
  lemma HandleResponseCharacterised(db: Db, packet: Packet, service: string, now: nat)
    requires !packet.isQuery
    ensures var r := HandleResponse(db, packet, service, now);
      && r.Keys == db.Keys + Confirmed(packet.answers, service)
      && forall k :: k in r ==> r[k] == Expected(db, packet.answers, service, now, k)
  {
    var mid := ApplySrv(db, packet.answers, service, now);
    ApplySrvCharacterised(db, packet.answers, service, now);
    ApplyACharacterised(mid, packet.answers);
  }

  /** A packet whose header says query leaves the registry exactly as it was. */
  lemma QueryLeavesRegistry(db: Db, packet: Packet, service: string, now: nat)
    requires packet.isQuery
    ensures HandleResponse(db, packet, service, now) == db
  {
  }

  /** A response without an SRV answer for the service creates no entry and refreshes no time. */
  lemma UnrelatedResponseCreatesNothing(db: Db, packet: Packet, service: string, now: nat)
    requires forall i :: 0 <= i < |packet.answers| && packet.answers[i].Srv? ==> packet.answers[i].name != service
    ensures var r := HandleResponse(db, packet, service, now);
      && r.Keys == db.Keys
      && forall k :: k in r ==> r[k].lastSeen == db[k].lastSeen && db[k].addresses <= r[k].addresses
  {
    if !packet.isQuery {
      HandleResponseCharacterised(db, packet, service, now);
      assert Confirmed(packet.answers, service) == {};
    }
  }

  /** An A answer for a host that no entry has, with no SRV answer introducing it, changes nothing. */
  lemma UnknownHostIgnored(db: Db, name: string, addr: Ipv4Addr, service: string, now: nat)
    requires forall k :: k in db ==> k.host != name
    ensures HandleResponse(db, Packet(false, [A(name, addr)]), service, now) == db
  {
    var p := Packet(false, [A(name, addr)]);
    HandleResponseCharacterised(db, p, service, now);
    assert Confirmed(p.answers, service) == {};
    var r := HandleResponse(db, p, service, now);
    forall k | k in db ensures r[k] == db[k] {
      assert AddrsFor(p.answers, k.host) == {};
    }
  }

  /**
   * An SRV answer for the service and an A answer for its target, anywhere in the same
   * response, leave the service in the registry with time `now` and that address.
   */
  lemma SrvThenAddressInOnePacket(db: Db, packet: Packet, service: string, now: nat, i: nat, j: nat)
    requires !packet.isQuery
    requires i < |packet.answers| && j < |packet.answers|
    requires packet.answers[i].Srv? && packet.answers[i].name == service
    requires packet.answers[j].A? && packet.answers[j].name == packet.answers[i].target
    ensures var s := Service(packet.answers[i].target, packet.answers[i].port);
      var r := HandleResponse(db, packet, service, now);
      && s in r
      && r[s].lastSeen == now
      && packet.answers[j].addr in r[s].addresses
  {
    HandleResponseCharacterised(db, packet, service, now);
    var s := Service(packet.answers[i].target, packet.answers[i].port);
    assert packet.answers[i] in packet.answers;
    assert s in Confirmed(packet.answers, service);
    assert packet.answers[j] in packet.answers;
    assert packet.answers[j].addr in AddrsFor(packet.answers, s.host);
  }

  /** Two responses with the same answers, in any order and multiplicity, have the same effect. */
  lemma AnswerOrderIrrelevant(db: Db, p: Packet, q: Packet, service: string, now: nat)
    requires !p.isQuery && !q.isQuery
    requires forall a :: a in p.answers <==> a in q.answers
    ensures HandleResponse(db, p, service, now) == HandleResponse(db, q, service, now)
  {
    HandleResponseCharacterised(db, p, service, now);
    HandleResponseCharacterised(db, q, service, now);
    assert Confirmed(p.answers, service) == Confirmed(q.answers, service);
    forall h: string ensures AddrsFor(p.answers, h) == AddrsFor(q.answers, h) { }
  }

  /**
   * With a clock that has not gone backwards, handling a packet removes no key,
   * moves no time backwards and drops no address.
   */
  lemma HandleResponseMonotone(db: Db, packet: Packet, service: string, now: nat)
    requires forall k :: k in db ==> db[k].lastSeen <= now
    ensures var r := HandleResponse(db, packet, service, now);
      && db.Keys <= r.Keys
      && (forall k :: k in r ==> r[k].lastSeen <= now)
      && forall k :: k in db ==> db[k].lastSeen <= r[k].lastSeen && db[k].addresses <= r[k].addresses
  {
    if !packet.isQuery {
      HandleResponseCharacterised(db, packet, service, now);
    }
  }

  /** An entry confirmed at `now` keeps time `now` through any further packet handled at `now`. */
  lemma HandleResponseKeepsCurrent(db: Db, packet: Packet, service: string, now: nat, k: Service)
    requires k in db && db[k].lastSeen == now
    ensures var r := HandleResponse(db, packet, service, now);
      k in r && r[k].lastSeen == now
  {
    if !packet.isQuery {
      HandleResponseCharacterised(db, packet, service, now);
    }
  }

  // ---------------------------------------------------------------------------
  // Eviction

  /**
   * After eviction a key remains exactly when it was present and confirmed less than
   * `MAX_AGE` ago; survivors are unchanged; a second pass at the same time does nothing.
   */
  lemma RemoveOldKeepsFresh(db: Db, now: nat)
    ensures var r := RemoveOld(db, now);
      && (forall k :: k in r <==> k in db && Elapsed(now, db[k].lastSeen) < MAX_AGE)
      && (forall k :: k in r ==> r[k] == db[k])
      && RemoveOld(r, now) == r
  {
  }

  /** Every entry left after an eviction pass is fresh at that time. */
  lemma RemoveOldOnlyFresh(db: Db, now: nat)
    ensures forall k :: k in RemoveOld(db, now) ==> now < RemoveOld(db, now)[k].lastSeen + MAX_AGE
  {
  }

  // ---------------------------------------------------------------------------
  // A worked example: one printer announced with its address

  /**
   * A response for "Printer._http._tcp.local" carrying the printer's SRV and A records
   * leaves exactly one entry, printer1.local:631 with address 192.168.1.50; six seconds
   * later an eviction pass leaves nothing.
   */
  lemma PrinterDiscoveredThenExpires(now: nat)
    ensures var service := "Printer._http._tcp.local";
      var packet := Packet(false, [Srv(service, "printer1.local", 631), A("printer1.local", Ipv4Addr(192, 168, 1, 50))]);
      var r := HandleResponse(map[], packet, service, now);
      && r == map[Service("printer1.local", 631) := ServiceRecord(now, {Ipv4Addr(192, 168, 1, 50)})]
      && RemoveOld(r, now + 6 * NANOS_PER_SEC) == map[]
  {
    var service := "Printer._http._tcp.local";
    var packet := Packet(false, [Srv(service, "printer1.local", 631), A("printer1.local", Ipv4Addr(192, 168, 1, 50))]);
    var printer := Service("printer1.local", 631);
    HandleResponseCharacterised(map[], packet, service, now);
    assert Confirmed(packet.answers, service) == {printer};
    assert AddrsFor(packet.answers, "printer1.local") == {Ipv4Addr(192, 168, 1, 50)};
    var r := HandleResponse(map[], packet, service, now);
    assert r.Keys == {printer};
    assert r[printer] == ServiceRecord(now, {Ipv4Addr(192, 168, 1, 50)});
    assert r == map[printer := ServiceRecord(now, {Ipv4Addr(192, 168, 1, 50)})];
    assert !IsFresh(r[printer], now + 6 * NANOS_PER_SEC);
  }
}
