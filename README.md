# simple_mdns_client, modelled in Dafny

A model of the discovery engine of `simple_mdns_client`, a multicast DNS (RFC 6762)
client. The client multicasts an SRV query for one service name on every usable
local interface, once per second. It reads the responses and keeps a registry that
maps each discovered `Service { host, port }` to a `ServiceRecord { last_seen_time,
addresses }`. Entries not confirmed for 5 seconds are evicted.

Modules, one per component of `src/lib.rs`:

- `Net` (net.dfy): bytes, ports, IPv4 addresses, the mDNS group 224.0.0.251:5353, and
  the interface filter (non-loopback IPv4 interfaces, in enumeration order).
- `Dns` (dns.dfy): a decoded packet as a value. It holds the QR bit (section 4.1.1 of
  RFC 1035) and the answer section, reduced to SRV (RFC 2782), A (section 3.4.1 of
  RFC 1035) and other records. It also holds the query the client sends.
- `Registry` (registry.dfy): `Service`, `ServiceRecord` and the registry map. It gives
  the pure definitions of `handle_response` (queries ignored, then an SRV pass, then an
  A pass) and of `remove_old_entries`. Its lemmas state what those promise.
- `Database` (database.dfy): the registry as a class whose `entries` map is updated in
  place. It has the upsert (`entry().and_modify().or_insert_with()`), the `iter_mut`
  address pass, `handle_response` and the `retain` eviction. Each method is proved to
  produce the `Registry` definition.
- `Discovery` (discovery.dfy): draining one socket, one poll cycle, and the background
  loop as a run over the outcomes of its waits for the stop signal. Its lemmas cover
  draining, liveness of confirmed services, and the order of events in a cycle.
- `Client` (client.dfy): `MdnsClient` with construction, `get_services`, the socket drain
  loop (`recive_response`), one poll cycle, and the background loop.

Time is a monotonic clock reading in nanoseconds (`nat`). `Instant::now()` becomes a
`now` parameter. `elapsed()` becomes `Elapsed(now, since)`, which is zero for a reading
from the future, as with Rust's saturating `Instant` subtraction. DNS decoding is a
parameter `parse: seq<Byte> -> Option<Packet>`. A socket's pending input is a
sequence of receive outcomes; its end stands for "no data pending" (`WouldBlock`).

Two points of behaviour, as the code has them:

- SRV answers are matched by exact equality of the owner name with the service name
  (src/lib.rs:74). There is no substring matching.
- The loop has no separate "Stopping" state: a stop signal or a lost sender ends it at
  once (src/lib.rs:180).

## Model

| member | source | states |
|---|---|---|
| `Net.UsableAddrs` | src/lib.rs:152-161 | no address kept is loopback, and at most one address is kept per interface |
| `Net.UsableAddrsAppend` | src/lib.rs:152-161 | the filter distributes over concatenation, so it keeps enumeration order |
| `Net.UsableAddrsMembership` | src/lib.rs:152-161 | an address is kept if and only if some interface carries it as a non-loopback IPv4 address |
| `Registry.SrvAnswerUpserts` | src/lib.rs:68-87 | an SRV answer for the service upserts (target, port): a new key gets `now` and no addresses; a known key gets `now` and keeps its addresses; nothing else changes. An SRV answer for another name changes nothing |
| `Registry.AAnswerAttributes` | src/lib.rs:92-102 | an A answer adds its address to exactly the entries whose host is its name; keys and times are unchanged |
| `Registry.ApplySrvCharacterised` | src/lib.rs:67-89 | after the SRV pass the keys are the old keys plus the confirmed services; those carry `now` and keep their addresses; the rest are unchanged |
| `Registry.ApplyACharacterised` | src/lib.rs:91-104 | the A pass keeps keys and times, and adds to each entry every address the packet gives for its host |
| `Registry.HandleResponseCharacterised` | src/lib.rs:56-105 | full result of a response: keys, times and addresses, each given by order-free sets of the packet's answers |
| `Registry.QueryLeavesRegistry` | src/lib.rs:61-63 | a packet with the query flag leaves the registry exactly unchanged |
| `Registry.UnrelatedResponseCreatesNothing` | src/lib.rs:74 | a response with no SRV answer for the service creates no entry and refreshes no time |
| `Registry.UnknownHostIgnored` | src/lib.rs:91-104 | an A record for a host that no entry has is a no-op |
| `Registry.SrvThenAddressInOnePacket` | src/lib.rs:67-104 | an SRV and an A answer for its target anywhere in one response leave the service present, with time `now` and that address |
| `Registry.AnswerOrderIrrelevant` | src/lib.rs:67-104 | two responses with the same answers, in any order, have the same effect, because all SRV answers are applied before any A answer |
| `Registry.HandleResponseMonotone` | src/lib.rs:80-102 | when no stored time is later than `now`, handling removes no key, moves no time backwards, drops no address, and stores no time later than `now` |
| `Registry.HandleResponseKeepsCurrent` | src/lib.rs:80-86 | an entry stamped `now` stays stamped `now` through further packets at `now` |
| `Registry.RemoveOldKeepsFresh` | src/lib.rs:123-126 | a key survives eviction if and only if it was present with elapsed time under 5 s; survivors are unchanged; a second pass at the same time is a no-op |
| `Registry.RemoveOldOnlyFresh` | src/lib.rs:125 | every entry left after eviction was confirmed less than 5 s before |
| `Registry.PrinterDiscoveredThenExpires` | src/lib.rs:56-126 | the SRV+A response for printer1.local:631 yields exactly that entry with address 192.168.1.50; an eviction 6 s later empties the registry |
| `Database.ServiceDatabase.constructor` | src/lib.rs:148 | the registry starts empty |
| `Database.ServiceDatabase.Refresh` | src/lib.rs:80-86 | in-place upsert equals `Registry.Refresh`; the key is present with time `now` |
| `Database.ServiceDatabase.AttributeAddress` | src/lib.rs:98-102 | in-place visit of every entry equals `Registry.Attribute`; keys unchanged |
| `Database.ServiceDatabase.HandleResponse` | src/lib.rs:56-105 | the two in-place passes leave the map equal to `Registry.HandleResponse`; a query changes nothing |
| `Database.ServiceDatabase.RemoveOldEntries` | src/lib.rs:123-126 | in-place `retain` leaves the map equal to `Registry.RemoveOld` |
| `Discovery.Truncated` | src/lib.rs:112-117 | a datagram is read into a 2048-byte buffer: the result is its first min(length, 2048) bytes |
| `Discovery.DrainIsHandleAll` | src/lib.rs:114-119 | draining a socket equals handling, in order, each datagram before the first receive error that parses; unparseable datagrams contribute nothing |
| `Discovery.DrainStopsAtError` | src/lib.rs:115 | nothing after the first receive error is read |
| `Discovery.LeadingTimeouts` | src/lib.rs:178-180 | the loop runs exactly as many cycles as there are timeouts before the first stop signal or disconnection |
| `Discovery.SurvivesNextCycle` | src/lib.rs:181-188 | a service confirmed less than 5 s before a cycle is still present after that cycle, even if nothing in it mentions the service |
| `Discovery.ConfirmedNotEvicted` | src/lib.rs:181-188 | a service confirmed by a response in a cycle is present after that cycle's eviction, with the cycle's time |
| `Discovery.CycleLeavesOnlyFresh` | src/lib.rs:187 | after a cycle every entry was confirmed less than 5 s before the cycle's time |
| `Discovery.ConfirmedEveryCycleNeverEvicted` | src/lib.rs:178-190 | a service confirmed in every cycle is present after a run of any length |
| `Discovery.RefreshedInTimeNeverEvicted` | src/lib.rs:178-190 | with a clock that never goes backwards, a service present before a run stays present after every cycle, provided each cycle confirms it or comes less than 5 s after its last confirmation |
| `Discovery.CycleTraceOrder` | src/lib.rs:181-188 | in a cycle each socket is sent the SRV query for the service (to 224.0.0.251:5353) and then drained, in socket order, and eviction comes last |
| `Discovery.RunTraceLength` | src/lib.rs:178-190 | a run's trace has the length of one full cycle trace per leading timeout |
| `Discovery.RunTraceSnoc` | src/lib.rs:178-190 | the trace of the first i+1 cycles is that of the first i followed by cycle i's full trace (sends and drains per socket, then eviction), so a run's events are one full cycle per leading timeout, in order |
| `Discovery.RunTraceWhole` | src/lib.rs:178-190 | a run's trace equals the trace of its leading timeouts alone; with `RunTraceSnoc`, a run's events are one full cycle per leading timeout, in order, and nothing after the first stop |
| `Discovery.NoSocketsNoServices` | src/lib.rs:150-190 | with no sockets, a registry that starts empty stays empty for any run |
| `Client.MdnsClient.constructor` | src/lib.rs:193-197 | a client over the given sockets with an empty registry |
| `Client.MdnsClient.New` | src/lib.rs:147-170 | construction succeeds exactly when every usable interface's socket setup succeeds; then the client has one socket per usable interface, in order, and an empty registry; otherwise the error names the first failing interface |
| `Client.MdnsClient.GetServices` | src/lib.rs:200-207 | the snapshot has one pair per registry entry, with distinct keys, every key, and each key's record |
| `Client.MdnsClient.ReceiveResponse` | src/lib.rs:107-121 | the loop leaves the registry equal to `Discovery.Drain` of the socket's pending input |
| `Client.MdnsClient.PollOnce` | src/lib.rs:181-188 | one cycle leaves the registry equal to `Discovery.PollCycle` and performs `Discovery.CycleTrace` |
| `Client.MdnsClient.Run` | src/lib.rs:178-190 | the loop runs `LeadingTimeouts` cycles, stops if and only if a stop or disconnection came, and leaves the registry and the event trace given by `RunRegistry` and `RunTrace` |

## Left out

- Socket creation, address and port reuse, multicast loopback, joining the group,
  non-blocking mode and `send_to` (src/lib.rs:25-54, src/lib.rs:163-167): operating
  system I/O. Construction takes the outcome of setting up each interface as a
  parameter. A send appears only as a `Sent` event.
- Failure of interface enumeration itself (src/lib.rs:152): operating system I/O. The
  model starts from the list of interfaces.
- DNS wire encoding and decoding (`dns_parser`): a foreign library. Decoding is a
  parameter. The query is the value `Dns.Request`. A name is compared by its dotted
  text form. The panic of `build().unwrap()` for a name the encoder cannot hold is
  not modelled.
- Threads, `Mutex`, `Arc`, the zero-capacity channel and `Drop` with `join`
  (src/lib.rs:172-191, src/lib.rs:210-215): concurrency. The loop runs sequentially
  over a sequence of wait outcomes. Each registry change is one step, as it is under
  the lock. Teardown is the `Signalled` outcome; joining is not modelled.
- The wall clock: one clock reading serves a whole cycle, for both the SRV refreshes
  and the eviction. The source reads the clock at each SRV answer (src/lib.rs:82 for a
  known entry, src/lib.rs:84 for a new one) and again once per entry during eviction
  (src/lib.rs:125), so each entry is judged against its own reading. Between the two come every later drain of the
  cycle (src/lib.rs:182-185), and a drain lasts as long as datagrams keep arriving.
  The one-second wait is not modelled; the time of each cycle is an input.
- Discovery.ConfirmedNotEvicted: relies on that single reading per cycle. In the
  source it holds only if the rest of the cycle, after the confirming response, ends
  within 5 s.
- Discovery.ConfirmedEveryCycleNeverEvicted: relies on the single reading per cycle,
  with the same premise: the rest of each cycle ends within 5 s.
- Discovery.RefreshedInTimeNeverEvicted: relies on the single reading per cycle, with
  the same premise for every cycle that confirms the service.
- Discovery.Drain: a socket's pending input is a finite sequence, so every drain ends.
  In the source the drain loop (src/lib.rs:114-120) ends only when `recv` fails. If
  datagrams keep arriving at least as fast as they are read, it never ends: that
  cycle's eviction (src/lib.rs:187) never runs, the stop signal (src/lib.rs:179) is
  never received, and `Drop` blocks in `send` on the zero-capacity channel
  (src/lib.rs:172, src/lib.rs:212). `Client.MdnsClient.Run` and the run-level
  liveness lemmas hold only for drains that end.
- Discovery.Truncated: cuts a long datagram to the buffer and keeps reading, as a Unix
  `recv` does. The source also builds for Windows (src/lib.rs:33-38). There, a
  datagram over 2048 bytes makes `recv` fail, and the `?` at src/lib.rs:115 ends the
  drain.
- Client.SetupError: `SocketSetup(ip)` names the interface whose setup failed. The
  source returns the operating system's `io::Error` from whichever call failed
  (src/lib.rs:163-167), and that error carries no interface address.
- `examples/test.rs`: a print-and-sleep demo.
