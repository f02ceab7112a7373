/**
 * The registry as the client keeps it: one map, updated in place by the response
 * handler and the eviction pass. Each method is proved to leave the map equal to the
 * corresponding definition of module `Registry`, whose properties are proved there.
 */
module Database {
  import opened Net
  import opened Dns
  import opened Registry

  class ServiceDatabase {
    var entries: Db

    /** The registry starts empty. */
    constructor ()
      ensures entries == map[]
    {
      entries := map[];
    }

    /** Upsert one service: refresh a known entry's time, or insert it with no addresses. */
    method Refresh(s: Service, now: nat)
      modifies this
      ensures s in entries && entries[s].lastSeen == now
      ensures entries == Registry.Refresh(old(entries), s, now)
    {
      if s in entries {
        entries := entries[s := entries[s].(lastSeen := now)];
      } else {
        entries := entries[s := ServiceRecord(now, {})];
      }
    }

    /** Visit every entry and add `addr` to those whose host is `host`. */
    method AttributeAddress(host: string, addr: Ipv4Addr)
      modifies this
      ensures entries.Keys == old(entries).Keys
      ensures entries == Registry.Attribute(old(entries), host, addr)
    {
      ghost var before := entries;
      var pending := entries.Keys;
      while pending != {}
        invariant pending <= before.Keys
        invariant entries.Keys == before.Keys
        invariant forall k :: k in pending ==> entries[k] == before[k]
        invariant forall k :: k in before && k !in pending ==> entries[k] == Registry.Attribute(before, host, addr)[k]
        decreases pending
      {
        var k :| k in pending;
        if k.host == host {
          entries := entries[k := entries[k].(addresses := entries[k].addresses + {addr})];
        }
        pending := pending - {k};
      }
    }

    /**
     * Apply one decoded packet: nothing for a query; otherwise upsert the service of
     * every SRV answer for `service`, then attribute every A answer's address.
     */
    method HandleResponse(packet: Packet, service: string, now: nat)
      modifies this
      ensures packet.isQuery ==> entries == old(entries)
      ensures entries == Registry.HandleResponse(old(entries), packet, service, now)
    {
      if packet.isQuery {
        return;
      }
      var answers := packet.answers;
      var i := 0;
      while i < |answers|
        invariant 0 <= i <= |answers|
        invariant ApplySrv(entries, answers[i..], service, now) == ApplySrv(old(entries), answers, service, now)
      {
        assert answers[i..][1..] == answers[i + 1..];
        match answers[i] {
          case Srv(name, target, port) =>
            if name == service {
              Refresh(Service(target, port), now);
            }
          case _ =>
        }
        i := i + 1;
      }
      ghost var afterSrv := entries;
      i := 0;
      while i < |answers|
        invariant 0 <= i <= |answers|
        invariant ApplyA(entries, answers[i..]) == ApplyA(afterSrv, answers)
      {
        assert answers[i..][1..] == answers[i + 1..];
        match answers[i] {
          case A(name, addr) =>
            AttributeAddress(name, addr);
          case _ =>
        }
        i := i + 1;
      }
    }

    /** Drop, in place, every entry confirmed `MAX_AGE` or longer ago. */
    method RemoveOldEntries(now: nat)
      modifies this
      ensures entries == RemoveOld(old(entries), now)
    {
      ghost var before := entries;
      var pending := entries.Keys;
      while pending != {}
        invariant pending <= before.Keys
        invariant forall k :: k in entries <==> k in before && (k in pending || IsFresh(before[k], now))
        invariant forall k :: k in entries ==> entries[k] == before[k]
        decreases pending
      {
        var k :| k in pending;
        if !(Elapsed(now, entries[k].lastSeen) < MAX_AGE) {
          entries := entries - {k};
        }
        pending := pending - {k};
      }
    }
  }
}
