/**
 * The DNS messages the client exchanges, as values. Wire encoding and decoding belong
 * to a DNS library outside this model: a received datagram is turned into a `Packet`
 * by a parse function that the caller supplies.
 */
module Dns {
  import opened Net

  /**
   * One answer record of a decoded packet, reduced to what the client reads:
   * an SRV record (RFC 2782) names a target host and port, an A record
   * (section 3.4.1 of RFC 1035) gives a host's IPv4 address. Every other record
   * type is `Other`. A domain name is its dotted text form.
   */
  datatype Answer =
    | Srv(name: string, target: string, port: Port)
    | A(name: string, addr: Ipv4Addr)
    | Other(name: string)

  /**
   * A decoded packet: the QR bit of its header (section 4.1.1 of RFC 1035),
   * true for a query, and its answer section in wire order.
   */
  datatype Packet = Packet(isQuery: bool, answers: seq<Answer>)

  datatype QueryType = SRV
  datatype QueryClass = IN

  datatype Question = Question(qname: string, qtype: QueryType, qclass: QueryClass, preferUnicast: bool)

  /** A query message: transaction id, recursion-desired flag and questions. */
  datatype Query = Query(id: nat, recursionDesired: bool, questions: seq<Question>)

  /**
   * The query the client multicasts for its service: transaction id 0, no recursion,
   * one SRV/IN question for the service name with the unicast-response bit clear.
   */
  function Request(service: string): Query {
    Query(0, false, [Question(service, SRV, IN, false)])
  }

  /** Where every query goes: the mDNS group and port. */
  const QUERY_DESTINATION: SocketAddr := SocketAddr(MULTICAST_ADDR, MULTICAST_PORT)
}
