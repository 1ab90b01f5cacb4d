/**
  The decisions of the three resolver entry points the library overrides
  (kobo_lib.c). getnameinfo and gethostbyname always refuse. getaddrinfo
  sends the query for the name, decodes the reply, and only then looks at the
  caller's family hint; it builds one IPv4 result whose socket type and
  protocol come from the hint.

  The exchange with the DNS server is a parameter: a function from the query
  sent to what came back. The service port, which the C code looks up with
  getservbyname or atoi, is a parameter too, and so is whether malloc
  succeeds.
 */
module Intercept {
  import opened Wrappers
  import opened Wire
  import opened Query
  import opened Response
  import opened ResponseProperties

  /** glibc's codes for a failed lookup, an unsupported family, and an allocation failure. */
  const EaiFail: int := -4
  const EaiFamily: int := -6
  const EaiMemory: int := -10

  /** Address families: unspecified and IPv4. */
  const AfUnspec: int := 0
  const AfInet: int := 2

  /** The fields of the caller's hint that getaddrinfo reads. */
  datatype Hints = Hints(family: int, socktype: int, protocol: int)

  /** The one result getaddrinfo hands back: family, socket type, protocol and the socket address. */
  datatype AddrInfo = AddrInfo(family: int, socktype: int, protocol: int, address: Ipv4, port: nat)

  /** What the resolver got back for a query: a datagram, or a socket, address, connect, send or recv failure (-1). */
  datatype Exchange = Received(datagram: seq<Byte>) | TransportFailed

  /** getaddrinfo's outcome: 0 with a result, or an error code. */
  datatype Outcome = Resolved(info: AddrInfo) | Refused(code: int)

  /** A legacy host entry; gethostbyname never produces one. */
  datatype HostEnt = HostEnt(name: seq<Byte>, addresses: seq<Ipv4>)

  /** The reverse lookup entry point: it refuses every call. */
  function GetNameInfo(address: seq<Byte>, flags: int): (code: int)
    ensures code == EaiFail
  {
    EaiFail
  }

  /** The legacy lookup entry point: it refuses every call with a null result. */
  function GetHostByName(name: seq<Byte>): (r: Option<HostEnt>)
    ensures r == None
  {
    None
  }

  /**
    The octets of the reply the decoder sees: recv stores at most the 512
    octets of the response buffer, and a failed exchange leaves nothing.
   */
  function Reply(e: Exchange): (resp: seq<Byte>)
    ensures |resp| <= MaxMessage
    ensures e.TransportFailed? ==> resp == []
    ensures e.Received? ==> |resp| == (if |e.datagram| <= MaxMessage then |e.datagram| else MaxMessage)
    ensures e.Received? ==> resp == e.datagram[..|resp|]
  {
    match e
    case TransportFailed => []
    case Received(d) => if |d| > MaxMessage then d[..MaxMessage] else d
  }

  /**
    Keeping only the first 512 octets of a longer datagram loses nothing the
    decoder would use once the kept octets yield an address or pass all
    ANCOUNT records: the whole datagram decodes the same way.
   */
  lemma ReplyKeepsVerdict(d: seq<Byte>)
    requires Decode(Reply(Received(d))).Success? || Decode(Reply(Received(d))) == Failure(NoAddress)
    ensures Decode(d) == Decode(Reply(Received(d)))
  {
    DecodeIgnoresTrailingOctets(Reply(Received(d)), d);
  }

  /** The exchange failed, the reply was empty, or it held no usable address: resp_len <= 0 or a zero parse. */
  predicate LookupFailed(e: Exchange) {
    e.TransportFailed? || |Reply(e)| == 0 || Decode(Reply(e)).Failure?
  }

  /** A lookup succeeds exactly when a datagram arrived and its first 512 octets decode to an address. */
  lemma LookupSucceeds(e: Exchange)
    ensures !LookupFailed(e) <==> e.Received? && Decode(Reply(e)).Success?
  {
    if e.Received? && Decode(Reply(e)).Success? {
      assert |Reply(e)| >= HeaderSize;
    }
  }

  /** What came back for the query of the name: dns_builder's octets are what the resolver sends. */
  function Lookup(name: seq<Byte>, exchange: seq<Byte> -> Exchange): Exchange {
    exchange(BuildQuery(name))
  }

  /** The caller asked for a family other than unspecified or IPv4. */
  predicate FamilyRefused(hints: Option<Hints>) {
    hints.Some? && hints.value.family != AfUnspec && hints.value.family != AfInet
  }

  /**
    getaddrinfo after its environment check. The resolver sends
    BuildQuery(name); only names whose query fits the 512-octet buffer are
    admitted, since dns_builder does not check the length. EAI_FAIL for a failed exchange or
    a reply with no address; then EAI_FAMILY for an unsupported family hint;
    then EAI_MEMORY when the allocation fails; otherwise one IPv4 result.
    service is the port getservbyname or atoi gives, or None when the caller
    passed no service.
   */
  function GetAddrInfo(name: seq<Byte>, hints: Option<Hints>, exchange: seq<Byte> -> Exchange,
                       service: Option<nat>, allocates: bool): (r: Outcome)
    requires QueryFits(name)
    ensures r.Refused? ==> r.code == EaiFail || r.code == EaiFamily || r.code == EaiMemory
    ensures r == Refused(EaiFail) <==> LookupFailed(Lookup(name, exchange))
    ensures r == Refused(EaiFamily) <==> !LookupFailed(Lookup(name, exchange)) && FamilyRefused(hints)
    ensures r == Refused(EaiMemory) <==>
      !LookupFailed(Lookup(name, exchange)) && !FamilyRefused(hints) && !allocates
    ensures r.Resolved? ==>
      var reply := Reply(Lookup(name, exchange));
      && Decode(reply).Success?
      && r.info.family == AfInet
      && r.info.address == Decode(reply).value
      && r.info.socktype == (if hints.Some? then hints.value.socktype else 0)
      && r.info.protocol == (if hints.Some? then hints.value.protocol else 0)
      && r.info.port == (if service.Some? then service.value else 0)
  {
    var e := Lookup(name, exchange);
    match e
    case TransportFailed => Refused(EaiFail)
    case Received(d) =>
      var resp := Reply(e);
      if |resp| == 0 then Refused(EaiFail)
      else
        match Decode(resp)
        case Failure(_) => Refused(EaiFail)
        case Success(ip) =>
          if FamilyRefused(hints) then Refused(EaiFamily)
          else if !allocates then Refused(EaiMemory)
          else
            Resolved(AddrInfo(AfInet,
                              if hints.Some? then hints.value.socktype else 0,
                              if hints.Some? then hints.value.protocol else 0,
                              ip,
                              if service.Some? then service.value else 0))
  }

  /**
    The family hint is consulted only after the exchange: with a failed
    exchange or a reply without an address, every hint gives EAI_FAIL, even
    one the function would refuse.
   */
  lemma FamilyCheckedAfterExchange(name: seq<Byte>, h1: Option<Hints>, h2: Option<Hints>,
                                   exchange: seq<Byte> -> Exchange, service: Option<nat>, allocates: bool)
    requires QueryFits(name) && LookupFailed(Lookup(name, exchange))
    ensures GetAddrInfo(name, h1, exchange, service, allocates) == GetAddrInfo(name, h2, exchange, service, allocates)
  {
  }

  /**
    getaddrinfo succeeds exactly when the reply holds an A record, the hint
    allows IPv4, and the allocation succeeds; without a hint only the first
    and last matter.
   */
  lemma GetAddrInfoSucceeds(name: seq<Byte>, hints: Option<Hints>, exchange: seq<Byte> -> Exchange,
                            service: Option<nat>, allocates: bool)
    requires QueryFits(name)
    ensures GetAddrInfo(name, hints, exchange, service, allocates).Resolved? <==>
      && Lookup(name, exchange).Received?
      && Decode(Reply(Lookup(name, exchange))).Success?
      && !FamilyRefused(hints)
      && allocates
    ensures hints.None? ==> GetAddrInfo(name, hints, exchange, service, allocates) != Refused(EaiFamily)
  {
    LookupSucceeds(Lookup(name, exchange));
  }
}
