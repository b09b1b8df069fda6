/** One step of the UDP server: what `handle_packet` does with one datagram.
    Decoding, the local lookup and the upstream exchange are inputs; the
    result is the datagram the server sends (if any) and the status it returns. */
module ServerHandler {
  import opened Common
  import opened DomainNames
  import opened Dns
  import DomainTable
  import SqliteStore

  /** The TTL of synthesised A records, in seconds. */
  const AnswerTtl: nat := 60

  /** The size of the buffer the upstream reply is received into. */
  const UpstreamBufferSize: nat := 4096

  /** What the network did during `forward_udp_and_relay`: either the upstream
      server replied with a datagram and it was sent on to the client, or one
      of the steps failed (the socket could not be bound, the send failed, no
      reply came within two seconds, the receive failed, or the relay failed). */
  datatype Exchange = Replied(datagram: Bytes) | Failed(stage: ForwardStage)

  function Min(a: nat, b: nat): (m: nat)
    ensures m <= a && m <= b && (m == a || m == b)
  {
    if a <= b then a else b
  }

  /** `forward_udp_and_relay`: on success, the bytes relayed to the client are
      the upstream datagram as received into the fixed buffer. */
  function ForwardUdpAndRelay(exchange: Exchange): (r: Result<Bytes>)
    ensures r.Ok? <==> exchange.Replied?
    ensures r.Err? ==> r.error == ForwardFailed(exchange.stage)
    ensures r.Ok? ==> |r.value| <= UpstreamBufferSize && r.value <= exchange.datagram
    ensures r.Ok? && |exchange.datagram| <= UpstreamBufferSize ==> r.value == exchange.datagram
  {
    match exchange
    case Replied(datagram) => Ok(datagram[..Min(|datagram|, UpstreamBufferSize)])
    case Failed(stage) => Err(ForwardFailed(stage))
  }

  /** The header of both synthesised replies: a response to a standard query
      carrying the request's id, marked authoritative, echoing the question. */
  predicate IsReplyTo(reply: Message, id: U16, query: Question)
  {
    && reply.id == id
    && reply.messageType == Response
    && reply.opCode == OpQuery
    && reply.authoritative
    && reply.queries == [query]
  }

  /** The local answer: one A record for the question's name with the mapped address. */
  function AnswerReply(id: U16, query: Question, ip: Ipv4): (reply: Message)
    ensures IsReplyTo(reply, id, query)
    ensures ResponseCodeValue(reply.responseCode) == 0
    ensures |reply.answers| == 1
    ensures reply.answers[0].name == query.name && reply.answers[0].ttl == AnswerTtl
    ensures RecordTypeOf(reply.answers[0]) == A && reply.answers[0].rdata == AData(ip)
  {
    NewMessage().(id := id, messageType := Response, opCode := OpQuery, authoritative := true,
                  queries := [query], answers := [Record(query.name, AnswerTtl, AData(ip))])
  }

  /** The reply sent when forwarding fails: RCODE 2 (server failure) and no answers. */
  function ServFailReply(id: U16, query: Question): (reply: Message)
    ensures IsReplyTo(reply, id, query)
    ensures ResponseCodeValue(reply.responseCode) == 2
    ensures reply.answers == []
  {
    NewMessage().(id := id, messageType := Response, opCode := OpQuery, authoritative := true,
                  responseCode := ServFail, queries := [query])
  }

  /** The local answer as `handle_packet` assembles it, one setter at a time
      on a fresh `Message`. */
  method BuildAnswerReply(id: U16, query: Question, ip: Ipv4) returns (resp: Message)
    ensures resp == AnswerReply(id, query, ip)
  {
    resp := NewMessage();
    resp := resp.(id := id);
    resp := resp.(messageType := Response);
    resp := resp.(opCode := OpQuery);
    resp := resp.(authoritative := true);
    resp := resp.(queries := resp.queries + [query]);
    var record := Record(query.name, AnswerTtl, AData(ip));
    resp := resp.(answers := resp.answers + [record]);
  }

  /** The SERVFAIL reply as `handle_packet` assembles it. */
  method BuildServFailReply(id: U16, query: Question) returns (resp: Message)
    ensures resp == ServFailReply(id, query)
  {
    resp := NewMessage();
    resp := resp.(id := id);
    resp := resp.(messageType := Response);
    resp := resp.(opCode := OpQuery);
    resp := resp.(authoritative := true);
    resp := resp.(responseCode := ServFail);
    resp := resp.(queries := resp.queries + [query]);
  }

  /** What one call of `handle_packet` does. Every datagram it sends goes to
      the client the request came from. */
  datatype Outcome =
    | Dropped                       // nothing sent
    | Answered(client: SocketAddr, reply: Message)
    | Relayed(upstream: SocketAddr, request: Bytes, client: SocketAddr, relayed: Bytes)
    | ServFailed(upstream: SocketAddr, request: Bytes, client: SocketAddr, reply: Message, cause: Error)

  /** The value `handle_packet` returns. */
  function Status(o: Outcome): (r: Result<()>)
    ensures r.Err? <==> o.ServFailed?
    ensures r.Err? ==> r.error == o.cause
  {
    if o.ServFailed? then Err(o.cause) else Ok(())
  }

  /** The query types answered from the local table. */
  predicate IsAddressQuery(t: RecordType): (b: bool)
    ensures b <==> t in {A, ANY}
  {
    t == A || t == ANY
  }

  /** Whether the local lookup gives an answer: a stored address, for an A or ANY query. */
  predicate LocalHit(query: Question, local: Result<Option<Ipv4>>): (b: bool)
    ensures b ==> local.Ok? && local.value.Some?
    ensures b ==> query.queryType == A || query.queryType == ANY
  {
    local.Ok? && local.value.Some? && IsAddressQuery(query.queryType)
  }

  /** `handle_packet(packet, src, socket, state)`. `decoded` is what
      `Message::from_vec(packet)` gives (`None` for a parse error), `resolve`
      is the state's lookup, `upstream` the state's upstream address at the
      time, and `exchange` what the network does if the query is forwarded. */
  function HandlePacket(packet: Bytes, src: SocketAddr, decoded: Option<Message>,
                        resolve: string -> Result<Option<Ipv4>>, upstream: SocketAddr,
                        exchange: Exchange): (o: Outcome)
    ensures o.Dropped? <==> decoded.None? || decoded.value.queries == []
    ensures o.Answered? <==>
              decoded.Some? && decoded.value.queries != [] &&
              LocalHit(decoded.value.queries[0], resolve(decoded.value.queries[0].name))
    ensures o.Answered? ==>
              o.client == src &&
              o.reply == AnswerReply(decoded.value.id, decoded.value.queries[0],
                                     resolve(decoded.value.queries[0].name).value.value)
    ensures (o.Relayed? || o.ServFailed?) ==>
              o.upstream == upstream && o.request == packet && o.client == src
    ensures o.Relayed? ==> exchange.Replied? && Ok(o.relayed) == ForwardUdpAndRelay(exchange)
    ensures o.ServFailed? ==>
              exchange.Failed? && o.cause == ForwardFailed(exchange.stage) &&
              o.reply == ServFailReply(decoded.value.id, decoded.value.queries[0])
  {
    match decoded
    case None => Dropped
    case Some(msg) =>
      if msg.queries == [] then Dropped
      else
        var query := msg.queries[0];
        var local := resolve(query.name);
        if LocalHit(query, local) then
          Answered(src, AnswerReply(msg.id, query, local.value.value))
        else
          match ForwardUdpAndRelay(exchange)
          case Ok(bytes) => Relayed(upstream, packet, src, bytes)
          case Err(e) => ServFailed(upstream, packet, src, ServFailReply(msg.id, query), e)
  }

  /** Only the id and the first question of the request matter: the other
      questions, the other sections and the header flags are ignored. */
  lemma FirstQuestionOnly(packet: Bytes, src: SocketAddr, m1: Message, m2: Message,
                          resolve: string -> Result<Option<Ipv4>>, upstream: SocketAddr,
                          exchange: Exchange)
    requires m1.id == m2.id && m1.queries != [] && m2.queries != []
    requires m1.queries[0] == m2.queries[0]
    ensures HandlePacket(packet, src, Some(m1), resolve, upstream, exchange)
         == HandlePacket(packet, src, Some(m2), resolve, upstream, exchange)
  {
  }

  /** A local answer does not touch the upstream: it is the same whatever the
      upstream address is and whatever the network would do. */
  lemma LocalAnswerIgnoresUpstream(packet: Bytes, src: SocketAddr, msg: Message,
                                   resolve: string -> Result<Option<Ipv4>>,
                                   u1: SocketAddr, e1: Exchange, u2: SocketAddr, e2: Exchange)
    requires msg.queries != [] && LocalHit(msg.queries[0], resolve(msg.queries[0].name))
    ensures HandlePacket(packet, src, Some(msg), resolve, u1, e1)
         == HandlePacket(packet, src, Some(msg), resolve, u2, e2)
  {
  }

  /** Everything that is not answered locally is forwarded: a lookup that
      misses, a lookup that fails, and any query type other than A and ANY.
      The outcome is then the same whatever the lookup said. */
  lemma NoLocalHitForwards(packet: Bytes, src: SocketAddr, msg: Message,
                           r1: string -> Result<Option<Ipv4>>, r2: string -> Result<Option<Ipv4>>,
                           upstream: SocketAddr, exchange: Exchange)
    requires msg.queries != []
    requires !LocalHit(msg.queries[0], r1(msg.queries[0].name))
    requires !LocalHit(msg.queries[0], r2(msg.queries[0].name))
    ensures HandlePacket(packet, src, Some(msg), r1, upstream, exchange)
         == HandlePacket(packet, src, Some(msg), r2, upstream, exchange)
    ensures HandlePacket(packet, src, Some(msg), r1, upstream, exchange).Relayed? <==> exchange.Replied?
  {
  }

  /** The handler reports an error exactly when forwarding failed, and then it
      has still sent the client a SERVFAIL reply. */
  lemma ErrorOnlyAfterServFail(packet: Bytes, src: SocketAddr, decoded: Option<Message>,
                               resolve: string -> Result<Option<Ipv4>>, upstream: SocketAddr,
                               exchange: Exchange)
    ensures var o := HandlePacket(packet, src, decoded, resolve, upstream, exchange);
      Status(o).Err? <==>
        decoded.Some? && decoded.value.queries != [] && exchange.Failed? &&
        !LocalHit(decoded.value.queries[0], resolve(decoded.value.queries[0].name))
  {
  }

  /** With the in-memory table as the lookup, a name added with `add_domain`
      is answered locally for an A query in any ASCII case, with or without a
      trailing dot, with the address it was added with. */
  lemma AnswerAfterAddDomain(packet: Bytes, src: SocketAddr, msg: Message,
                             resolve: string -> Result<Option<Ipv4>>,
                             table: map<string, Ipv4>, name: string, ip: Ipv4,
                             upstream: SocketAddr, exchange: Exchange)
    requires msg.queries != [] && IsAddressQuery(msg.queries[0].queryType)
    requires Normalize(msg.queries[0].name) == Normalize(name)
    requires resolve(msg.queries[0].name) == Ok(DomainTable.Lookup(table[Normalize(name) := ip], msg.queries[0].name))
    ensures HandlePacket(packet, src, Some(msg), resolve, upstream, exchange)
         == Answered(src, AnswerReply(msg.id, msg.queries[0], ip))
  {
    DomainTable.ResolveAfterSet(table, name, ip, msg.queries[0].name);
  }

  /** With the persistent store as the lookup, a name stored with `set` is
      answered locally with the stored address. */
  lemma AnswerAfterStoreSet(packet: Bytes, src: SocketAddr, msg: Message,
                            resolve: string -> Result<Option<Ipv4>>,
                            table: map<string, SqliteStore.Row>, name: string, ip: Ipv4,
                            upstream: SocketAddr, exchange: Exchange)
    requires msg.queries != [] && IsAddressQuery(msg.queries[0].queryType)
    requires Normalize(msg.queries[0].name) == Normalize(name)
    requires resolve(msg.queries[0].name)
          == SqliteStore.StoreLookup(table[Normalize(name) := SqliteStore.EncodeRow(ip)],
                                     SqliteStore.StoreCandidates(Normalize(msg.queries[0].name)),
                                     SqliteStore.NoFault)
    ensures HandlePacket(packet, src, Some(msg), resolve, upstream, exchange)
         == Answered(src, AnswerReply(msg.id, msg.queries[0], ip))
  {
    SqliteStore.StoreResolveAfterSet(table, name, ip, msg.queries[0].name);
  }

  /** With the persistent store as the lookup, a store whose first statement
      fails makes the handler forward the query, stored entry or not. */
  lemma StoreFailureForwards(packet: Bytes, src: SocketAddr, msg: Message,
                             resolve: string -> Result<Option<Ipv4>>,
                             table: map<string, SqliteStore.Row>,
                             upstream: SocketAddr, exchange: Exchange)
    requires msg.queries != []
    requires resolve(msg.queries[0].name)
          == SqliteStore.StoreLookup(table, SqliteStore.StoreCandidates(Normalize(msg.queries[0].name)),
                                     SqliteStore.FailAt(0))
    ensures var o := HandlePacket(packet, src, Some(msg), resolve, upstream, exchange);
      (o.Relayed? || o.ServFailed?) && (o.Relayed? <==> exchange.Replied?)
  {
    SqliteStore.FirstStatementFails(table, SqliteStore.StoreCandidates(Normalize(msg.queries[0].name)));
  }
}
