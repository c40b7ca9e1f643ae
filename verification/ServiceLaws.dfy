/** How the two handlers relate, and what a client of a connection receives. */
module ServiceLaws {
  import opened Bytes
  import opened Wire
  import opened Packets
  import opened Framing
  import opened Forwarder
  import opened Service
  import PacketRoundTrip
  import RepeatedRecord
  import ReplySizes
  import Records
  import Engine
  import C = Cache

  // ----- Which queries get which answer -----

  /** The datagram handler on every query.  One that is not a message with a question is
      dropped; one for a blocked name gets the blocked reply; one whose name and type are
      cached with life left gets that entry with its remaining TTL; any other gets the first
      upstream reply, unless all upstreams fail or the reply has a cut-off character-string,
      and what the reply is parsed to is cached. */
  lemma DatagramAnswer(policy: Policy, c: C.Cache, query: Message, w: World)
    requires c.minTtl <= c.maxTtl
    ensures var (c', reply) := Udp(policy, c, query, w);
      if !Decode(query).Ok? || Decode(query).value.questions == [] then (c', reply) == (c, None)
      else
        var p := Decode(query).value;
        var name, qtype := p.questions[0].name, p.questions[0].qtype;
        var k := C.Key(Lower(name), qtype);
        if Engine.Evaluate(policy.filter, name).Blocked? then
          (c', reply) == (c, Some(Encode(Blocked(p, policy.useNxdomain))))
        else
          var looked := C.Get(c, name, qtype, w.checked, w.aged).0;
          if k in c.lru.table && Alive(c.lru.table[k], w.checked) then
            var e := c.lru.table[k];
            (c', reply) == (looked, Some(Encode(C.Aged(e.packet, C.RemainingTtl(e, w.aged)))))
          else if Forward(w.attempts).Failed? || PacketRoundTrip.CutOffMessage(Forward(w.attempts).octets) then
            (c', reply) == (looked, None)
          else
            var m := Forward(w.attempts).octets;
            && reply == Some(m)
            && c' == if Decode(m).Ok? then C.Insert(looked, name, qtype, Decode(m).value, w.stored) else looked
  {
    hide Encode, Decode, C.Get, C.Insert, C.Aged, C.RemainingTtl, C.Expired, Alive, Forward, Engine.Evaluate;
    hide Blocked, PacketRoundTrip.CutOffMessage;
    if Forward(w.attempts).Replied? {
      PacketRoundTrip.MessageAbortsExactly(Forward(w.attempts).octets);
    }
    if Decode(query).Ok? && Decode(query).value.questions != [] {
      LiveEntryIsHit(c, Decode(query).value, w);
    }
  }

  /** An entry whose life has not passed. */
  predicate Alive(e: C.CachedResponse, now: nat) {
    e.ttl > 0 && now < e.createdAt + e.ttl
  }

  lemma LiveEntryIsHit(c: C.Cache, p: Packet, w: World)
    requires p.questions != []
    ensures var k := C.Key(Lower(p.questions[0].name), p.questions[0].qtype);
      LookupFor(c, p, w).1 == if k in c.lru.table && Alive(c.lru.table[k], w.checked) then
                                var e := c.lru.table[k]; Some(C.Aged(e.packet, C.RemainingTtl(e, w.aged)))
                              else None
  {
    hide C.Get, C.Aged, C.RemainingTtl;
    C.GetReturns(c, p.questions[0].name, p.questions[0].qtype, w.checked, w.aged);
  }

  /** The connection handler on every query: the same, but for SERVFAIL when all upstreams
      fail and an upstream reply that is passed on before it aborts the task. */
  lemma ConnectionAnswer(policy: Policy, c: C.Cache, query: Message, w: World)
    requires c.minTtl <= c.maxTtl
    ensures var (c', reply) := Udp(policy, c, query, w);
      Tcp(policy, c, query, w)
      == if !Decode(query).Ok? then Served(c', reply, Decode(query).Err?)
         else if Decode(query).value.questions == [] || reply.Some? then Served(c', reply, true)
         else if Forward(w.attempts).Failed? then Served(c', Some(Encode(ServFail(Decode(query).value))), true)
         else Served(c', Some(Forward(w.attempts).octets), false)
  {
    hide Encode, Decode, C.Get, C.Insert, Forward, Engine.Evaluate, Blocked, ServFail;
  }

  /** Silence: a query gets no datagram exactly when it is not a message with a question, or
      reaches upstreams that all fail or reply with a cut-off character-string. */
  lemma SilentExactly(policy: Policy, c: C.Cache, query: Message, w: World)
    requires c.minTtl <= c.maxTtl
    ensures Udp(policy, c, query, w).1.None?
       <==> || !Decode(query).Ok? || Decode(query).value.questions == []
            || (var q := Decode(query).value.questions[0];
                var k := C.Key(Lower(q.name), q.qtype);
                && !Engine.Evaluate(policy.filter, q.name).Blocked?
                && !(k in c.lru.table && Alive(c.lru.table[k], w.checked))
                && (Forward(w.attempts).Failed? || PacketRoundTrip.CutOffMessage(Forward(w.attempts).octets)))
  {
    hide Encode, Decode, C.Get, C.Insert, C.Aged, C.RemainingTtl, Alive, Forward, Engine.Evaluate, Udp;
    hide Blocked, PacketRoundTrip.CutOffMessage;
    DatagramAnswer(policy, c, query, w);
  }

  // ----- How the two handlers relate -----

  /** The query gets as far as the upstreams. */
  predicate Misses(policy: Policy, c: C.Cache, query: Message, w: World) {
    && Admit(policy, query).Admitted?
    && LookupFor(c, Admit(policy, query).packet, w).1.None?
  }

  predicate UpstreamFails(policy: Policy, c: C.Cache, query: Message, w: World) {
    Misses(policy, c, query, w) && Forward(w.attempts).Failed?
  }

  /** The upstream reply is a message with a cut-off character-string. */
  ghost predicate UpstreamAborts(policy: Policy, c: C.Cache, query: Message, w: World) {
    Misses(policy, c, query, w) && Forward(w.attempts).Replied? && PacketRoundTrip.CutOffMessage(Forward(w.attempts).octets)
  }

  /** The query, or the upstream reply to it, has a cut-off character-string. */
  ghost predicate Aborts(policy: Policy, c: C.Cache, query: Message, w: World) {
    PacketRoundTrip.CutOffMessage(query) || UpstreamAborts(policy, c, query, w)
  }

  lemma AbortedOctets(policy: Policy, query: Message, w: World)
    ensures Admit(policy, query).Aborted? <==> PacketRoundTrip.CutOffMessage(query)
    ensures Forward(w.attempts).Replied? ==>
              (Decode(Forward(w.attempts).octets).Panicked? <==> PacketRoundTrip.CutOffMessage(Forward(w.attempts).octets))
  {
    hide Decode, Forward, PacketRoundTrip.CutOffMessage;
    PacketRoundTrip.MessageAbortsExactly(query);
    if Forward(w.attempts).Replied? {
      PacketRoundTrip.MessageAbortsExactly(Forward(w.attempts).octets);
    }
  }

  /** One query through both handlers: the caches always agree; the replies agree exactly
      when the query neither finds all upstreams failing nor gets a reply with a cut-off
      character-string; the connection survives exactly when neither query nor reply has
      one; and when the upstreams fail, one handler is silent and the other says SERVFAIL. */
  lemma HandlersAgree(policy: Policy, c: C.Cache, query: Message, w: World)
    requires c.minTtl <= c.maxTtl
    ensures var u, t := Udp(policy, c, query, w), Tcp(policy, c, query, w);
      && t.cache == u.0
      && (t.alive <==> !Aborts(policy, c, query, w))
      && (t.reply == u.1 <==> !UpstreamFails(policy, c, query, w) && !UpstreamAborts(policy, c, query, w))
      && (UpstreamFails(policy, c, query, w) ==>
            && u.1 == None && t.reply == Some(Encode(ServFail(Admit(policy, query).packet)))
            && forall i | 0 <= i < |w.attempts| :: Result(w.attempts[i]).Failed?)
      && (Aborts(policy, c, query, w) ==> u.1 == None && t.reply == LastWords(policy, c, query, w))
  {
    hide Encode, Decode, C.Get, C.Insert, Forward, Result, Admit, Blocked, ServFail, PacketRoundTrip.CutOffMessage;
    ForwardExactly(w.attempts);
    AbortedOctets(policy, query, w);
  }

  /** What a connection that dies over a query has still written: an upstream reply that
      cannot be parsed has been passed on already. */
  ghost function LastWords(policy: Policy, c: C.Cache, query: Message, w: World): Option<Message> {
    if UpstreamAborts(policy, c, query, w) then Some(Forward(w.attempts).octets) else None
  }

  // ----- Runs -----

  function UdpRun(policy: Policy, c: C.Cache, queries: seq<Message>, ws: seq<World>): (C.Cache, seq<Option<Message>>)
    requires c.minTtl <= c.maxTtl && |ws| == |queries|
    decreases |queries|
  {
    if queries == [] then (c, [])
    else
      var (c', reply) := Udp(policy, c, queries[0], ws[0]);
      var (c'', replies) := UdpRun(policy, c', queries[1..], ws[1..]);
      (c'', [reply] + replies)
  }

  /** The replies of a connection, one place for each query that was served. */
  datatype TcpResult = TcpResult(cache: C.Cache, replies: seq<Option<Message>>, alive: bool)

  function TcpRun(policy: Policy, c: C.Cache, queries: seq<Message>, ws: seq<World>): TcpResult
    requires c.minTtl <= c.maxTtl && |ws| == |queries|
    decreases |queries|
  {
    if queries == [] then TcpResult(c, [], true)
    else
      var s := Tcp(policy, c, queries[0], ws[0]);
      if !s.alive then TcpResult(s.cache, [s.reply], false)
      else
        var rest := TcpRun(policy, s.cache, queries[1..], ws[1..]);
        TcpResult(rest.cache, [s.reply] + rest.replies, rest.alive)
  }

  /** No query of the run aborts its task. */
  ghost predicate NoneAborts(policy: Policy, c: C.Cache, queries: seq<Message>, ws: seq<World>)
    requires c.minTtl <= c.maxTtl && |ws| == |queries|
    decreases |queries|
  {
    queries == [] ||
    (&& !Aborts(policy, c, queries[0], ws[0])
     && NoneAborts(policy, Udp(policy, c, queries[0], ws[0]).0, queries[1..], ws[1..]))
  }

  /** The replies of the two handlers to one list of queries. */
  predicate Alike(policy: Policy, queries: seq<Message>, udp: seq<Option<Message>>, tcp: seq<Option<Message>>)
    decreases |queries|
  {
    && |udp| == |tcp| == |queries|
    && (queries == [] ||
        (&& (tcp[0] == udp[0] ||
             (udp[0] == None && Admit(policy, queries[0]).Admitted?
              && tcp[0] == Some(Encode(ServFail(Admit(policy, queries[0]).packet)))))
         && Alike(policy, queries[1..], udp[1..], tcp[1..])))
  }

  /** Main result on the handlers: over every list of queries, with the same clock and the
      same upstreams, the connection stays up exactly when no query aborts, and then both
      handlers leave the same cache and give the same replies, but for SERVFAIL in the
      place of silence. */
  lemma {:induction false} RunsAgree(policy: Policy, c: C.Cache, queries: seq<Message>, ws: seq<World>)
    requires c.minTtl <= c.maxTtl && |ws| == |queries|
    ensures var u, t := UdpRun(policy, c, queries, ws), TcpRun(policy, c, queries, ws);
      && (t.alive <==> NoneAborts(policy, c, queries, ws))
      && (t.alive ==> t.cache == u.0 && Alike(policy, queries, u.1, t.replies))
    decreases |queries|
  {
    hide Udp, Tcp, Aborts, UpstreamFails, UpstreamAborts, Admit, Encode, LastWords;
    if queries != [] {
      HandlersAgree(policy, c, queries[0], ws[0]);
      var c' := Udp(policy, c, queries[0], ws[0]).0;
      RunsAgree(policy, c', queries[1..], ws[1..]);
      var u, t := UdpRun(policy, c, queries, ws), TcpRun(policy, c, queries, ws);
      if t.alive {
        assert u.1[1..] == UdpRun(policy, c', queries[1..], ws[1..]).1;
        assert t.replies[1..] == TcpRun(policy, c', queries[1..], ws[1..]).replies;
        AdmittedWhenFailing(policy, c, queries[0], ws[0]);
      }
    }
  }

  lemma AdmittedWhenFailing(policy: Policy, c: C.Cache, query: Message, w: World)
    ensures UpstreamFails(policy, c, query, w) ==> Admit(policy, query).Admitted?
    ensures UpstreamAborts(policy, c, query, w) ==> Aborts(policy, c, query, w)
  {
  }

  /** When a query does abort, the connection has until then given the replies and the cache
      of the datagram handler; it dies over the first such query, with the cache that the
      datagram handler leaves too. */
  lemma {:induction false} AgreeUntilAbort(policy: Policy, c: C.Cache, queries: seq<Message>, ws: seq<World>)
    requires c.minTtl <= c.maxTtl && |ws| == |queries| && !NoneAborts(policy, c, queries, ws)
    ensures var t := TcpRun(policy, c, queries, ws);
      var k := |t.replies| - 1;
      0 <= k < |queries|
      && var u := UdpRun(policy, c, queries[..k], ws[..k]);
      && NoneAborts(policy, c, queries[..k], ws[..k]) && Alike(policy, queries[..k], u.1, t.replies[..k])
      && u.0.minTtl <= u.0.maxTtl && Aborts(policy, u.0, queries[k], ws[k])
      && t.replies[k] == LastWords(policy, u.0, queries[k], ws[k])
      && Udp(policy, u.0, queries[k], ws[k]) == (t.cache, None)
    decreases |queries|
  {
    hide Udp, Tcp, Aborts, UpstreamFails, UpstreamAborts, Admit, Encode, LastWords;
    var q, w := queries[0], ws[0];
    HandlersAgree(policy, c, q, w);
    AdmittedWhenFailing(policy, c, q, w);
    if !Aborts(policy, c, q, w) {
      var (c', reply) := Udp(policy, c, q, w);
      AgreeUntilAbort(policy, c', queries[1..], ws[1..]);
      var rest := TcpRun(policy, c', queries[1..], ws[1..]).replies;
      var k := |rest| - 1;
      FrontOfCons(queries, k);
      FrontOfCons(ws, k);
      FrontOfCons(TcpRun(policy, c, queries, ws).replies, k);
      var u := UdpRun(policy, c', queries[1..][..k], ws[1..][..k]);
      assert UdpRun(policy, c, queries[..k + 1], ws[..k + 1]) == (u.0, [reply] + u.1);
      assert ([reply] + u.1)[1..] == u.1;
    }
  }

  lemma FrontOfCons<T>(s: seq<T>, k: nat)
    requires k < |s|
    ensures s[..k + 1][0] == s[0] && s[..k + 1][1..] == s[1..][..k]
  {
  }

  // ----- What the client receives -----

  function Present(replies: seq<Option<Message>>): seq<Message> {
    if replies == [] then []
    else (if replies[0].Some? then [replies[0].value] else []) + Present(replies[1..])
  }

  lemma {:induction false} PresentAtMost(replies: seq<Option<Message>>)
    ensures |Present(replies)| <= |replies|
  {
    if replies != [] {
      PresentAtMost(replies[1..]);
    }
  }

  lemma {:induction false} FramesConcat(a: seq<Message>, b: seq<Message>)
    ensures Frames(a + b) == Frames(a) + Frames(b)
  {
    hide Frame;
    if a == [] {
      assert a + b == b;
    } else {
      assert (a + b)[0] == a[0] && (a + b)[1..] == a[1..] + b;
      FramesConcat(a[1..], b);
    }
  }

  lemma FrameOfPresent(reply: Option<Message>)
    ensures FrameOf(reply) == Frames(if reply.Some? then [reply.value] else [])
  {
    if reply.Some? {
      assert [reply.value][1..] == [] && Frame(reply.value) + [] == Frame(reply.value);
    }
  }

  /** What a connection writes is its replies, framed, in the order of the queries. */
  lemma {:induction false} ConnectionWritesReplies(policy: Policy, c: C.Cache, queries: seq<Message>, ws: seq<World>)
    requires c.minTtl <= c.maxTtl && |ws| == |queries|
    ensures var t := TcpRun(policy, c, queries, ws);
      && Connection(policy, c, queries, ws) == (t.cache, Frames(Present(t.replies)))
      && |t.replies| <= |queries|
    decreases |queries|
  {
    hide Tcp, Frame, FrameOf;
    if queries != [] {
      var s := Tcp(policy, c, queries[0], ws[0]);
      FrameOfPresent(s.reply);
      if s.alive {
        var rest := TcpRun(policy, s.cache, queries[1..], ws[1..]);
        ConnectionWritesReplies(policy, s.cache, queries[1..], ws[1..]);
        assert ([s.reply] + rest.replies)[1..] == rest.replies;
        FramesConcat(if s.reply.Some? then [s.reply.value] else [], Present(rest.replies));
      } else {
        assert [s.reply][1..] == [] && Present([]) == [];
        assert Present([s.reply]) == if s.reply.Some? then [s.reply.value] else [];
      }
    }
  }

  const MAX_FRAME: nat := 0xFFFF

  /** What makes the reply to a query unfit for a frame: the blocked reply, the entry that is
      hit, or the query that is sent back as SERVFAIL has more than 65535 octets when written,
      or the first upstream that answers does so with an empty datagram. */
  ghost predicate Misfit(policy: Policy, c: C.Cache, query: Message, w: World) {
    match Admit(policy, query)
    case BlockedQuery(p) => |Encode(p)| + ReplySizes.AddedLength(p, policy.useNxdomain) > MAX_FRAME
    case Admitted(p) =>
      p.questions != []
      && var k := C.Key(Lower(p.questions[0].name), p.questions[0].qtype);
      if k in c.lru.table && !C.Expired(c.lru.table[k], w.checked) then |Encode(c.lru.table[k].packet)| > MAX_FRAME
      else if forall i | 0 <= i < |w.attempts| :: Result(w.attempts[i]).Failed? then |Encode(p)| > MAX_FRAME
      else EmptyFirst(w.attempts)
    case _ => false
  }

  lemma EncodedFits(p: Packet)
    ensures Fits(Encode(p)) <==> |Encode(p)| <= MAX_FRAME
  {
    hide Encode, EncodeSections;
    ReplySizes.EncodeLength(p);
  }

  /** A query's reply does not fit a frame exactly when what it meets makes it so. */
  lemma MisfitExactly(policy: Policy, c: C.Cache, query: Message, w: World)
    requires c.minTtl <= c.maxTtl
    ensures var reply := Tcp(policy, c, query, w).reply;
      (reply.Some? && !Fits(reply.value)) <==> Misfit(policy, c, query, w)
  {
    hide Encode, Decode, C.Get, C.Insert, C.Expired, C.Aged, C.RemainingTtl;
    hide Forward, Result, EmptyFirst, Fits, Engine.Evaluate, Blocked, ReplySizes.AddedLength;
    match Admit(policy, query)
    case BlockedQuery(p) =>
      EncodedFits(Blocked(p, policy.useNxdomain));
      ReplySizes.BlockedLength(p, policy.useNxdomain);
    case Admitted(p) =>
      HitFits(c, p, w);
      ForwardExactly(w.attempts);
      EncodedFits(ServFail(p));
      ReplySizes.SameSectionsSameLength(p, ServFail(p).header);
      if Forward(w.attempts).Replied? {
        ForwardFitsExactly(w.attempts);
      }
    case _ =>
  }

  lemma HitFits(c: C.Cache, p: Packet, w: World)
    requires p.questions != []
    ensures var k, hit := C.Key(Lower(p.questions[0].name), p.questions[0].qtype), LookupFor(c, p, w).1;
      && (hit.Some? <==> k in c.lru.table && !C.Expired(c.lru.table[k], w.checked))
      && (hit.Some? ==> (Fits(Encode(hit.value)) <==> |Encode(c.lru.table[k].packet)| <= MAX_FRAME))
  {
    hide Encode, C.Get, C.Expired, C.Aged, C.RemainingTtl, Fits;
    var k, hit := C.Key(Lower(p.questions[0].name), p.questions[0].qtype), LookupFor(c, p, w).1;
    C.GetReturns(c, p.questions[0].name, p.questions[0].qtype, w.checked, w.aged);
    if hit.Some? {
      EncodedFits(hit.value);
      ReplySizes.AgedPacketLength(c.lru.table[k].packet, C.RemainingTtl(c.lru.table[k], w.aged));
    }
  }

  /** No query that is served meets what makes its reply unfit. */
  ghost predicate NoneMisfits(policy: Policy, c: C.Cache, queries: seq<Message>, ws: seq<World>)
    requires c.minTtl <= c.maxTtl && |ws| == |queries|
    decreases |queries|
  {
    queries == [] ||
    (&& !Misfit(policy, c, queries[0], ws[0])
     && (Aborts(policy, c, queries[0], ws[0]) ||
         NoneMisfits(policy, Udp(policy, c, queries[0], ws[0]).0, queries[1..], ws[1..])))
  }

  lemma {:induction false} RepliesFitExactly(policy: Policy, c: C.Cache, queries: seq<Message>, ws: seq<World>)
    requires c.minTtl <= c.maxTtl && |ws| == |queries|
    ensures AllFit(Present(TcpRun(policy, c, queries, ws).replies)) <==> NoneMisfits(policy, c, queries, ws)
    decreases |queries|
  {
    hide Udp, Tcp, Misfit, Aborts, UpstreamFails, UpstreamAborts, Fits;
    if queries != [] {
      var q, w := queries[0], ws[0];
      var s := Tcp(policy, c, q, w);
      MisfitExactly(policy, c, q, w);
      HandlersAgree(policy, c, q, w);
      var rest := if s.alive then TcpRun(policy, s.cache, queries[1..], ws[1..]).replies else [];
      if s.alive {
        RepliesFitExactly(policy, s.cache, queries[1..], ws[1..]);
      }
      assert TcpRun(policy, c, queries, ws).replies == [s.reply] + rest;
      FitsCons(s.reply, rest);
    }
  }

  lemma FitsCons(reply: Option<Message>, rest: seq<Option<Message>>)
    ensures AllFit(Present([reply] + rest)) <==> (reply.Some? ==> Fits(reply.value)) && AllFit(Present(rest))
    ensures Present([]) == []
  {
    hide Fits;
    assert ([reply] + rest)[1..] == rest;
    if reply.Some? {
      assert ([reply.value] + Present(rest))[1..] == Present(rest);
    } else {
      assert [] + Present(rest) == Present(rest);
    }
  }

  /** End to end: a client that sends queries of 1 to 65535 octets gets at most one reply
      for each, in their order; it receives exactly the replies if and only if no query
      meets what makes its reply unfit for a frame, and in any case the replies before the
      first that is unfit. */
  lemma ClientReceives(policy: Policy, c: C.Cache, queries: seq<Message>, ws: seq<World>)
    requires c.minTtl <= c.maxTtl && |ws| == |queries| && AllFit(queries)
    ensures Unframe(Frames(queries)) == Received(queries, Closed)
    ensures var replies := Present(TcpRun(policy, c, queries, ws).replies);
      var received := Unframe(Connection(policy, c, queries, ws).1);
      && |replies| <= |queries|
      && (received == Received(replies, Closed) <==> NoneMisfits(policy, c, queries, ws))
      && FitFront(replies) <= received.messages
  {
    hide Unframe, Connection, TcpRun, Present, AllFit, NoneMisfits, FitFront;
    var t := TcpRun(policy, c, queries, ws);
    ReceivedExactly(queries);
    ConnectionWritesReplies(policy, c, queries, ws);
    PresentAtMost(t.replies);
    ReceivedExactly(Present(t.replies));
    RepliesFitExactly(policy, c, queries, ws);
    FitFrontIsReceived(Present(t.replies));
  }

  /** A query of 32 octets whose reply does not fit, blocked or not, when it is not cached and
      all upstreams fail: written again, it has more than 700000 octets. */
  lemma ReplyCanBeTooLong(policy: Policy, c: C.Cache, w: World)
    requires c.minTtl <= c.maxTtl && C.Key([97], Records.A) !in c.lru.table
    requires forall i | 0 <= i < |w.attempts| :: Result(w.attempts[i]).Failed?
    ensures var q := RepeatedRecord.QUERY;
      && AllFit([q]) && Misfit(policy, c, q, w)
      && var replies := Present(TcpRun(policy, c, [q], [w]).replies);
      && |replies| == 1 && |replies[0]| > 700_000
      && Unframe(Connection(policy, c, [q], [w]).1) != Received(replies, Closed)
  {
    hide Encode, Decode, Unframe, Connection, Engine.Evaluate, Result, Forward, Blocked, ReplySizes.AddedLength;
    hide RepeatedRecord.Read;
    var q, p := RepeatedRecord.QUERY, RepeatedRecord.Read();
    LongQuery();
    ReplySizes.BlockedLength(p, policy.useNxdomain);
    ReplySizes.SameSectionsSameLength(p, ServFail(p).header);
    ForwardExactly(w.attempts);
    assert Tcp(policy, c, q, w).reply.Some? && |Tcp(policy, c, q, w).reply.value| > 700_000;
    assert Fits(q) && AllFit([q]);
    OneReply(policy, c, q, w);
    ClientReceives(policy, c, [q], [w]);
  }

  lemma OneReply(policy: Policy, c: C.Cache, q: Message, w: World)
    requires c.minTtl <= c.maxTtl && Tcp(policy, c, q, w).reply.Some?
    ensures Present(TcpRun(policy, c, [q], [w]).replies) == [Tcp(policy, c, q, w).reply.value]
  {
    hide Tcp;
    var s := Tcp(policy, c, q, w);
    assert TcpRun(policy, s.cache, [q][1..], [w][1..]).replies == [];
    assert TcpRun(policy, c, [q], [w]).replies == [s.reply] + [];
    assert ([s.reply] + [])[1..] == [];
  }

  lemma LongQuery()
    ensures var p := RepeatedRecord.Read();
      && Decode(RepeatedRecord.QUERY) == Ok(p) && |Encode(p)| > 700_000 && |RepeatedRecord.QUERY| == 32
      && p.questions != [] && Lower(p.questions[0].name) == [97] && p.questions[0].qtype == Records.A
  {
    hide Decode, Encode, RepeatedRecord.Copies;
    RepeatedRecord.QueryIsRead();
    RepeatedRecord.ReplyIsLong();
  }

  // ----- The class -----

  function WithClass(p: Packet, qclass: Records.QueryClass): Packet
    requires p.questions != []
  {
    p.(questions := [p.questions[0].(qclass := qclass)] + p.questions[1..])
  }

  lemma EntryHoldsReply(c: C.Cache, qtype: Records.QueryType, reply: Packet, now: nat)
    requires c.minTtl <= c.maxTtl
    ensures C.Entry(c, qtype, reply, now).packet == reply
  {
  }

  /** The class is not part of the key: while an entry lives, a query for the same name and
      type in any class is answered with it, although the upstream was asked for another. */
  lemma OtherClassIsServed(c: C.Cache, p: Packet, reply: Packet, w: World, qclass: Records.QueryClass, later: World)
    requires C.Valid(c) && p.questions != []
    requires !C.Expired(C.Entry(c, p.questions[0].qtype, reply, w.stored), later.checked)
    ensures var entry := C.Entry(c, p.questions[0].qtype, reply, w.stored);
      LookupFor(InsertFor(c, p, reply, w), WithClass(p, qclass), later).1
      == Some(C.Aged(reply, C.RemainingTtl(entry, later.aged)))
  {
    hide C.Entry, C.Expired, C.RemainingTtl, C.Aged;
    var q := p.questions[0];
    var k, table := C.Key(Lower(q.name), q.qtype), InsertFor(c, p, reply, w).lru.table;
    assert k in table && table[k] == C.Entry(c, q.qtype, reply, w.stored);
    assert C.Entry(c, q.qtype, reply, w.stored).packet == reply by { EntryHoldsReply(c, q.qtype, reply, w.stored); }
    C.GetReturns(InsertFor(c, p, reply, w), q.name, q.qtype, later.checked, later.aged);
  }

  // ----- The block mode -----

  predicate HasCapital(mode: Text) {
    exists i | 0 <= i < |mode| :: 65 <= mode[i] <= 90
  }

  /** An accepted block mode does what it says, unless it spells nxdomain with a capital
      letter: then blocked queries are answered as for zero_ip. */
  lemma ModeHonouredExactly(mode: Text)
    requires AcceptedMode(mode)
    ensures (UsesNxdomain(mode) <==> Lower(mode) == NXDOMAIN_MODE)
       <==> !(Lower(mode) == NXDOMAIN_MODE && HasCapital(mode))
  {
    if Lower(mode) == NXDOMAIN_MODE && !HasCapital(mode) {
      assert forall i | 0 <= i < |mode| :: mode[i] == Lower(mode)[i];
    }
  }

  function Ascii(s: string): Text
    requires forall i | 0 <= i < |s| :: s[i] < 128 as char
  {
    seq(|s|, i requires 0 <= i < |s| => s[i] as int)
  }

  /** The two accepted spellings in small letters. */
  lemma ModesAre()
    ensures NXDOMAIN_MODE == Ascii("nxdomain") && ZERO_IP_MODE == Ascii("zero_ip")
    ensures UsesNxdomain(Ascii("nxdomain")) && AcceptedMode(Ascii("nxdomain"))
    ensures AcceptedMode(Ascii("zero_ip")) && !UsesNxdomain(Ascii("zero_ip"))
  {
    assert Lower(NXDOMAIN_MODE) == NXDOMAIN_MODE && Lower(ZERO_IP_MODE) == ZERO_IP_MODE;
  }

  /** Such a mode: NXDOMAIN. */
  lemma CapitalModeIsIgnored()
    ensures var mode: Text := [78, 88, 68, 79, 77, 65, 73, 78];
      AcceptedMode(mode) && Lower(mode) == NXDOMAIN_MODE && !UsesNxdomain(mode)
  {
  }
}
