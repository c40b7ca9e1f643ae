/** Many requests at once over one cache: every interleaving of the handlers' steps.  The
    cache lock is taken for a lookup or an insert and is free while an upstream is asked;
    a connection handler that finds a hit keeps it until the reply is written. */
module Interleaving {
  import opened Bytes
  import opened Wire
  import opened Records
  import opened Packets
  import opened Framing
  import opened Forwarder
  import opened Service
  import C = Cache
  import Engine
  import CacheTtl
  import PacketRoundTrip
  import R = CacheRuns

  datatype Transport = OverUdp | OverTcp

  /** Where a request's handler stands. */
  datatype Phase =
    | Arrived
    | Admitting(packet: Packet)                   // passed the filter, about to look in the cache
    | Writing(packet: Packet)                     // a hit is being written to the connection, under the lock
    | Missed(packet: Packet)                      // not in the cache, lock released
    | InFlight(packet: Packet)                    // the query has been sent upstream
    | Replied(packet: Packet)                     // a reply has come, not parsed yet
    | Storing(packet: Packet, parsed: Packet)     // parsed, about to be inserted
    | Stored(packet: Packet)                      // inserted; a datagram reply is still to be sent
    | Finished

  /** A cache hit as it was served: the entry and the two clock readings. */
  datatype Hit = Hit(entry: C.CachedResponse, checked: nat, aged: nat)

  /** A request with what has happened to it. */
  datatype Task = Task(
    transport: Transport,
    query: Message,
    phase: Phase,
    forwarded: bool,
    upstream: Option<Message>,
    heard: Option<seq<Attempt>>,
    hit: Option<Hit>,
    reply: Option<Message>)

  /** The lock is free, or names the request whose handler holds it between two steps. */
  datatype Server = Server(policy: Policy, cache: C.Cache, lock: Option<nat>, now: nat, tasks: map<nat, Task>)

  datatype Event =
    | Arrive(id: nat, transport: Transport, query: Message)
    | Filter(id: nat)
    | Look(id: nat, checked: nat, aged: nat)
    | Written(id: nat)
    | Send(id: nat)
    | Hear(id: nat, attempts: seq<Attempt>)
    | ParseReply(id: nat)
    | Store(id: nat, at: nat)
    | Answer(id: nat)

  /** Which steps can be taken: each handler goes through its phases, and the clock goes on. */
  predicate Enabled(s: Server, e: Event) {
    if e.Arrive? then e.id !in s.tasks
    else
      && e.id in s.tasks
      && var phase := s.tasks[e.id].phase;
      match e
      case Filter(_) => phase.Arrived?
      case Look(_, checked, aged) => phase.Admitting? && s.lock.None? && s.now <= checked <= aged
      case Written(_) => phase.Writing?
      case Send(_) => phase.Missed?
      case Hear(_, _) => phase.InFlight?
      case ParseReply(_) => phase.Replied?
      case Store(_, at) => phase.Storing? && s.lock.None? && s.now <= at
      case Answer(_) => phase.Stored?
      case Arrive(_, _, _) => true
  }

  /** The filter step: parsing, the empty question section, and the verdict. */
  function AfterFilter(policy: Policy, t: Task): Task {
    match Admit(policy, t.query)
    case Dropped => t.(phase := Finished)
    case Aborted => t.(phase := Finished)
    case BlockedQuery(p) => t.(phase := Finished, reply := Some(Encode(Blocked(p, policy.useNxdomain))))
    case Admitted(p) => t.(phase := Admitting(p))
  }

  function KeyFor(p: Packet): C.Key
    requires p.questions != []
  {
    C.Key(Lower(p.questions[0].name), p.questions[0].qtype)
  }

  /** A hit for a datagram client is the handler's result at once; on a connection it is
      written first. */
  function HitPhase(t: Task): Phase
    requires t.phase.Admitting?
  {
    if t.transport.OverTcp? then Writing(t.phase.packet) else Finished
  }

  function AfterLook(c: C.Cache, t: Task, checked: nat, aged: nat): (C.Cache, Task)
    requires t.phase.Admitting? && t.phase.packet.questions != []
  {
    var p := t.phase.packet;
    var (c', found) := C.Get(c, p.questions[0].name, p.questions[0].qtype, checked, aged);
    match found
    case None => (c', t.(phase := Missed(p)))
    case Some(r) =>
      // a hit leaves the entry where it was found
      (c', t.(phase := HitPhase(t), reply := Some(Encode(r)),
              hit := if KeyFor(p) in c.lru.table then Some(Hit(c.lru.table[KeyFor(p)], checked, aged)) else None))
  }

  /** An upstream reply goes to a connection at once, to a datagram client only later. */
  function AfterHear(t: Task, attempts: seq<Attempt>): Task
    requires t.phase.InFlight?
  {
    match Forward(attempts)
    case Failed(_) =>
      t.(phase := Finished, heard := Some(attempts),
         reply := if t.transport.OverTcp? then Some(Encode(ServFail(t.phase.packet))) else None)
    case Replied(octets) =>
      t.(phase := Phase.Replied(t.phase.packet), heard := Some(attempts), upstream := Some(octets),
         reply := if t.transport.OverTcp? then Some(octets) else None)
  }

  function AfterParse(t: Task): Task
    requires t.phase.Replied? && t.upstream.Some?
  {
    match Decode(t.upstream.value)
    case Panicked => t.(phase := Finished)
    case Err(_) => t.(phase := Stored(t.phase.packet))
    case Ok(r) => t.(phase := Storing(t.phase.packet, r))
  }

  /** The handler's last step gives a datagram client the upstream reply. */
  function AfterAnswer(t: Task): Task {
    t.(phase := Finished, reply := if t.transport.OverUdp? then t.upstream else t.reply)
  }

  /** A task that is where its phase says, and the packets it holds are its query's. */
  ghost predicate Placed(policy: Policy, t: Task) {
    && (!t.phase.Arrived? && !t.phase.Finished? ==> Admit(policy, t.query) == Admitted(t.phase.packet))
    && (t.phase.Arrived? || t.phase.Admitting? || t.phase.Missed? || t.phase.InFlight? ==>
          t.upstream.None? && t.reply.None?)
    && (t.phase.Arrived? || t.phase.Admitting? || t.phase.Missed? || t.phase.Writing? ==> !t.forwarded)
    && (t.phase.Replied? || t.phase.Storing? || t.phase.Stored? ==>
          t.upstream.Some? && t.reply == if t.transport.OverUdp? then None else t.upstream)
    && (t.phase.Writing? ==> t.transport.OverTcp? && t.upstream.None? && t.reply.Some? && t.hit.Some?)
    && (t.phase.Storing? ==> Decode(t.upstream.value) == Ok(t.phase.parsed))
  }

  lemma AdmittedAsks(policy: Policy, query: Message)
    ensures Admit(policy, query).Admitted? ==>
              && Decode(query) == Ok(Admit(policy, query).packet) && Admit(policy, query).packet.questions != []
              && !Engine.Evaluate(policy.filter, Admit(policy, query).packet.questions[0].name).Blocked?
              && Lower(Admit(policy, query).packet.questions[0].name) == Admit(policy, query).packet.questions[0].name
  {
    hide Decode;
    if Admit(policy, query).Admitted? {
      PacketRoundTrip.FirstNameIsLower(query);
    }
  }

  /** The lock is held between steps exactly by a handler that is writing a hit. */
  ghost predicate LockPlaced(s: Server) {
    && (s.lock.Some? ==> s.lock.value in s.tasks)
    && forall id | id in s.tasks :: s.tasks[id].phase.Writing? <==> s.lock == Some(id)
  }

  ghost predicate AllPlaced(s: Server) {
    && C.Valid(s.cache) && LockPlaced(s)
    && forall id | id in s.tasks :: Placed(s.policy, s.tasks[id])
  }

  /** The question that a task past the filter asks. */
  ghost function Asked(policy: Policy, t: Task): (q: Question)
    requires Placed(policy, t) && !t.phase.Arrived? && !t.phase.Finished?
    ensures t.phase.packet.questions != [] && q == t.phase.packet.questions[0] && Lower(q.name) == q.name
  {
    AdmittedAsks(policy, t.query);
    t.phase.packet.questions[0]
  }

  /** The task, and the cache, after a step. */
  ghost function Act(s: Server, e: Event): (C.Cache, Task)
    requires AllPlaced(s) && Enabled(s, e)
  {
    match e
    case Arrive(_, transport, query) => (s.cache, Task(transport, query, Arrived, false, None, None, None, None))
    case Filter(id) => (s.cache, AfterFilter(s.policy, s.tasks[id]))
    case Look(id, checked, aged) =>
      var t := s.tasks[id];
      var q := Asked(s.policy, t);
      AfterLook(s.cache, t, checked, aged)
    case Written(id) => (s.cache, s.tasks[id].(phase := Finished))
    case Send(id) => (s.cache, s.tasks[id].(phase := InFlight(s.tasks[id].phase.packet), forwarded := true))
    case Hear(id, attempts) => (s.cache, AfterHear(s.tasks[id], attempts))
    case ParseReply(id) => (s.cache, AfterParse(s.tasks[id]))
    case Store(id, at) =>
      var t := s.tasks[id];
      var q := Asked(s.policy, t);
      (C.Insert(s.cache, q.name, q.qtype, t.phase.parsed, at), t.(phase := Stored(t.phase.packet)))
    case Answer(id) => (s.cache, AfterAnswer(s.tasks[id]))
  }

  function Clock(s: Server, e: Event): nat {
    match e
    case Look(_, _, aged) => aged
    case Store(_, at) => at
    case _ => s.now
  }

  /** A lookup keeps the lock for a hit that is to be written; the write gives it back. */
  function LockAfter(s: Server, e: Event, after: Phase): Option<nat> {
    match e
    case Look(id, _, _) => if after.Writing? then Some(id) else s.lock
    case Written(_) => None
    case _ => s.lock
  }

  ghost function Next(s: Server, e: Event): Server
    requires AllPlaced(s) && Enabled(s, e)
  {
    var (c, t) := Act(s, e);
    Server(s.policy, c, LockAfter(s, e, t.phase), Clock(s, e), s.tasks[e.id := t])
  }

  // ----- What is kept -----

  /** `entry` is the parsed upstream reply to an admitted query for this name and type. */
  ghost predicate Sourced(s: Server, name: Text, qtype: QueryType, entry: C.CachedResponse) {
    exists id | id in s.tasks :: SourcedBy(s, id, name, qtype, entry)
  }

  ghost predicate SourcedBy(s: Server, id: nat, name: Text, qtype: QueryType, entry: C.CachedResponse)
    requires id in s.tasks
  {
    var t := s.tasks[id];
    && Admit(s.policy, t.query).Admitted?
    && Admit(s.policy, t.query).packet.questions != []
    && Admit(s.policy, t.query).packet.questions[0].name == name
    && Admit(s.policy, t.query).packet.questions[0].qtype == qtype
    && t.upstream.Some? && Decode(t.upstream.value) == Ok(entry.packet)
  }

  ghost predicate CacheSourced(s: Server)
    requires s.cache.minTtl <= s.cache.maxTtl
  {
    forall k | k in s.cache.lru.table ::
      && Sourced(s, k.name, k.qtype, s.cache.lru.table[k])
      && s.cache.lru.table[k].createdAt <= s.now
      && s.cache.lru.table[k].ttl == C.EffectiveTtl(s.cache.lru.table[k].packet, s.cache.minTtl, s.cache.maxTtl)
  }

  /** An aged copy of a fresh, rightly sourced entry for the name and type that `p` asks for. */
  ghost predicate ServedFromCache(s: Server, p: Packet, h: Hit, m: Message)
    requires p.questions != [] && s.cache.minTtl <= s.cache.maxTtl
  {
    && m == Encode(C.Aged(h.entry.packet, C.RemainingTtl(h.entry, h.aged)))
    && Sourced(s, p.questions[0].name, p.questions[0].qtype, h.entry)
    && h.entry.createdAt <= h.checked <= h.aged && !C.Expired(h.entry, h.checked)
    && h.entry.ttl == C.EffectiveTtl(h.entry.packet, s.cache.minTtl, s.cache.maxTtl)
  }

  /** The request has asked every upstream, and each of them has failed. */
  ghost predicate AllFailed(t: Task) {
    t.heard.Some? && forall i | 0 <= i < |t.heard.value| :: Result(t.heard.value[i]).Failed?
  }

  /** The only replies there are. */
  ghost predicate Justified(s: Server, t: Task, m: Message)
    requires s.cache.minTtl <= s.cache.maxTtl
  {
    match Admit(s.policy, t.query)
    case Dropped => false
    case Aborted => false
    case BlockedQuery(p) => m == Encode(Blocked(p, s.policy.useNxdomain))
    case Admitted(p) =>
      || (t.forwarded && t.upstream == Some(m) && t.heard.Some? && Forward(t.heard.value) == Reply.Replied(m))
      || (t.transport.OverTcp? && AllFailed(t) && m == Encode(ServFail(p)))
      || (p.questions != [] && t.hit.Some? && ServedFromCache(s, p, t.hit.value, m))
  }

  ghost predicate TaskKept(s: Server, t: Task)
    requires s.cache.minTtl <= s.cache.maxTtl
  {
    && (t.forwarded ==> Admit(s.policy, t.query).Admitted?)
    && (t.upstream.Some? ==>
          t.forwarded && t.heard.Some? && Forward(t.heard.value) == Reply.Replied(t.upstream.value))
    && (t.phase.InFlight? || t.phase.Replied? || t.phase.Storing? || t.phase.Stored? ==> t.forwarded)
    && (t.reply.Some? ==> Justified(s, t, t.reply.value))
    && (t.hit.Some? ==>
          && t.reply.Some? && Admit(s.policy, t.query).Admitted?
          && Admit(s.policy, t.query).packet.questions != []
          && ServedFromCache(s, Admit(s.policy, t.query).packet, t.hit.value, t.reply.value))
  }

  ghost predicate Inv(s: Server) {
    && AllPlaced(s) && CacheSourced(s)
    && forall id | id in s.tasks :: TaskKept(s, s.tasks[id])
  }

  /** A step keeps every other task, and of its own task the query, the transport, an
      upstream reply that has come and a reply that was sent. */
  ghost predicate Grows(s: Server, s': Server) {
    && s'.policy == s.policy && s'.now >= s.now
    && s'.cache.minTtl == s.cache.minTtl && s'.cache.maxTtl == s.cache.maxTtl
    && forall id | id in s.tasks ::
         && id in s'.tasks
         && s'.tasks[id].query == s.tasks[id].query && s'.tasks[id].transport == s.tasks[id].transport
         && (s.tasks[id].upstream.Some? ==> s'.tasks[id].upstream == s.tasks[id].upstream)
         && (s.tasks[id].reply.Some? ==> s'.tasks[id].reply == s.tasks[id].reply)
  }

  /** A step's own task keeps its query, its transport, its upstream reply and its reply. */
  lemma OwnTaskGrows(s: Server, e: Event)
    requires AllPlaced(s) && Enabled(s, e) && !e.Arrive?
    ensures var t, t' := s.tasks[e.id], Act(s, e).1;
      && t'.query == t.query && t'.transport == t.transport
      && (t.upstream.Some? ==> t'.upstream == t.upstream)
      && (t.reply.Some? ==> t'.reply == t.reply)
  {
    hide Encode, Decode, Admit, Forward, ServFail, Blocked, C.Get, C.Insert, C.Valid, LockPlaced;
  }

  lemma CacheBoundsStay(s: Server, e: Event)
    requires AllPlaced(s) && Enabled(s, e)
    ensures Act(s, e).0.minTtl == s.cache.minTtl && Act(s, e).0.maxTtl == s.cache.maxTtl
  {
    hide Encode, Decode, Admit, Placed, LockPlaced, C.Valid, AfterFilter, AfterHear, AfterParse, AfterAnswer;
  }

  lemma StepGrows(s: Server, e: Event)
    requires AllPlaced(s) && Enabled(s, e)
    ensures Grows(s, Next(s, e))
  {
    hide Act, Placed, LockPlaced, C.Valid;
    CacheBoundsStay(s, e);
    if !e.Arrive? {
      OwnTaskGrows(s, e);
    }
  }

  lemma StepKeepsCacheValid(s: Server, e: Event)
    requires AllPlaced(s) && Enabled(s, e)
    ensures C.Valid(Act(s, e).0)
  {
    hide Encode, Decode, Admit, Forward, ServFail, Blocked, C.Get, C.Insert;
    if e.Look? {
      var t := s.tasks[e.id];
      AdmittedAsks(s.policy, t.query);
      var q := t.phase.packet.questions[0];
      C.GetIsValid(s.cache, q.name, q.qtype, e.checked, e.aged);
    } else if e.Store? {
      var t := s.tasks[e.id];
      AdmittedAsks(s.policy, t.query);
      var q := t.phase.packet.questions[0];
      C.InsertIsValid(s.cache, q.name, q.qtype, t.phase.parsed, e.at);
    }
  }

  lemma StepPlaces(s: Server, e: Event)
    requires AllPlaced(s) && Enabled(s, e)
    ensures AllPlaced(Next(s, e))
  {
    hide Act, Placed, Enabled, LockPlaced, C.Valid;
    StepKeepsCacheValid(s, e);
    StepKeepsLock(s, e);
    OwnTaskPlaced(s, e);
  }

  lemma OwnTaskPlaced(s: Server, e: Event)
    requires AllPlaced(s) && Enabled(s, e)
    ensures Placed(s.policy, Act(s, e).1)
  {
    hide Admit, AfterFilter, AfterLook, AfterHear, AfterParse, C.Insert, C.Valid, LockPlaced;
    match e
    case Filter(id) => FilterPlaces(s.policy, s.tasks[id]);
    case Look(id, checked, aged) =>
      AdmittedAsks(s.policy, s.tasks[id].query);
      LookPlaces(s.policy, s.cache, s.tasks[id], checked, aged);
    case Hear(id, attempts) => HearPlaces(s.policy, s.tasks[id], attempts);
    case ParseReply(id) => ParsePlaces(s.policy, s.tasks[id]);
    case _ =>
  }

  lemma FilterPlaces(policy: Policy, t: Task)
    requires Placed(policy, t) && t.phase.Arrived?
    ensures Placed(policy, AfterFilter(policy, t))
  {
    hide Encode, Admit;
  }

  lemma HearPlaces(policy: Policy, t: Task, attempts: seq<Attempt>)
    requires Placed(policy, t) && t.phase.InFlight?
    ensures Placed(policy, AfterHear(t, attempts))
  {
    hide Encode, Admit, Forward;
  }

  lemma ParsePlaces(policy: Policy, t: Task)
    requires Placed(policy, t) && t.phase.Replied?
    ensures Placed(policy, AfterParse(t))
  {
    hide Decode, Admit;
  }

  lemma LookPlaces(policy: Policy, c: C.Cache, t: Task, checked: nat, aged: nat)
    requires Placed(policy, t) && t.phase.Admitting? && t.phase.packet.questions != []
    ensures Placed(policy, AfterLook(c, t, checked, aged).1)
  {
    hide Encode, Decode, Admit, AfterLook, C.Expired, C.Aged, C.RemainingTtl, KeyFor;
    LookResult(c, t, checked, aged);
  }

  lemma OnlyLookWrites(s: Server, e: Event)
    requires AllPlaced(s) && Enabled(s, e)
    ensures Act(s, e).1.phase.Writing? ==> e.Look?
  {
    hide Encode, Decode, Admit, Forward, ServFail, Blocked, C.Get, C.Insert, C.Valid;
  }

  lemma StepKeepsLock(s: Server, e: Event)
    requires AllPlaced(s) && Enabled(s, e)
    ensures LockPlaced(Next(s, e))
  {
    hide Act, Placed, C.Valid;
    OnlyLookWrites(s, e);
    if e.Written? {
      assert Act(s, e).1.phase.Finished? by { WriterFinishes(s, e); }
    }
  }

  lemma WriterFinishes(s: Server, e: Event)
    requires AllPlaced(s) && Enabled(s, e) && e.Written?
    ensures Act(s, e).1.phase.Finished?
  {
    hide C.Valid, Placed;
  }

  lemma SourcedGrows(s: Server, s': Server, name: Text, qtype: QueryType, entry: C.CachedResponse)
    requires Grows(s, s') && Sourced(s, name, qtype, entry)
    ensures Sourced(s', name, qtype, entry)
  {
    hide Admit, Decode;
    var id :| id in s.tasks && SourcedBy(s, id, name, qtype, entry);
    assert SourcedBy(s', id, name, qtype, entry);
  }

  /** What is kept of a task that a step does not touch. */
  lemma OtherTaskKept(s: Server, s': Server, t: Task)
    requires Grows(s, s') && s.cache.minTtl <= s.cache.maxTtl && TaskKept(s, t)
    ensures TaskKept(s', t)
  {
    hide Admit, Decode, Encode, Sourced;
    if t.reply.Some? && Admit(s.policy, t.query).Admitted? {
      var p := Admit(s.policy, t.query).packet;
      if p.questions != [] && t.hit.Some? && ServedFromCache(s, p, t.hit.value, t.reply.value) {
        SourcedGrows(s, s', p.questions[0].name, p.questions[0].qtype, t.hit.value.entry);
      }
    }
  }

  /** What a lookup makes of its task. */
  lemma LookResult(c: C.Cache, t: Task, checked: nat, aged: nat)
    requires t.phase.Admitting? && t.phase.packet.questions != []
    ensures var k, t' := KeyFor(t.phase.packet), AfterLook(c, t, checked, aged).1;
      if k in c.lru.table && !C.Expired(c.lru.table[k], checked) then
        var e := c.lru.table[k];
        t' == t.(phase := HitPhase(t), hit := Some(Hit(e, checked, aged)),
                 reply := Some(Encode(C.Aged(e.packet, C.RemainingTtl(e, aged)))))
      else t' == t.(phase := Missed(t.phase.packet))
  {
    hide Encode, C.Get, C.Expired, C.Aged, C.RemainingTtl;
    C.GetReturns(c, t.phase.packet.questions[0].name, t.phase.packet.questions[0].qtype, checked, aged);
  }

  lemma LookPhase(c: C.Cache, t: Task, checked: nat, aged: nat)
    requires t.phase.Admitting? && t.phase.packet.questions != []
    ensures var phase := AfterLook(c, t, checked, aged).1.phase; phase.Writing? || phase.Missed? || phase.Finished?
  {
    hide Encode, C.Get;
  }

  lemma HitTaskKept(s: Server, t: Task, p: Packet)
    requires s.cache.minTtl <= s.cache.maxTtl && Admit(s.policy, t.query) == Admitted(p) && p.questions != []
    requires (t.phase.Finished? || t.phase.Writing?) && t.hit.Some? && t.reply.Some? && t.upstream.None?
    requires ServedFromCache(s, p, t.hit.value, t.reply.value)
    ensures TaskKept(s, t)
  {
    hide Admit, ServedFromCache;
  }

  lemma MissTaskKept(s: Server, t: Task)
    requires s.cache.minTtl <= s.cache.maxTtl && Admit(s.policy, t.query).Admitted?
    requires t.phase.Missed? && t.hit.None? && t.reply.None? && t.upstream.None?
    ensures TaskKept(s, t)
  {
    hide Admit, ServedFromCache;
  }

  lemma LookFinds(s: Server, e: Event, p: Packet)
    requires Inv(s) && Enabled(s, e) && e.Look? && p == s.tasks[e.id].phase.packet && p.questions != []
    requires Lower(p.questions[0].name) == p.questions[0].name && KeyFor(p) in s.cache.lru.table
    requires !C.Expired(s.cache.lru.table[KeyFor(p)], e.checked)
    ensures var entry := s.cache.lru.table[KeyFor(p)];
      var h := Hit(entry, e.checked, e.aged);
      Next(s, e).cache.minTtl <= Next(s, e).cache.maxTtl &&
      ServedFromCache(Next(s, e), p, h, Encode(C.Aged(entry.packet, C.RemainingTtl(entry, e.aged))))
  {
    hide Encode, Sourced, AfterLook, C.EffectiveTtl, C.Aged, C.Expired, C.RemainingTtl, C.Get, TaskKept, Placed;
    StepGrows(s, e);
    var k := KeyFor(p);
    SourcedGrows(s, Next(s, e), k.name, k.qtype, s.cache.lru.table[k]);
  }

  /** The entry that a lookup finds is one of the cache's, for the asker's own name and type. */
  lemma LookServesSource(s: Server, e: Event)
    requires Inv(s) && Enabled(s, e) && e.Look?
    ensures TaskKept(Next(s, e), Next(s, e).tasks[e.id])
  {
    hide Encode, Admit, AfterLook, KeyFor, TaskKept, CacheSourced, ServedFromCache, Grows;
    hide C.EffectiveTtl, C.Aged, C.Expired, C.RemainingTtl, C.Get, C.Valid;
    var t, s' := s.tasks[e.id], Next(s, e);
    var p := t.phase.packet;
    AdmittedAsks(s.policy, t.query);
    NothingYet(s, e.id);
    StepKeepsBounds(s, e);
    LookResult(s.cache, t, e.checked, e.aged);
    if KeyFor(p) in s.cache.lru.table && !C.Expired(s.cache.lru.table[KeyFor(p)], e.checked) {
      LookFinds(s, e, p);
      HitTaskKept(s', s'.tasks[e.id], p);
    } else {
      MissTaskKept(s', s'.tasks[e.id]);
    }
  }

  lemma NothingYet(s: Server, id: nat)
    requires Inv(s) && id in s.tasks && s.tasks[id].phase.Admitting?
    ensures s.tasks[id].hit.None? && s.tasks[id].reply.None? && s.tasks[id].upstream.None?
  {
    hide Admit, ServedFromCache, Justified;
  }

  lemma StepKeepsBounds(s: Server, e: Event)
    requires AllPlaced(s) && Enabled(s, e)
    ensures Next(s, e).policy == s.policy && Next(s, e).cache.minTtl <= Next(s, e).cache.maxTtl
  {
    hide Encode, Decode, Admit;
    StepKeepsCacheValid(s, e);
  }

  lemma OwnTaskKept(s: Server, e: Event)
    requires Inv(s) && Enabled(s, e) && AllPlaced(Next(s, e))
    ensures TaskKept(Next(s, e), Next(s, e).tasks[e.id])
  {
    hide Encode, Decode, Forward, ServFail, Blocked, C.Get, C.Insert, C.Valid, AfterLook;
    hide Sourced, ServedFromCache, Engine.Evaluate, CacheSourced, LockPlaced;
    StepGrows(s, e);
    ValidBounds(s.cache);
    if e.Look? {
      LookServesSource(s, e);
    } else if e.Hear? {
      OtherTaskKept(s, Next(s, e), s.tasks[e.id]);
      HearTaskKept(Next(s, e), s.tasks[e.id], e.attempts);
    } else if !e.Arrive? {
      OtherTaskKept(s, Next(s, e), s.tasks[e.id]);
    }
  }

  /** What the upstreams gave is kept, and the reply that comes of it is justified by it. */
  lemma HearTaskKept(s: Server, t: Task, attempts: seq<Attempt>)
    requires s.cache.minTtl <= s.cache.maxTtl && TaskKept(s, t) && Placed(s.policy, t) && t.phase.InFlight?
    ensures TaskKept(s, AfterHear(t, attempts))
  {
    hide Encode, Decode, Admit, Forward, Result, ServFail, ServedFromCache;
    ForwardExactly(attempts);
  }

  lemma StoredIsSourced(s: Server, e: Event)
    requires Inv(s) && Enabled(s, e) && e.Store?
    ensures var t := s.tasks[e.id]; var q := t.phase.packet.questions;
      q != [] && Lower(q[0].name) == q[0].name
      && forall entry: C.CachedResponse | entry.packet == t.phase.parsed ::
           Sourced(Next(s, e), q[0].name, q[0].qtype, entry)
  {
    hide Decode, Admit, C.Insert;
    var t, s' := s.tasks[e.id], Next(s, e);
    AdmittedAsks(s.policy, t.query);
    var q := t.phase.packet.questions;
    forall entry: C.CachedResponse | entry.packet == t.phase.parsed
      ensures Sourced(s', q[0].name, q[0].qtype, entry)
    {
      assert SourcedBy(s', e.id, q[0].name, q[0].qtype, entry);
    }
  }

  lemma CacheKept(s: Server, e: Event)
    requires Inv(s) && Enabled(s, e) && AllPlaced(Next(s, e))
    ensures CacheSourced(Next(s, e))
  {
    hide Encode, Decode, Admit, Forward, ServFail, Blocked, Sourced, C.EffectiveTtl, C.Aged;
    var s' := Next(s, e);
    StepGrows(s, e);
    forall k | k in s'.cache.lru.table
      ensures Sourced(s', k.name, k.qtype, s'.cache.lru.table[k])
      ensures s'.cache.lru.table[k].createdAt <= s'.now
      ensures s'.cache.lru.table[k].ttl == C.EffectiveTtl(s'.cache.lru.table[k].packet, s'.cache.minTtl, s'.cache.maxTtl)
    {
      if e.Store? {
        StoredIsSourced(s, e);
      }
      if k in s.cache.lru.table && s'.cache.lru.table[k] == s.cache.lru.table[k] {
        SourcedGrows(s, s', k.name, k.qtype, s.cache.lru.table[k]);
      }
    }
  }

  /** Every step of every handler keeps the invariant. */
  lemma StepKeeps(s: Server, e: Event)
    requires Inv(s) && Enabled(s, e)
    ensures Inv(Next(s, e))
  {
    hide TaskKept, CacheSourced, Placed, Act, Enabled;
    StepPlaces(s, e);
    StepGrows(s, e);
    CacheKept(s, e);
    OwnTaskKept(s, e);
    var s' := Next(s, e);
    forall id | id in s'.tasks ensures TaskKept(s', s'.tasks[id]) {
      if id != e.id {
        OtherTaskKept(s, s', s.tasks[id]);
      }
    }
  }

  // ----- Runs -----

  /** The server before the first request. */
  function Start(policy: Policy, capacity: nat, minSecs: nat, maxSecs: nat, now: nat): (s: Server)
    requires minSecs <= maxSecs
    ensures AllPlaced(s)
  {
    Server(policy, C.New(capacity, minSecs, maxSecs), None, now, map[])
  }

  /** An interleaving: a list of steps each of which can be taken where it stands. */
  ghost predicate CanRun(s: Server, es: seq<Event>)
    requires AllPlaced(s)
    decreases |es|
  {
    es == [] ||
    (&& Enabled(s, es[0])
     && (StepPlaces(s, es[0]);
         CanRun(Next(s, es[0]), es[1..])))
  }

  ghost function After(s: Server, es: seq<Event>): Server
    requires AllPlaced(s) && CanRun(s, es)
    decreases |es|
  {
    if es == [] then s
    else
      StepPlaces(s, es[0]);
      After(Next(s, es[0]), es[1..])
  }

  lemma {:induction false} RunKeeps(s: Server, es: seq<Event>)
    requires Inv(s) && CanRun(s, es)
    ensures Inv(After(s, es)) && After(s, es).policy == s.policy
    decreases |es|
  {
    hide TaskKept, CacheSourced, Placed, Act, Enabled;
    if es != [] {
      StepKeeps(s, es[0]);
      StepGrows(s, es[0]);
      RunKeeps(Next(s, es[0]), es[1..]);
    }
  }

  lemma StartIsSafe(policy: Policy, capacity: nat, minSecs: nat, maxSecs: nat, now: nat)
    requires minSecs <= maxSecs
    ensures Inv(Start(policy, capacity, minSecs, maxSecs, now))
  {
  }

  /** The verdict on a name. */
  predicate IsBlocked(policy: Policy, name: Text) {
    Engine.Evaluate(policy.filter, name).Blocked?
  }

  /** Main result on concurrency: after every interleaving of any requests, no query whose
      first question is for a blocked name has been sent upstream, no blocked name is a cache
      key, every cached packet is the parsed upstream reply to a query for that same name and
      type, and every reply sent is the blocked response to its own query, the first success
      among its own upstreams, its own SERVFAIL on a connection after every upstream failed,
      or an aged copy of a fresh upstream reply to a query for the same name and type. */
  lemma SafeInAllInterleavings(
    policy: Policy, capacity: nat, minSecs: nat, maxSecs: nat, now: nat, es: seq<Event>)
    requires minSecs <= maxSecs
    requires CanRun(Start(policy, capacity, minSecs, maxSecs, now), es)
    ensures var s := After(Start(policy, capacity, minSecs, maxSecs, now), es);
      && s.policy == policy && s.cache.minTtl <= s.cache.maxTtl
      && (forall id | id in s.tasks && s.tasks[id].forwarded ::
            && Decode(s.tasks[id].query).Ok? && Decode(s.tasks[id].query).value.questions != []
            && !IsBlocked(policy, Decode(s.tasks[id].query).value.questions[0].name))
      && (forall k | k in s.cache.lru.table ::
            !IsBlocked(policy, k.name) && Sourced(s, k.name, k.qtype, s.cache.lru.table[k]))
      && (forall id | id in s.tasks && s.tasks[id].reply.Some? ::
            Justified(s, s.tasks[id], s.tasks[id].reply.value))
  {
    hide Justified, Placed, C.Valid, Decode;
    StartIsSafe(policy, capacity, minSecs, maxSecs, now);
    RunKeeps(Start(policy, capacity, minSecs, maxSecs, now), es);
    var s := After(Start(policy, capacity, minSecs, maxSecs, now), es);
    assert C.Valid(s.cache) ==> s.cache.minTtl <= s.cache.maxTtl by { ValidBounds(s.cache); }
    forall id | id in s.tasks && s.tasks[id].forwarded
      ensures Decode(s.tasks[id].query).Ok? && Decode(s.tasks[id].query).value.questions != []
      ensures !IsBlocked(policy, Decode(s.tasks[id].query).value.questions[0].name)
    {
      AdmittedAsks(policy, s.tasks[id].query);
    }
    forall k | k in s.cache.lru.table ensures !IsBlocked(policy, k.name) {
      var id :| id in s.tasks && SourcedBy(s, id, k.name, k.qtype, s.cache.lru.table[k]);
      AdmittedAsks(policy, s.tasks[id].query);
    }
  }

  /** Some question is for a blocked name. */
  ghost predicate AsksBlocked(policy: Policy, qs: seq<Question>) {
    exists i | 0 <= i < |qs| :: IsBlocked(policy, qs[i].name)
  }

  /** The filter sees the first question alone: after every interleaving, a query that has
      been sent upstream asks for a blocked name exactly when a later question of it does. */
  lemma ForwardedBlockedExactly(
    policy: Policy, capacity: nat, minSecs: nat, maxSecs: nat, now: nat, es: seq<Event>, id: nat)
    requires minSecs <= maxSecs
    requires CanRun(Start(policy, capacity, minSecs, maxSecs, now), es)
    requires var s := After(Start(policy, capacity, minSecs, maxSecs, now), es);
      id in s.tasks && s.tasks[id].forwarded
    ensures var query := After(Start(policy, capacity, minSecs, maxSecs, now), es).tasks[id].query;
      && Decode(query).Ok? && Decode(query).value.questions != []
      && (AsksBlocked(policy, Decode(query).value.questions)
          <==> AsksBlocked(policy, Decode(query).value.questions[1..]))
  {
    hide Decode, CanRun, After, IsBlocked;
    SafeInAllInterleavings(policy, capacity, minSecs, maxSecs, now, es);
    var query := After(Start(policy, capacity, minSecs, maxSecs, now), es).tasks[id].query;
    var qs := Decode(query).value.questions;
    assert forall i | 1 <= i < |qs| :: qs[i] == qs[1..][i - 1];
    assert forall i | 0 <= i < |qs| - 1 :: qs[1..][i] == qs[i + 1];
  }

  lemma RunCons(s: Server, e: Event, rest: seq<Event>)
    requires AllPlaced(s) && Enabled(s, e) && AllPlaced(Next(s, e)) && CanRun(Next(s, e), rest)
    ensures CanRun(s, [e] + rest) && After(s, [e] + rest) == After(Next(s, e), rest)
  {
    hide AllPlaced, Enabled, Next;
    assert ([e] + rest)[1..] == rest;
  }

  /** The first steps of a request on an empty cache. */
  function FirstSteps(query: Message, now: nat): seq<Event> {
    [Arrive(0, OverUdp, query), Filter(0), Look(0, now, now), Send(0)]
  }

  lemma ArriveStep(s: Server, id: nat, transport: Transport, query: Message)
    requires AllPlaced(s) && id !in s.tasks
    ensures var e := Arrive(id, transport, query);
      && Enabled(s, e) && AllPlaced(Next(s, e)) && id in Next(s, e).tasks
      && Next(s, e).tasks[id].phase == Arrived && Next(s, e).tasks[id].query == query
      && Next(s, e).(tasks := s.tasks) == s
  {
    hide Admit, C.Valid;
    StepPlaces(s, Arrive(id, transport, query));
  }

  lemma FilterStep(s: Server, id: nat)
    requires AllPlaced(s) && id in s.tasks && s.tasks[id].phase.Arrived? && Admit(s.policy, s.tasks[id].query).Admitted?
    ensures var e := Filter(id);
      && Enabled(s, e) && AllPlaced(Next(s, e)) && id in Next(s, e).tasks
      && Next(s, e).tasks[id].phase == Admitting(Admit(s.policy, s.tasks[id].query).packet)
      && Next(s, e).tasks[id].query == s.tasks[id].query
      && Next(s, e).(tasks := s.tasks) == s
  {
    hide Admit, AfterFilter, C.Valid, Placed;
    StepPlaces(s, Filter(id));
    OwnTaskGrows(s, Filter(id));
    AdmittedPhase(s.policy, s.tasks[id]);
  }

  lemma LookStep(s: Server, id: nat)
    requires AllPlaced(s) && id in s.tasks && s.tasks[id].phase.Admitting? && s.lock.None? && s.cache.lru.table == map[]
    ensures var e := Look(id, s.now, s.now);
      && Enabled(s, e) && AllPlaced(Next(s, e)) && id in Next(s, e).tasks
      && Next(s, e).tasks[id].phase.Missed? && Next(s, e).tasks[id].query == s.tasks[id].query
  {
    hide Admit, AfterLook, C.Valid, LockPlaced;
    StepPlaces(s, Look(id, s.now, s.now));
    OwnTaskGrows(s, Look(id, s.now, s.now));
    AdmittedAsks(s.policy, s.tasks[id].query);
    LookResult(s.cache, s.tasks[id], s.now, s.now);
  }

  lemma SendStep(s: Server, id: nat)
    requires AllPlaced(s) && id in s.tasks && s.tasks[id].phase.Missed?
    ensures var e := Send(id);
      && Enabled(s, e) && AllPlaced(Next(s, e)) && id in Next(s, e).tasks
      && Next(s, e).tasks[id].forwarded && Next(s, e).tasks[id].query == s.tasks[id].query
  {
    hide Admit, C.Valid, LockPlaced, Placed;
    StepPlaces(s, Send(id));
  }

  /** Any query that the filter admits can be sent upstream. */
  lemma AdmittedIsForwarded(policy: Policy, capacity: nat, minSecs: nat, maxSecs: nat, now: nat, query: Message)
    requires minSecs <= maxSecs && Admit(policy, query).Admitted?
    ensures var s0 := Start(policy, capacity, minSecs, maxSecs, now);
      && CanRun(s0, FirstSteps(query, now))
      && var s := After(s0, FirstSteps(query, now));
      && 0 in s.tasks && s.tasks[0].forwarded && s.tasks[0].query == query
  {
    hide Admit, CanRun, After, AllPlaced, Enabled, Next;
    var s0 := Start(policy, capacity, minSecs, maxSecs, now);
    var a, b, c, d := Arrive(0, OverUdp, query), Filter(0), Look(0, now, now), Send(0);
    ArriveStep(s0, 0, OverUdp, query);
    var s1 := Next(s0, a);
    FilterStep(s1, 0);
    var s2 := Next(s1, b);
    LookStep(s2, 0);
    var s3 := Next(s2, c);
    SendStep(s3, 0);
    NoSteps(Next(s3, d));
    RunCons(s3, d, []);
    RunCons(s2, c, [d] + []);
    RunCons(s1, b, [c] + ([d] + []));
    RunCons(s0, a, [b] + ([c] + ([d] + [])));
    assert [a] + ([b] + ([c] + ([d] + []))) == FirstSteps(query, now);
  }

  lemma NoSteps(s: Server)
    requires AllPlaced(s)
    ensures CanRun(s, []) && After(s, []) == s
  {
  }

  lemma ValidBounds(c: C.Cache)
    requires C.Valid(c)
    ensures c.minTtl <= c.maxTtl
  {
  }

  /** A reply served from the cache, in any interleaving, carries a TTL that ends no later
      than the cached entry's own life does. */
  lemma CachedRepliesEndInTime(s: Server, id: nat)
    requires Inv(s) && id in s.tasks && s.tasks[id].hit.Some?
    ensures var h := s.tasks[id].hit.value;
      && s.tasks[id].reply == Some(Encode(C.Aged(h.entry.packet, C.RemainingTtl(h.entry, h.aged))))
      && h.checked + C.RemainingTtl(h.entry, h.aged) * C.TICKS
         <= h.entry.createdAt + C.EffectiveTtl(h.entry.packet, s.cache.minTtl, s.cache.maxTtl)
  {
    hide Admit, Encode, C.RemainingTtl, C.EffectiveTtl, C.Expired, Justified, Sourced;
    var h := s.tasks[id].hit.value;
    CacheTtl.ServedTtlEndsInTime(h.entry, h.checked, h.aged);
  }

  /** A reply served from the cache carries the id of the upstream reply that filled the entry,
      so it carries the id of the query that it answers exactly when that one did. */
  lemma CachedReplyId(s: Server, id: nat) returns (source: nat)
    requires Inv(s) && id in s.tasks && s.tasks[id].hit.Some?
    ensures source in s.tasks && s.tasks[source].upstream.Some?
    ensures Decode(s.tasks[source].upstream.value) == Ok(s.tasks[id].hit.value.entry.packet)
    ensures s.tasks[id].reply.Some?
      && var query, reply, filled := s.tasks[id].query, s.tasks[id].reply.value, s.tasks[source].upstream.value;
      && |query| >= 2 && |reply| >= 2 && |filled| >= 2
      && U16At(reply, 0) == U16At(filled, 0)
      && (U16At(reply, 0) == U16At(query, 0) <==> U16At(filled, 0) == U16At(query, 0))
  {
    hide Encode, Decode, Admit, U16At, C.RemainingTtl, C.EffectiveTtl, C.Expired, Justified;
    var t := s.tasks[id];
    var p, h := Admit(s.policy, t.query).packet, t.hit.value;
    source :| source in s.tasks && SourcedBy(s, source, p.questions[0].name, p.questions[0].qtype, h.entry);
    AdmittedAsks(s.policy, t.query);
    PacketRoundTrip.IdIsFirst(t.query, C.Aged(h.entry.packet, C.RemainingTtl(h.entry, h.aged)));
    PacketRoundTrip.IdIsFirst(s.tasks[source].upstream.value, p);
  }

  /** What was sent stays sent: over any interleaving a request gets at most one reply, and
      an upstream reply that has come is not replaced. */
  lemma {:induction false} RunGrows(s: Server, es: seq<Event>)
    requires AllPlaced(s) && CanRun(s, es)
    ensures Grows(s, After(s, es))
    decreases |es|
  {
    hide Placed, Act, Enabled, C.Valid;
    if es != [] {
      StepPlaces(s, es[0]);
      StepGrows(s, es[0]);
      RunGrows(Next(s, es[0]), es[1..]);
    }
  }

  // ----- The cache of an interleaving is the cache of a run -----

  /** What a step does to the cache. */
  ghost function OpOf(s: Server, e: Event): seq<R.Op>
    requires AllPlaced(s) && Enabled(s, e)
  {
    match e
    case Look(id, checked, aged) =>
      var q := Asked(s.policy, s.tasks[id]);
      [R.Look(q.name, q.qtype, checked, aged)]
    case Store(id, at) =>
      var q := Asked(s.policy, s.tasks[id]);
      [R.Put(q.name, q.qtype, s.tasks[id].phase.parsed, at)]
    case _ => []
  }

  /** The cache operations of an interleaving, in the order of their steps. */
  ghost function Ops(s: Server, es: seq<Event>): seq<R.Op>
    requires AllPlaced(s) && CanRun(s, es)
    decreases |es|
  {
    if es == [] then []
    else
      StepPlaces(s, es[0]);
      OpOf(s, es[0]) + Ops(Next(s, es[0]), es[1..])
  }

  lemma StepIsCacheStep(cfg: R.Config, s: Server, e: Event, before: seq<R.Op>)
    requires cfg.minSecs <= cfg.maxSecs && AllPlaced(s) && Enabled(s, e)
    requires s.cache == R.Run(cfg, before) && R.Monotone(before, s.now)
    ensures Next(s, e).cache == R.Run(cfg, before + OpOf(s, e))
    ensures R.Monotone(before + OpOf(s, e), Next(s, e).now)
  {
    hide Encode, Decode, Admit, Forward, ServFail, Blocked, C.Get, C.Insert, Placed;
    var ops := before + OpOf(s, e);
    if e.Look? || e.Store? {
      assert R.Init(ops) == before && R.Last(ops) == OpOf(s, e)[0];
      R.LaterIsMonotone(before, s.now, if e.Look? then e.checked else e.at);
    } else {
      assert ops == before;
    }
  }

  lemma {:induction false} RunIsCacheRun(cfg: R.Config, s: Server, es: seq<Event>, before: seq<R.Op>)
    requires cfg.minSecs <= cfg.maxSecs && AllPlaced(s) && CanRun(s, es)
    requires s.cache == R.Run(cfg, before) && R.Monotone(before, s.now)
    ensures After(s, es).cache == R.Run(cfg, before + Ops(s, es))
    ensures R.Monotone(before + Ops(s, es), After(s, es).now)
    decreases |es|
  {
    hide Placed, Act, Enabled, C.Valid, R.Run, R.Monotone, OpOf, LockPlaced;
    if es == [] {
      assert before + Ops(s, es) == before;
    } else {
      var e := es[0];
      StepPlaces(s, e);
      StepIsCacheStep(cfg, s, e, before);
      RunIsCacheRun(cfg, Next(s, e), es[1..], before + OpOf(s, e));
      assert before + OpOf(s, e) + Ops(Next(s, e), es[1..]) == before + Ops(s, es);
    }
  }

  /** After every interleaving the shared cache is the cache of a run of lookups and inserts
      with a monotone clock, so that what is proved of all such runs holds of it. */
  lemma EveryInterleavingIsACacheRun(policy: Policy, cfg: R.Config, now: nat, es: seq<Event>)
    requires cfg.minSecs <= cfg.maxSecs
    requires CanRun(Start(policy, cfg.capacity, cfg.minSecs, cfg.maxSecs, now), es)
    ensures var s0 := Start(policy, cfg.capacity, cfg.minSecs, cfg.maxSecs, now);
      && After(s0, es).cache == R.Run(cfg, Ops(s0, es))
      && R.Monotone(Ops(s0, es), After(s0, es).now)
  {
    hide After, CanRun, Ops;
    var s0 := Start(policy, cfg.capacity, cfg.minSecs, cfg.maxSecs, now);
    RunIsCacheRun(cfg, s0, es, []);
    assert [] + Ops(s0, es) == Ops(s0, es);
  }

  /** The recency guarantee among all the other requests: a request whose name and type was
      inserted, has not expired, and has had fewer than `capacity` other keys used since its
      own last use, is answered from the cache, with the packet inserted last. */
  lemma GuaranteedHit(policy: Policy, cfg: R.Config, now: nat, es: seq<Event>, e: Event)
    requires cfg.minSecs <= cfg.maxSecs
    requires CanRun(Start(policy, cfg.capacity, cfg.minSecs, cfg.maxSecs, now), es)
    requires var s0 := Start(policy, cfg.capacity, cfg.minSecs, cfg.maxSecs, now);
      var s := After(s0, es);
      && AllPlaced(s) && Enabled(s, e) && e.Look? && s.tasks[e.id].phase.packet.questions != []
      && var k := KeyFor(s.tasks[e.id].phase.packet);
      && k in R.Latest(cfg, Ops(s0, es)) && !C.Expired(R.Latest(cfg, Ops(s0, es))[k], e.checked)
      && |R.Since(cfg, Ops(s0, es), k)| < R.Capacity(cfg)
    ensures var s0 := Start(policy, cfg.capacity, cfg.minSecs, cfg.maxSecs, now);
      var s := After(s0, es);
      var entry := R.Latest(cfg, Ops(s0, es))[KeyFor(s.tasks[e.id].phase.packet)];
      Next(s, e).tasks[e.id].reply == Some(Encode(C.Aged(entry.packet, C.RemainingTtl(entry, e.aged))))
  {
    hide Encode, Admit, After, CanRun, Ops, R.Run, R.Latest, R.Since, R.Monotone, Placed, C.Get;
    var s0 := Start(policy, cfg.capacity, cfg.minSecs, cfg.maxSecs, now);
    var s := After(s0, es);
    EveryInterleavingIsACacheRun(policy, cfg, now, es);
    R.LaterIsMonotone(Ops(s0, es), s.now, e.checked);
    var q := s.tasks[e.id].phase.packet.questions[0];
    R.GuaranteedHit(cfg, Ops(s0, es), q.name, q.qtype, e.checked, e.aged);
  }

  // ----- Progress -----

  function StepsLeft(phase: Phase): nat {
    match phase
    case Arrived => 7
    case Admitting(_) => 6
    case Missed(_) => 5
    case InFlight(_) => 4
    case Replied(_) => 3
    case Storing(_, _) => 2
    case Stored(_) => 1
    case Writing(_) => 1
    case Finished => 0
  }

  /** The step that a request's handler takes next, given what the network and the clock do. */
  function NextEvent(id: nat, phase: Phase, w: World): Event
    requires !phase.Finished?
  {
    match phase
    case Arrived => Filter(id)
    case Admitting(_) => Look(id, w.checked, w.aged)
    case Writing(_) => Written(id)
    case Missed(_) => Send(id)
    case InFlight(_) => Hear(id, w.attempts)
    case Replied(_) => ParseReply(id)
    case Storing(_, _) => Store(id, w.stored)
    case Stored(_) => Answer(id)
  }

  predicate NeedsLock(phase: Phase) {
    phase.Admitting? || phase.Storing?
  }

  /** The readings of the clock that are still to come are not in the past. */
  predicate OnTime(s: Server, phase: Phase, w: World) {
    && w.checked <= w.aged <= w.stored && s.now <= w.stored
    && (phase.Arrived? || phase.Admitting? ==> s.now <= w.checked)
  }

  /** A request waits for no other request, except for the lock: its next step can be taken
      exactly when it does not need the lock or the lock is free.  What holds the lock is
      then a connection handler that is writing a hit to its client, so that a client which
      does not take its reply holds up all lookups and inserts, and its own next step can
      be taken. */
  lemma WaitsExactlyForWriter(s: Server, id: nat, w: World)
    requires AllPlaced(s) && id in s.tasks && !s.tasks[id].phase.Finished? && OnTime(s, s.tasks[id].phase, w)
    ensures Enabled(s, NextEvent(id, s.tasks[id].phase, w)) <==> !(NeedsLock(s.tasks[id].phase) && s.lock.Some?)
    ensures s.lock.Some? ==>
              var h := s.lock.value;
              && h in s.tasks && s.tasks[h].phase.Writing? && s.tasks[h].transport.OverTcp? && s.tasks[h].hit.Some?
              && Enabled(s, NextEvent(h, s.tasks[h].phase, w))
  {
    hide Admit, Decode, C.Valid;
  }

  /** A hit on a connection: until its reply is written, no request can look in the cache or
      store anything in it. */
  lemma WriterHoldsUpOthers(s: Server, e: Event, other: Event)
    requires AllPlaced(s) && Enabled(s, e) && e.Look? && s.tasks[e.id].transport.OverTcp?
    requires s.tasks[e.id].phase.packet.questions != []
    requires var k := KeyFor(s.tasks[e.id].phase.packet);
      k in s.cache.lru.table && !C.Expired(s.cache.lru.table[k], e.checked)
    ensures Next(s, e).lock == Some(e.id)
    ensures Enabled(Next(s, e), other) && (other.Written? || other.Look? || other.Store?) ==> other == Written(e.id)
  {
    hide Admit, Encode, AfterLook, C.Get, C.Valid;
    LookResult(s.cache, s.tasks[e.id], e.checked, e.aged);
  }

  /** Every step of a request leaves it fewer than before, of at most seven, and moves no
      other request. */
  lemma StepsAreBounded(s: Server, id: nat, e: Event)
    requires AllPlaced(s) && id in s.tasks && Enabled(s, e)
    ensures var after := Next(s, e).tasks[id].phase;
      if e.id == id then StepsLeft(after) < StepsLeft(s.tasks[id].phase) <= 7
      else after == s.tasks[id].phase
  {
    hide Act, Placed, LockPlaced, C.Valid;
    if !e.Arrive? {
      OwnStepCounts(s, e);
    }
  }

  lemma OwnStepCounts(s: Server, e: Event)
    requires AllPlaced(s) && Enabled(s, e) && !e.Arrive?
    ensures StepsLeft(Act(s, e).1.phase) < StepsLeft(s.tasks[e.id].phase) <= 7
  {
    hide AfterFilter, AfterLook, AfterHear, AfterParse, AllPlaced;
    match e
    case Filter(_) => FilterPhase(s.policy, s.tasks[e.id]);
    case Look(_, _, _) => LookCounts(s, e);
    case Hear(_, attempts) => HearPhase(s.tasks[e.id], attempts);
    case ParseReply(_) => ParseCounts(s, e);
    case _ =>
  }

  lemma LookCounts(s: Server, e: Event)
    requires AllPlaced(s) && Enabled(s, e) && e.Look?
    ensures var phase := Act(s, e).1.phase; phase.Writing? || phase.Missed? || phase.Finished?
  {
    hide AfterLook, C.Valid, LockPlaced, Admit;
    AdmittedAsks(s.policy, s.tasks[e.id].query);
    LookPhase(s.cache, s.tasks[e.id], e.checked, e.aged);
  }

  lemma ParseCounts(s: Server, e: Event)
    requires AllPlaced(s) && Enabled(s, e) && e.ParseReply?
    ensures var phase := Act(s, e).1.phase; phase.Storing? || phase.Stored? || phase.Finished?
  {
    hide AfterParse, C.Valid, LockPlaced, Admit;
    ParsePhase(s.tasks[e.id]);
  }

  lemma FilterPhase(policy: Policy, t: Task)
    ensures AfterFilter(policy, t).phase.Admitting? || AfterFilter(policy, t).phase.Finished?
  {
    hide Admit, Encode;
  }

  lemma HearPhase(t: Task, attempts: seq<Attempt>)
    requires t.phase.InFlight?
    ensures AfterHear(t, attempts).phase.Replied? || AfterHear(t, attempts).phase.Finished?
  {
    hide Forward, Encode;
  }

  lemma ParsePhase(t: Task)
    requires t.phase.Replied? && t.upstream.Some?
    ensures var phase := AfterParse(t).phase; phase.Storing? || phase.Stored? || phase.Finished?
  {
    hide Decode;
  }

  // ----- A request by itself -----

  /** The handler for the request's transport. */
  function Handled(policy: Policy, c: C.Cache, transport: Transport, query: Message, w: World)
    : (C.Cache, Option<Message>)
    requires c.minTtl <= c.maxTtl
  {
    if transport.OverUdp? then Udp(policy, c, query, w)
    else (Tcp(policy, c, query, w).cache, Tcp(policy, c, query, w).reply)
  }

  function FromReply(c: C.Cache, transport: Transport, p: Packet, octets: Message, w: World): (C.Cache, Option<Message>)
    requires c.minTtl <= c.maxTtl && p.questions != []
  {
    match Decode(octets)
    case Panicked => (c, if transport.OverTcp? then Some(octets) else None)
    case Err(_) => (c, Some(octets))
    case Ok(r) => (InsertFor(c, p, r, w), Some(octets))
  }

  function FromUpstream(c: C.Cache, transport: Transport, p: Packet, w: World): (C.Cache, Option<Message>)
    requires c.minTtl <= c.maxTtl && p.questions != []
  {
    match Forward(w.attempts)
    case Failed(_) => (c, if transport.OverTcp? then Some(Encode(ServFail(p))) else None)
    case Replied(octets) => FromReply(c, transport, p, octets, w)
  }

  function FromLookup(c: C.Cache, transport: Transport, p: Packet, w: World): (C.Cache, Option<Message>)
    requires c.minTtl <= c.maxTtl && p.questions != []
  {
    var (c', hit) := LookupFor(c, p, w);
    if hit.Some? then (c', Some(Encode(hit.value))) else FromUpstream(c', transport, p, w)
  }

  /** The cache and the reply that a request ends with if only its own steps are taken. */
  ghost function Outcome(s: Server, id: nat, w: World): (C.Cache, Option<Message>)
    requires AllPlaced(s) && id in s.tasks
  {
    var t := s.tasks[id];
    AdmittedAsks(s.policy, t.query);
    match t.phase
    case Arrived => Handled(s.policy, s.cache, t.transport, t.query, w)
    case Admitting(p) => FromLookup(s.cache, t.transport, p, w)
    case Missed(p) => FromUpstream(s.cache, t.transport, p, w)
    case InFlight(p) => FromUpstream(s.cache, t.transport, p, w)
    case Replied(p) => FromReply(s.cache, t.transport, p, t.upstream.value, w)
    case Storing(p, r) => (InsertFor(s.cache, p, r, w), t.upstream)
    case Stored(_) => (s.cache, t.upstream)
    case Writing(_) => (s.cache, t.reply)
    case Finished => (s.cache, t.reply)
  }

  /** A request's own step does not change what it will end with. */
  lemma OwnStepKeepsOutcome(s: Server, id: nat, w: World)
    requires AllPlaced(s) && id in s.tasks && !s.tasks[id].phase.Finished? && OnTime(s, s.tasks[id].phase, w)
    requires s.lock.None? || s.lock == Some(id)
    ensures var e := NextEvent(id, s.tasks[id].phase, w);
      && Enabled(s, e) && AllPlaced(Next(s, e))
      && Outcome(Next(s, e), id, w) == Outcome(s, id, w)
  {
    hide Outcome, Act, Placed, C.Valid;
    var e := NextEvent(id, s.tasks[id].phase, w);
    StepPlaces(s, e);
    if e.Look? {
      LookOutcome(s, id, w);
    } else if e.Filter? {
      FilterOutcome(s, id, w);
    } else {
      LaterOutcome(s, id, w);
    }
  }

  lemma LookOutcome(s: Server, id: nat, w: World)
    requires AllPlaced(s) && id in s.tasks && s.tasks[id].phase.Admitting?
    requires Enabled(s, Look(id, w.checked, w.aged)) && AllPlaced(Next(s, Look(id, w.checked, w.aged)))
    ensures Outcome(Next(s, Look(id, w.checked, w.aged)), id, w) == Outcome(s, id, w)
  {
    hide Admit, FromLookup, FromUpstream, FromReply, InsertFor, AfterLook, C.Valid, LockPlaced, Handled;
    AdmittedAsks(s.policy, s.tasks[id].query);
    ValidBounds(s.cache);
    OwnTaskGrows(s, Look(id, w.checked, w.aged));
    LookKeepsOutcome(s.cache, s.tasks[id], w);
  }

  lemma FilterOutcome(s: Server, id: nat, w: World)
    requires AllPlaced(s) && id in s.tasks && s.tasks[id].phase.Arrived?
    requires Enabled(s, Filter(id)) && AllPlaced(Next(s, Filter(id)))
    ensures Outcome(Next(s, Filter(id)), id, w) == Outcome(s, id, w)
  {
    hide Admit, FromLookup, AfterFilter, C.Valid, LockPlaced, Handled;
    ValidBounds(s.cache);
    OwnTaskGrows(s, Filter(id));
    FilterKeepsOutcome(s.policy, s.cache, s.tasks[id], w);
  }

  lemma LaterOutcome(s: Server, id: nat, w: World)
    requires AllPlaced(s) && id in s.tasks && !s.tasks[id].phase.Finished?
    requires !s.tasks[id].phase.Arrived? && !s.tasks[id].phase.Admitting?
    requires Enabled(s, NextEvent(id, s.tasks[id].phase, w)) && AllPlaced(Next(s, NextEvent(id, s.tasks[id].phase, w)))
    ensures Outcome(Next(s, NextEvent(id, s.tasks[id].phase, w)), id, w) == Outcome(s, id, w)
  {
    hide Outcome, Act, Placed, C.Valid, LockPlaced;
    if s.tasks[id].phase.InFlight? {
      HearOutcome(s, id, w);
    } else if s.tasks[id].phase.Replied? {
      ParseOutcome(s, id, w);
    } else {
      PlainOutcome(s, id, w);
    }
  }

  lemma HearOutcome(s: Server, id: nat, w: World)
    requires AllPlaced(s) && id in s.tasks && s.tasks[id].phase.InFlight?
    requires Enabled(s, Hear(id, w.attempts)) && AllPlaced(Next(s, Hear(id, w.attempts)))
    ensures Outcome(Next(s, Hear(id, w.attempts)), id, w) == Outcome(s, id, w)
  {
    hide Encode, Decode, Admit, FromUpstream, FromReply, FromLookup, InsertFor, Handled;
    hide AfterHear, Forward, C.Valid, LockPlaced, KeyFor;
    AdmittedAsks(s.policy, s.tasks[id].query);
    ValidBounds(s.cache);
    OwnTaskGrows(s, Hear(id, w.attempts));
    HearKeepsOutcome(s.cache, s.tasks[id], w);
  }

  lemma ParseOutcome(s: Server, id: nat, w: World)
    requires AllPlaced(s) && id in s.tasks && s.tasks[id].phase.Replied?
    requires Enabled(s, ParseReply(id)) && AllPlaced(Next(s, ParseReply(id)))
    ensures Outcome(Next(s, ParseReply(id)), id, w) == Outcome(s, id, w)
  {
    hide Admit, FromReply, FromUpstream, FromLookup, Handled, AfterParse, InsertFor, C.Valid, LockPlaced;
    AdmittedAsks(s.policy, s.tasks[id].query);
    ValidBounds(s.cache);
    OwnTaskGrows(s, ParseReply(id));
    ParseKeepsOutcome(s.cache, s.tasks[id], w);
  }

  lemma PlainOutcome(s: Server, id: nat, w: World)
    requires AllPlaced(s) && id in s.tasks
    requires var phase := s.tasks[id].phase; phase.Missed? || phase.Storing? || phase.Stored? || phase.Writing?
    requires Enabled(s, NextEvent(id, s.tasks[id].phase, w)) && AllPlaced(Next(s, NextEvent(id, s.tasks[id].phase, w)))
    ensures Outcome(Next(s, NextEvent(id, s.tasks[id].phase, w)), id, w) == Outcome(s, id, w)
  {
    hide Admit, FromUpstream, FromReply, FromLookup, Handled, C.Insert, C.Valid, LockPlaced;
  }

  lemma HearKeepsOutcome(c: C.Cache, t: Task, w: World)
    requires c.minTtl <= c.maxTtl && t.phase.InFlight? && t.phase.packet.questions != []
    ensures var p, t' := t.phase.packet, AfterHear(t, w.attempts);
      if t'.phase.Replied? then
        t'.phase.packet == p && t'.upstream.Some?
        && FromUpstream(c, t.transport, p, w) == FromReply(c, t.transport, p, t'.upstream.value, w)
      else t'.phase.Finished? && FromUpstream(c, t.transport, p, w) == (c, t'.reply)
  {
    hide Encode, Forward, FromReply;
  }

  lemma ParseKeepsOutcome(c: C.Cache, t: Task, w: World)
    requires c.minTtl <= c.maxTtl && t.phase.Replied? && t.phase.packet.questions != []
    requires t.upstream.Some? && t.reply == if t.transport.OverUdp? then None else t.upstream
    ensures var p, t' := t.phase.packet, AfterParse(t);
      var r := FromReply(c, t.transport, p, t.upstream.value, w);
      && t'.upstream == t.upstream && t'.reply == t.reply
      && match t'.phase
         case Storing(p', parsed) => p' == p && r == (InsertFor(c, p, parsed, w), t.upstream)
         case Stored(_) => r == (c, t.upstream)
         case _ => t'.phase.Finished? && r == (c, t.reply)
  {
    hide Decode, InsertFor;
  }

  lemma FilterKeepsOutcome(policy: Policy, c: C.Cache, t: Task, w: World)
    requires c.minTtl <= c.maxTtl && t.phase.Arrived? && t.reply.None?
    ensures var t' := AfterFilter(policy, t);
      if t'.phase.Admitting? then
        t'.phase.packet.questions != []
        && Handled(policy, c, t.transport, t.query, w) == FromLookup(c, t.transport, t'.phase.packet, w)
      else t'.phase.Finished? && Handled(policy, c, t.transport, t.query, w) == (c, t'.reply)
  {
    hide Admit, Handled, AfterFilter, FromLookup;
    AdmittedAsks(policy, t.query);
    if Admit(policy, t.query).Admitted? {
      AdmittedPhase(policy, t);
      HandledFromLookup(policy, c, t.transport, t.query, w);
    } else {
      UnadmittedReply(policy, c, t, w);
    }
  }

  lemma AdmittedPhase(policy: Policy, t: Task)
    requires Admit(policy, t.query).Admitted?
    ensures AfterFilter(policy, t).phase == Admitting(Admit(policy, t.query).packet)
  {
    hide Admit, Encode;
  }

  lemma UnadmittedReply(policy: Policy, c: C.Cache, t: Task, w: World)
    requires c.minTtl <= c.maxTtl && t.phase.Arrived? && t.reply.None? && !Admit(policy, t.query).Admitted?
    ensures AfterFilter(policy, t).phase.Finished?
    ensures Handled(policy, c, t.transport, t.query, w) == (c, AfterFilter(policy, t).reply)
  {
    hide Encode, Admit, Blocked, LookupFor, InsertFor, Forward;
  }

  lemma HandledFromLookup(policy: Policy, c: C.Cache, transport: Transport, query: Message, w: World)
    requires c.minTtl <= c.maxTtl && Admit(policy, query).Admitted?
    requires Admit(policy, query).packet.questions != []
    ensures Handled(policy, c, transport, query, w) == FromLookup(c, transport, Admit(policy, query).packet, w)
  {
    hide Admit, Udp, Tcp, FromLookup;
    if transport.OverUdp? {
      UdpFromLookup(policy, c, query, w);
    } else {
      TcpFromLookup(policy, c, query, w);
    }
  }

  lemma UdpFromLookup(policy: Policy, c: C.Cache, query: Message, w: World)
    requires c.minTtl <= c.maxTtl && Admit(policy, query).Admitted?
    requires Admit(policy, query).packet.questions != []
    ensures Udp(policy, c, query, w) == FromLookup(c, OverUdp, Admit(policy, query).packet, w)
  {
    hide Encode, Decode, Admit, Forward, C.Get, C.Insert;
  }

  lemma TcpFromLookup(policy: Policy, c: C.Cache, query: Message, w: World)
    requires c.minTtl <= c.maxTtl && Admit(policy, query).Admitted?
    requires Admit(policy, query).packet.questions != []
    ensures (Tcp(policy, c, query, w).cache, Tcp(policy, c, query, w).reply)
         == FromLookup(c, OverTcp, Admit(policy, query).packet, w)
  {
    hide Encode, Decode, Admit, Forward, C.Get, C.Insert;
  }

  lemma LookKeepsOutcome(c: C.Cache, t: Task, w: World)
    requires c.minTtl <= c.maxTtl && t.phase.Admitting? && t.phase.packet.questions != []
    ensures var (c', t') := AfterLook(c, t, w.checked, w.aged);
      c'.minTtl <= c'.maxTtl
      && if t'.phase.Missed? then
           t'.phase.packet == t.phase.packet
           && FromLookup(c, t.transport, t.phase.packet, w) == FromUpstream(c', t.transport, t.phase.packet, w)
         else
           (t'.phase.Writing? || t'.phase.Finished?)
           && FromLookup(c, t.transport, t.phase.packet, w) == (c', t'.reply)
  {
    hide Encode, FromUpstream;
  }

  lemma OwnStepKeepsRest(s: Server, id: nat, w: World)
    requires AllPlaced(s) && id in s.tasks && !s.tasks[id].phase.Finished? && OnTime(s, s.tasks[id].phase, w)
    requires s.lock.None? || s.lock == Some(id)
    requires Enabled(s, NextEvent(id, s.tasks[id].phase, w))
    ensures var s' := Next(s, NextEvent(id, s.tasks[id].phase, w));
      && (s'.lock.None? || s'.lock == Some(id)) && OnTime(s', s'.tasks[id].phase, w)
      && StepsLeft(s'.tasks[id].phase) < StepsLeft(s.tasks[id].phase)
  {
    hide Act, Placed, LockPlaced, C.Valid;
    OwnStepCounts(s, NextEvent(id, s.tasks[id].phase, w));
  }

  lemma {:induction false} AloneFrom(s: Server, id: nat, w: World) returns (es: seq<Event>)
    requires AllPlaced(s) && id in s.tasks && OnTime(s, s.tasks[id].phase, w)
    requires s.lock.None? || s.lock == Some(id)
    ensures CanRun(s, es) && id in After(s, es).tasks && After(s, es).tasks[id].phase.Finished?
    ensures (After(s, es).cache, After(s, es).tasks[id].reply) == Outcome(s, id, w)
    ensures |es| <= StepsLeft(s.tasks[id].phase)
    decreases StepsLeft(s.tasks[id].phase)
  {
    hide AllPlaced, Outcome, Act, OnTime, Enabled;
    if s.tasks[id].phase.Finished? {
      es := [];
      FinishedOutcome(s, id, w);
    } else {
      var e := NextEvent(id, s.tasks[id].phase, w);
      OwnStepKeepsOutcome(s, id, w);
      OwnStepKeepsRest(s, id, w);
      var rest := AloneFrom(Next(s, e), id, w);
      es := [e] + rest;
      assert es[1..] == rest;
    }
  }

  lemma FinishedOutcome(s: Server, id: nat, w: World)
    requires AllPlaced(s) && id in s.tasks && s.tasks[id].phase.Finished?
    ensures Outcome(s, id, w) == (s.cache, s.tasks[id].reply)
  {
  }

  /** A request that finds the lock free and whose steps are not interrupted does what its
      handler does: the same cache, the same reply, in at most eight steps. */
  lemma AloneIsTheHandler(s: Server, id: nat, transport: Transport, query: Message, w: World) returns (es: seq<Event>)
    requires AllPlaced(s) && s.lock.None? && id !in s.tasks
    requires s.now <= w.checked <= w.aged <= w.stored
    ensures CanRun(s, es) && id in After(s, es).tasks && After(s, es).tasks[id].phase.Finished? && |es| <= 8
    ensures s.cache.minTtl <= s.cache.maxTtl
    ensures (After(s, es).cache, After(s, es).tasks[id].reply) == Handled(s.policy, s.cache, transport, query, w)
  {
    hide Handled, C.Valid;
    var e := Arrive(id, transport, query);
    ValidBounds(s.cache);
    StepPlaces(s, e);
    var s' := Next(s, e);
    assert Outcome(s', id, w) == Handled(s.policy, s.cache, transport, query, w);
    var rest := AloneFrom(s', id, w);
    es := [e] + rest;
    assert es[1..] == rest;
  }
}
