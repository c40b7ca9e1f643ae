/** Whole runs of the cache against an unbounded map of the latest inserts: what a hit
    returns, which key is displaced, how long a key is sure to stay, and what the
    counters count. */
module CacheRuns {
  import opened Bytes
  import opened Records
  import opened Packets
  import opened Lru
  import opened Cache

  datatype Op =
    | Look(domain: Text, qtype: QueryType, checked: nat, aged: nat)
    | Put(domain: Text, qtype: QueryType, packet: Packet, at: nat)
    | Wipe

  datatype Config = Config(capacity: nat, minSecs: nat, maxSecs: nat)

  function Start(cfg: Config): Cache {
    New(cfg.capacity, cfg.minSecs, cfg.maxSecs)
  }

  function Capacity(cfg: Config): nat {
    Start(cfg).lru.cap
  }

  function KeyOf(op: Op): Key
    requires !op.Wipe?
  {
    Key(Lower(op.domain), op.qtype)
  }

  function Step(c: Cache, op: Op): Cache
    requires c.minTtl <= c.maxTtl
  {
    match op
    case Look(domain, qtype, checked, aged) => Get(c, domain, qtype, checked, aged).0
    case Put(domain, qtype, packet, at) => Insert(c, domain, qtype, packet, at)
    case Wipe => Clear(c)
  }

  function Init(ops: seq<Op>): seq<Op>
    requires ops != []
  {
    ops[..|ops| - 1]
  }

  function Last(ops: seq<Op>): Op
    requires ops != []
  {
    ops[|ops| - 1]
  }

  /** The cache after a run. */
  function Run(cfg: Config, ops: seq<Op>): (c: Cache)
    requires cfg.minSecs <= cfg.maxSecs
    ensures c.minTtl == cfg.minSecs * TICKS && c.maxTtl == cfg.maxSecs * TICKS && c.lru.cap == Capacity(cfg)
  {
    if ops == [] then Start(cfg) else Step(Run(cfg, Init(ops)), Last(ops))
  }

  /** What a configuration means: 1024 in the place of no capacity, and seconds of 10^9 ticks. */
  lemma ConfigMeans(cfg: Config)
    ensures Capacity(cfg) == if cfg.capacity == 0 then 1024 else cfg.capacity
    ensures Start(cfg).minTtl == cfg.minSecs * 1_000_000_000 && Start(cfg).maxTtl == cfg.maxSecs * 1_000_000_000
    ensures Start(cfg).lru.table == map[] && Start(cfg).stats == CacheStats(0, 0, 0, 0)
  {
  }

  lemma {:induction false} RunIsValid(cfg: Config, ops: seq<Op>)
    requires cfg.minSecs <= cfg.maxSecs
    ensures Valid(Run(cfg, ops))
  {
    if ops != [] {
      RunIsValid(cfg, Init(ops));
      StepIsValid(Run(cfg, Init(ops)), Last(ops));
    }
  }

  lemma StepIsValid(c: Cache, op: Op)
    requires Valid(c)
    ensures Valid(Step(c, op))
  {
    match op
    case Look(domain, qtype, checked, aged) => GetIsValid(c, domain, qtype, checked, aged);
    case Put(domain, qtype, packet, at) => InsertIsValid(c, domain, qtype, packet, at);
    case Wipe =>
  }

  /** The unbounded specification: for each key, what was inserted last since the last clear. */
  function Latest(cfg: Config, ops: seq<Op>): map<Key, CachedResponse>
    requires cfg.minSecs <= cfg.maxSecs
  {
    if ops == [] then map[]
    else
      var before := Latest(cfg, Init(ops));
      match Last(ops)
      case Look(_, _, _, _) => before
      case Put(domain, qtype, packet, at) =>
        before[Key(Lower(domain), qtype) :=
                 CachedResponse(packet, qtype, at,
                                EffectiveTtl(packet, cfg.minSecs * TICKS, cfg.maxSecs * TICKS))]
      case Wipe => map[]
  }

  /** The bounded cache is part of the unbounded map. */
  lemma {:induction false} CacheIsSubmap(cfg: Config, ops: seq<Op>)
    requires cfg.minSecs <= cfg.maxSecs
    ensures var c := Run(cfg, ops); forall k | k in c.lru.table :: k in Latest(cfg, ops) && c.lru.table[k] == Latest(cfg, ops)[k]
  {
    if ops != [] {
      CacheIsSubmap(cfg, Init(ops));
    }
  }

  /** Main result on contents: after every run the cache holds at most its capacity, and
      a lookup that hits returns what was inserted last under the lower-cased name and the
      type, unexpired, with nothing changed but the answers' TTLs. */
  lemma HitIsLatest(cfg: Config, ops: seq<Op>, domain: Text, qtype: QueryType, checked: nat, aged: nat)
    requires cfg.minSecs <= cfg.maxSecs
    ensures |Run(cfg, ops).lru.table| <= Capacity(cfg)
    ensures var r := Get(Run(cfg, ops), domain, qtype, checked, aged).1;
      var k := Key(Lower(domain), qtype);
      && (r.Some? ==>
            && k in Latest(cfg, ops) && !Expired(Latest(cfg, ops)[k], checked)
            && r.value == Aged(Latest(cfg, ops)[k].packet, RemainingTtl(Latest(cfg, ops)[k], aged)))
      && (r.Some? <==> k in Run(cfg, ops).lru.table && !Expired(Run(cfg, ops).lru.table[k], checked))
  {
    CacheIsSubmap(cfg, ops);
    RunIsValid(cfg, ops);
    SizeIsOrder(Run(cfg, ops).lru);
  }

  /** The same in full: a lookup hits exactly when its key is cached and the entry that
      was inserted last under it has some life left, and the reply is that entry's packet with
      the remaining TTL in every answer and nothing else changed. */
  lemma HitInFull(cfg: Config, ops: seq<Op>, domain: Text, qtype: QueryType, checked: nat, aged: nat)
    requires cfg.minSecs <= cfg.maxSecs
    ensures var r, k := Get(Run(cfg, ops), domain, qtype, checked, aged).1, Key(Lower(domain), qtype);
      && (r.Some? <==>
            && k in Run(cfg, ops).lru.table && k in Latest(cfg, ops) && Latest(cfg, ops)[k].ttl > 0
            && checked < Latest(cfg, ops)[k].createdAt + Latest(cfg, ops)[k].ttl)
      && (r.Some? ==>
            var p, ttl := Latest(cfg, ops)[k].packet, RemainingTtl(Latest(cfg, ops)[k], aged);
            && r.value.header == p.header && r.value.questions == p.questions
            && r.value.authorities == p.authorities && r.value.additionals == p.additionals
            && |r.value.answers| == |p.answers|
            && forall i | 0 <= i < |p.answers| ::
                 r.value.answers[i] == ResourceRecord(p.answers[i].name, p.answers[i].rtype, p.answers[i].rclass,
                                                      ttl, p.answers[i].rdata))
  {
    hide Run, Latest, Get, RemainingTtl, EffectiveTtl;
    CacheIsSubmap(cfg, ops);
    GetReturns(Run(cfg, ops), domain, qtype, checked, aged);
  }

  lemma {:induction false} DistinctSize<K(!new)>(s: seq<K>, m: set<K>)
    requires Distinct(s) && forall k :: k in s <==> k in m
    ensures |m| == |s|
  {
    if s == [] {
      assert m == {};
    } else {
      assert s == [s[0]] + s[1..];
      DistinctSize(s[1..], m - {s[0]});
    }
  }

  lemma SizeIsOrder(l: Lru<Key, CachedResponse>)
    requires Sound(l)
    ensures |l.table| == |l.order|
  {
    DistinctSize(l.order, l.table.Keys);
    assert |l.table| == |l.table.Keys|;
  }

  // ----- Recency -----

  /** The key that an operation uses: one that is inserted, or one that is hit. */
  function Used(cfg: Config, before: seq<Op>, op: Op): Option<Key>
    requires cfg.minSecs <= cfg.maxSecs
  {
    match op
    case Look(domain, qtype, checked, aged) =>
      if Get(Run(cfg, before), domain, qtype, checked, aged).1.Some? then Some(KeyOf(op)) else None
    case Put(_, _, _, _) => Some(KeyOf(op))
    case Wipe => None
  }

  /** The other keys used since `k` was used last (or since the last clear). */
  function Since(cfg: Config, ops: seq<Op>, k: Key): set<Key>
    requires cfg.minSecs <= cfg.maxSecs
  {
    if ops == [] then {}
    else if Last(ops).Wipe? then {}
    else
      match Used(cfg, Init(ops), Last(ops))
      case None => Since(cfg, Init(ops), k)
      case Some(j) => if j == k then {} else Since(cfg, Init(ops), k) + {j}
  }

  /** Each key in the order was used after every key behind it, and not the other way round. */
  ghost predicate Ranked(cfg: Config, ops: seq<Op>, order: seq<Key>)
    requires cfg.minSecs <= cfg.maxSecs
  {
    order == [] ||
    (&& (forall b | b in order[1..] :: order[0] in Since(cfg, ops, b) && b !in Since(cfg, ops, order[0]))
     && Ranked(cfg, ops, order[1..]))
  }

  lemma {:induction false} RankedWithout(cfg: Config, ops: seq<Op>, order: seq<Key>, k: Key)
    requires cfg.minSecs <= cfg.maxSecs && Ranked(cfg, ops, order)
    ensures Ranked(cfg, ops, Without(order, k))
  {
    if order != [] {
      RankedWithout(cfg, ops, order[1..], k);
      if order[0] != k {
        assert Without(order, k)[1..] == Without(order[1..], k);
      }
    }
  }

  /** An operation that uses `k` keeps the ranks of the other keys. */
  lemma {:induction false} RankedAfterUse(cfg: Config, ops: seq<Op>, order: seq<Key>, k: Key)
    requires cfg.minSecs <= cfg.maxSecs && ops != [] && Used(cfg, Init(ops), Last(ops)) == Some(k)
    requires Ranked(cfg, Init(ops), order) && k !in order
    ensures Ranked(cfg, ops, order)
  {
    if order != [] {
      assert order == [order[0]] + order[1..];
      RankedAfterUse(cfg, ops, order[1..], k);
    }
  }

  /** An operation that uses no key and clears nothing keeps all ranks. */
  lemma {:induction false} RankedAfterMiss(cfg: Config, ops: seq<Op>, order: seq<Key>)
    requires cfg.minSecs <= cfg.maxSecs && ops != [] && !Last(ops).Wipe?
    requires Used(cfg, Init(ops), Last(ops)).None? && Ranked(cfg, Init(ops), order)
    ensures Ranked(cfg, ops, order)
  {
    if order != [] {
      RankedAfterMiss(cfg, ops, order[1..]);
    }
  }

  lemma RankedFront(cfg: Config, ops: seq<Op>, order: seq<Key>, k: Key)
    requires cfg.minSecs <= cfg.maxSecs && ops != [] && Used(cfg, Init(ops), Last(ops)) == Some(k)
    requires Ranked(cfg, Init(ops), order) && k !in order
    ensures Ranked(cfg, ops, [k] + order)
  {
    RankedAfterUse(cfg, ops, order, k);
    assert ([k] + order)[1..] == order;
  }

  /** Main result on order: after every run the recency order lists the cached keys by
      last use, the most recent first. */
  lemma {:induction false} OrderIsRanked(cfg: Config, ops: seq<Op>)
    requires cfg.minSecs <= cfg.maxSecs
    ensures Ranked(cfg, ops, Run(cfg, ops).lru.order)
  {
    if ops != [] {
      OrderIsRanked(cfg, Init(ops));
      RunIsValid(cfg, Init(ops));
      var c, op := Run(cfg, Init(ops)), Last(ops);
      if !op.Wipe? {
        OrderStep(cfg, ops, c, op, KeyOf(op));
      }
    }
  }

  lemma OrderStep(cfg: Config, ops: seq<Op>, c: Cache, op: Op, k: Key)
    requires cfg.minSecs <= cfg.maxSecs && ops != [] && !Last(ops).Wipe?
    requires c == Run(cfg, Init(ops)) && op == Last(ops) && k == KeyOf(op)
    requires Valid(c) && Ranked(cfg, Init(ops), c.lru.order)
    ensures Ranked(cfg, ops, Step(c, op).lru.order)
  {
    var order := c.lru.order;
    RankedWithout(cfg, Init(ops), order, k);
    if Used(cfg, Init(ops), op).None? {
      RankedAfterMiss(cfg, ops, order);
      RankedAfterMiss(cfg, ops, Without(order, k));
    } else if Displaced(c.lru, k).Some? && op.Put? {
      var kept := Without(order, Displaced(c.lru, k).value);
      RankedWithout(cfg, Init(ops), order, Displaced(c.lru, k).value);
      RankedWithout(cfg, Init(ops), kept, k);
      RankedFront(cfg, ops, Without(kept, k), k);
    } else {
      RankedFront(cfg, ops, Without(order, k), k);
    }
  }

  lemma {:induction false} RankedLast(cfg: Config, ops: seq<Op>, order: seq<Key>)
    requires cfg.minSecs <= cfg.maxSecs && Ranked(cfg, ops, order) && order != []
    ensures var last := order[|order| - 1];
      forall j | j in order && j != last :: j in Since(cfg, ops, last) && last !in Since(cfg, ops, j)
  {
    if |order| > 1 {
      assert order == [order[0]] + order[1..];
      assert order[1..][|order| - 2] == order[|order| - 1];
      RankedLast(cfg, ops, order[1..]);
    }
  }

  /** What an insert displaces is the least recently used key: every other cached key was
      used after it, and it was not used after any of them. */
  lemma DisplacedIsLeastRecent(cfg: Config, ops: seq<Op>, k: Key)
    requires cfg.minSecs <= cfg.maxSecs && Displaced(Run(cfg, ops).lru, k).Some?
    ensures var v, table := Displaced(Run(cfg, ops).lru, k).value, Run(cfg, ops).lru.table;
      && v in table && v != k
      && forall j | j in table && j != v :: j in Since(cfg, ops, v) && v !in Since(cfg, ops, j)
  {
    OrderIsRanked(cfg, ops);
    RunIsValid(cfg, ops);
    RankedLast(cfg, ops, Run(cfg, ops).lru.order);
  }

  /** The clock never goes back: all of an operation's readings come after those before it. */
  ghost predicate Monotone(ops: seq<Op>, now: nat)
    decreases |ops|
  {
    ops == [] ||
    match Last(ops)
    case Look(_, _, checked, aged) => checked <= aged <= now && Monotone(Init(ops), checked)
    case Put(_, _, _, at) => at <= now && Monotone(Init(ops), at)
    case Wipe => Monotone(Init(ops), now)
  }

  lemma {:induction false} LaterIsMonotone(ops: seq<Op>, now: nat, later: nat)
    requires Monotone(ops, now) && now <= later
    ensures Monotone(ops, later)
    decreases |ops|
  {
    if ops != [] && Last(ops).Wipe? {
      LaterIsMonotone(Init(ops), now, later);
    }
  }

  lemma {:induction false} LatestIsPast(cfg: Config, ops: seq<Op>, now: nat, k: Key)
    requires cfg.minSecs <= cfg.maxSecs && Monotone(ops, now) && k in Latest(cfg, ops)
    ensures Latest(cfg, ops)[k].createdAt <= now
    decreases |ops|
  {
    if ops != [] {
      match Last(ops)
      case Look(_, _, checked, _) => LatestIsPast(cfg, Init(ops), checked, k);
      case Put(_, _, _, at) =>
        if k != KeyOf(Last(ops)) {
          LatestIsPast(cfg, Init(ops), at, k);
        }
      case Wipe =>
    }
  }

  /** Recency guarantee: a key inserted since the last clear, whose latest entry has not
      expired at `now`, is still cached as long as fewer than `capacity` other keys have
      been used since it was used last. */
  lemma {:induction false} RecencyGuarantee(cfg: Config, ops: seq<Op>, now: nat, k: Key)
    requires cfg.minSecs <= cfg.maxSecs && Monotone(ops, now)
    requires k in Latest(cfg, ops) && !Expired(Latest(cfg, ops)[k], now)
    requires |Since(cfg, ops, k)| < Capacity(cfg)
    ensures k in Run(cfg, ops).lru.table && Run(cfg, ops).lru.table[k] == Latest(cfg, ops)[k]
    decreases |ops|
  {
    CacheIsSubmap(cfg, ops);
    if ops != [] && !(Last(ops).Put? && KeyOf(Last(ops)) == k) {
      var op := Last(ops);
      LatestIsPast(cfg, ops, now, k);
      KeptSoFar(cfg, ops, now, k);
      RunIsValid(cfg, Init(ops));
      if op.Put? {
        KeptByInsert(cfg, ops, k);
      } else {
        CacheIsSubmap(cfg, Init(ops));
        KeptByLookup(cfg, ops, now, k);
      }
    }
  }

  /** The guarantee for the run without its last operation, which was not an insert of `k`. */
  lemma {:induction false} KeptSoFar(cfg: Config, ops: seq<Op>, now: nat, k: Key)
    requires cfg.minSecs <= cfg.maxSecs && ops != [] && Monotone(ops, now)
    requires k in Latest(cfg, ops) && !Expired(Latest(cfg, ops)[k], now)
    requires |Since(cfg, ops, k)| < Capacity(cfg) && !(Last(ops).Put? && KeyOf(Last(ops)) == k)
    ensures k in Run(cfg, Init(ops)).lru.table
    decreases |ops|, 0
  {
    var before, op := Init(ops), Last(ops);
    var at := if op.Look? then op.checked else op.at;
    assert Latest(cfg, before)[k] == Latest(cfg, ops)[k];
    var used := Used(cfg, before, op);
    if used == Some(k) {
      assert k in Run(cfg, before).lru.table;
    } else {
      if used.Some? {
        SubsetSize(Since(cfg, before, k), Since(cfg, ops, k));
      }
      RecencyGuarantee(cfg, before, at, k);
    }
  }

  lemma {:induction false} SubsetSize<K>(a: set<K>, b: set<K>)
    requires a <= b
    ensures |a| <= |b|
  {
    if a != {} {
      var x :| x in a;
      SubsetSize(a - {x}, b - {x});
    }
  }

  lemma KeptByLookup(cfg: Config, ops: seq<Op>, now: nat, k: Key)
    requires cfg.minSecs <= cfg.maxSecs && ops != [] && Monotone(ops, now) && Last(ops).Look?
    requires k in Run(cfg, Init(ops)).lru.table && !Expired(Run(cfg, Init(ops)).lru.table[k], now)
    requires Run(cfg, Init(ops)).lru.table[k].createdAt <= now
    ensures k in Run(cfg, ops).lru.table
  {
  }

  /** An insert that dropped `k` would make it the last of `capacity` keys, all of them used since. */
  lemma KeptByInsert(cfg: Config, ops: seq<Op>, k: Key)
    requires cfg.minSecs <= cfg.maxSecs && ops != [] && Last(ops).Put? && KeyOf(Last(ops)) != k
    requires Valid(Run(cfg, Init(ops))) && k in Run(cfg, Init(ops)).lru.table
    requires |Since(cfg, ops, k)| < Capacity(cfg)
    ensures k in Run(cfg, ops).lru.table
  {
    var l, j := Run(cfg, Init(ops)).lru, KeyOf(Last(ops));
    if Displaced(l, j) == Some(k) {
      DisplacedIsLeastRecent(cfg, Init(ops), j);
      SizeIsOrder(l);
      var others := l.table.Keys - {k};
      assert others + {j} <= Since(cfg, ops, k);
      SubsetSize(others + {j}, Since(cfg, ops, k));
      assert false;
    }
  }

  /** The guarantee as a caller sees it: the lookup hits, with the packet inserted last. */
  lemma GuaranteedHit(cfg: Config, ops: seq<Op>, domain: Text, qtype: QueryType, now: nat, aged: nat)
    requires cfg.minSecs <= cfg.maxSecs && Monotone(ops, now)
    requires var k := Key(Lower(domain), qtype);
      && k in Latest(cfg, ops) && !Expired(Latest(cfg, ops)[k], now)
      && |Since(cfg, ops, k)| < Capacity(cfg)
    ensures var e := Latest(cfg, ops)[Key(Lower(domain), qtype)];
      Get(Run(cfg, ops), domain, qtype, now, aged).1 == Some(Aged(e.packet, RemainingTtl(e, aged)))
  {
    RecencyGuarantee(cfg, ops, now, Key(Lower(domain), qtype));
  }

  // ----- Counters -----

  /** What happened in a run, counted from outside: lookups that returned a packet, that
      returned none, and of these the ones that found an entry without life left. */
  datatype Ledger = Ledger(
    lookups: nat, hits: nat, misses: nat, expired: nat, newKeys: nat, displaced: nat, replacedWhenFull: nat, cleared: nat)

  function Book(cfg: Config, ops: seq<Op>): Ledger
    requires cfg.minSecs <= cfg.maxSecs
  {
    if ops == [] then Ledger(0, 0, 0, 0, 0, 0, 0, 0)
    else
      var b, c := Book(cfg, Init(ops)), Run(cfg, Init(ops));
      var l := c.lru;
      match Last(ops)
      case Look(domain, qtype, checked, aged) =>
        var n := b.(lookups := b.lookups + 1);
        if Get(c, domain, qtype, checked, aged).1.Some? then n.(hits := n.hits + 1)
        else if KeyOf(Last(ops)) in l.table then n.(misses := n.misses + 1, expired := n.expired + 1)
        else n.(misses := n.misses + 1)
      case Put(domain, qtype, _, _) =>
        if KeyOf(Last(ops)) in l.table then
          if |l.order| == l.cap then b.(replacedWhenFull := b.replacedWhenFull + 1) else b
        else if |l.order| == l.cap then b.(newKeys := b.newKeys + 1, displaced := b.displaced + 1)
        else b.(newKeys := b.newKeys + 1)
      case Wipe => b.(cleared := b.cleared + |l.order|)
  }

  /** Conservation over every run: the counters count the lookups that hit, that missed and
      that found an entry expired; every key that ever came in is still there, displaced,
      expired or cleared; and the eviction counter counts the displacements and, besides them,
      the replacements made when the cache was full. */
  lemma {:induction false} Conservation(cfg: Config, ops: seq<Op>)
    requires cfg.minSecs <= cfg.maxSecs
    ensures var c, b := Run(cfg, ops), Book(cfg, ops);
      && c.stats.hits == b.hits && c.stats.misses == b.misses && c.stats.expirations == b.expired
      && c.stats.hits + c.stats.misses == b.lookups
      && c.stats.expirations <= c.stats.misses
      && b.newKeys == |c.lru.order| + b.displaced + c.stats.expirations + b.cleared
      && c.stats.evictions == b.displaced + b.replacedWhenFull
  {
    hide EffectiveTtl, Expired, Aged, RemainingTtl, Lower;
    if ops != [] {
      Conservation(cfg, Init(ops));
      RunIsValid(cfg, Init(ops));
      var l := Run(cfg, Init(ops)).lru;
      if Last(ops).Put? && Displaced(l, KeyOf(Last(ops))).Some? {
        assert Displaced(l, KeyOf(Last(ops))).value in l.order;
      }
    }
  }
}
