/** The answer cache: a bounded recency-ordered map with expiry and counters.  Time is
    counted in nanosecond ticks of a monotone clock whose readings are arguments. */
module Cache {
  import opened Bytes
  import opened Records
  import opened Packets
  import opened Lru

  const TICKS: nat := 1_000_000_000
  const DEFAULT_TTL: u32 := 300
  const DEFAULT_CAPACITY: nat := 1024

  datatype Key = Key(name: Text, qtype: QueryType)

  datatype CachedResponse = CachedResponse(packet: Packet, qtype: QueryType, createdAt: nat, ttl: nat)

  datatype CacheStats = CacheStats(hits: nat, misses: nat, evictions: nat, expirations: nat)

  datatype Cache = Cache(lru: Lru<Key, CachedResponse>, minTtl: nat, maxTtl: nat, stats: CacheStats)

  function Elapsed(e: CachedResponse, now: nat): nat {
    if now >= e.createdAt then now - e.createdAt else 0
  }

  predicate Expired(e: CachedResponse, now: nat) {
    Elapsed(e, now) >= e.ttl
  }

  /** Whole seconds of a duration. */
  function AsSecs(d: nat): (s: nat)
    ensures s * TICKS <= d < s * TICKS + TICKS
  {
    d / TICKS
  }

  /** The cast `as u32`. */
  function Cut32(n: nat): (r: u32)
    ensures r <= n && (n < 0x1_0000_0000 ==> r == n)
  {
    if n < 0x1_0000_0000 then n else Cut32(n - 0x1_0000_0000)
  }

  function RemainingTtl(e: CachedResponse, now: nat): u32 {
    if Elapsed(e, now) >= e.ttl then 0 else Cut32(AsSecs(e.ttl - Elapsed(e, now)))
  }

  /** The smallest TTL among answers, if there are any. */
  function MinTtl(answers: seq<ResourceRecord>): Option<u32> {
    if answers == [] then None
    else
      match MinTtl(answers[1..])
      case None => Some(answers[0].ttl)
      case Some(m) => Some(if answers[0].ttl <= m then answers[0].ttl else m)
  }

  function Clamp(d: nat, lo: nat, hi: nat): nat
    requires lo <= hi
  {
    if d < lo then lo else if d > hi then hi else d
  }

  function RawTtl(p: Packet): u32 {
    match MinTtl(p.answers)
    case None => DEFAULT_TTL
    case Some(m) => m
  }

  function EffectiveTtl(p: Packet, lo: nat, hi: nat): nat
    requires lo <= hi
  {
    Clamp(RawTtl(p) * TICKS, lo, hi)
  }

  /** The packet with every answer's TTL replaced. */
  function Aged(p: Packet, ttl: u32): Packet {
    p.(answers := seq(|p.answers|, i requires 0 <= i < |p.answers| => p.answers[i].(ttl := ttl)))
  }

  ghost predicate Valid(c: Cache) {
    Sound(c.lru) && c.minTtl <= c.maxTtl
  }

  function New(capacity: nat, minSecs: nat, maxSecs: nat): Cache {
    Cache(Lru(if capacity == 0 then DEFAULT_CAPACITY else capacity, [], map[]),
          minSecs * TICKS, maxSecs * TICKS, CacheStats(0, 0, 0, 0))
  }

  /** A lookup at `checked` (the expiry check) whose remaining TTL is computed at `aged`. */
  function Get(c: Cache, domain: Text, qtype: QueryType, checked: nat, aged: nat): (Cache, Option<Packet>) {
    var key := Key(Lower(domain), qtype);
    if key !in c.lru.table then (c.(stats := c.stats.(misses := c.stats.misses + 1)), None)
    else
      var e := c.lru.table[key];
      if Expired(e, checked) then
        (c.(lru := Remove(c.lru, key),
            stats := c.stats.(misses := c.stats.misses + 1, expirations := c.stats.expirations + 1)), None)
      else
        (c.(lru := Touch(c.lru, key), stats := c.stats.(hits := c.stats.hits + 1)),
         Some(Aged(e.packet, RemainingTtl(e, aged))))
  }

  function Entry(c: Cache, qtype: QueryType, packet: Packet, now: nat): CachedResponse
    requires c.minTtl <= c.maxTtl
  {
    CachedResponse(packet, qtype, now, EffectiveTtl(packet, c.minTtl, c.maxTtl))
  }

  function Full(c: Cache): bool {
    |c.lru.order| == c.lru.cap
  }

  /** The eviction counter goes up whenever the map is full, also when a key is replaced. */
  function Insert(c: Cache, domain: Text, qtype: QueryType, packet: Packet, now: nat): Cache
    requires c.minTtl <= c.maxTtl
  {
    c.(lru := Store(c.lru, Key(Lower(domain), qtype), Entry(c, qtype, packet, now)),
       stats := if Full(c) then c.stats.(evictions := c.stats.evictions + 1) else c.stats)
  }

  function Clear(c: Cache): Cache {
    c.(lru := c.lru.(order := [], table := map[]))
  }

  lemma RemoveAfterTouch(l: Lru<Key, CachedResponse>, k: Key)
    requires Sound(l) && k in l.table
    ensures Remove(Touch(l, k), k) == Remove(l, k)
  {
    var rest := Without(l.order, k);
    assert ([k] + rest)[1..] == rest;
    WithoutAbsent(rest, k);
  }

  lemma {:induction false} WithoutAbsent(s: seq<Key>, k: Key)
    requires k !in s
    ensures Without(s, k) == s
  {
    if s != [] {
      assert s[0] in s && forall x | x in s[1..] :: x in s;
      WithoutAbsent(s[1..], k);
    }
  }

  /** A lookup hits exactly on an unexpired entry, and returns it aged. */
  lemma GetReturns(c: Cache, domain: Text, qtype: QueryType, checked: nat, aged: nat)
    ensures var r, k := Get(c, domain, qtype, checked, aged).1, Key(Lower(domain), qtype);
      && (r.Some? <==> k in c.lru.table && !Expired(c.lru.table[k], checked))
      && (r.Some? ==> r.value == Aged(c.lru.table[k].packet, RemainingTtl(c.lru.table[k], aged)))
  {
  }

  lemma GetIsValid(c: Cache, domain: Text, qtype: QueryType, checked: nat, aged: nat)
    requires Valid(c)
    ensures Valid(Get(c, domain, qtype, checked, aged).0)
  {
    TouchIsSound(c.lru, Key(Lower(domain), qtype));
    RemoveIsSound(c.lru, Key(Lower(domain), qtype));
  }

  lemma InsertIsValid(c: Cache, domain: Text, qtype: QueryType, packet: Packet, now: nat)
    requires Valid(c)
    ensures Valid(Insert(c, domain, qtype, packet, now))
  {
    StoreIsSound(c.lru, Key(Lower(domain), qtype), Entry(c, qtype, packet, now));
  }

  class DnsCache {
    const cache: LruCache<Key, CachedResponse>
    const minTtl: nat
    const maxTtl: nat
    var stats: CacheStats

    ghost function View(): Cache
      reads this, cache
    {
      Cache(cache.View(), minTtl, maxTtl, stats)
    }

    constructor (capacity: nat, minSecs: nat, maxSecs: nat)
      requires minSecs <= maxSecs
      ensures View() == New(capacity, minSecs, maxSecs) && Valid(View()) && fresh(cache)
    {
      cache := new LruCache(if capacity == 0 then DEFAULT_CAPACITY else capacity);
      minTtl := minSecs * TICKS;
      maxTtl := maxSecs * TICKS;
      stats := CacheStats(0, 0, 0, 0);
    }

    method Lookup(domain: Text, qtype: QueryType, checked: nat, aged: nat) returns (r: Option<Packet>)
      requires Valid(View())
      modifies this, cache
      ensures Valid(View()) && (View(), r) == Get(old(View()), domain, qtype, checked, aged)
    {
      GetIsValid(View(), domain, qtype, checked, aged);
      var key := Key(Lower(domain), qtype);
      ghost var before := cache.View();
      var found := cache.Get(key);
      if found.Some? {
        var entry := found.value;
        if Expired(entry, checked) {
          RemoveAfterTouch(before, key);
          cache.Pop(key);
          stats := stats.(expirations := stats.expirations + 1);
          stats := stats.(misses := stats.misses + 1);
          return None;
        }
        stats := stats.(hits := stats.hits + 1);
        var response := AgeAnswers(entry.packet, RemainingTtl(entry, aged));
        return Some(response);
      }
      stats := stats.(misses := stats.misses + 1);
      return None;
    }

    method Store(domain: Text, qtype: QueryType, packet: Packet, now: nat)
      requires Valid(View())
      modifies this, cache
      ensures Valid(View()) && View() == Insert(old(View()), domain, qtype, packet, now)
    {
      InsertIsValid(View(), domain, qtype, packet, now);
      var key := Key(Lower(domain), qtype);
      var entry := CachedResponse(packet, qtype, now, EffectiveTtl(packet, minTtl, maxTtl));
      if |cache.order| == cache.cap {
        stats := stats.(evictions := stats.evictions + 1);
      }
      cache.Put(key, entry);
    }

    method Empty()
      requires Valid(View())
      modifies this, cache
      ensures Valid(View()) && View() == Clear(old(View()))
    {
      cache.Clear();
    }
  }

  /** The loop over the answers of a hit. */
  method AgeAnswers(packet: Packet, ttl: u32) returns (response: Packet)
    ensures response == Aged(packet, ttl)
  {
    var answers := packet.answers;
    for i := 0 to |packet.answers|
      invariant |answers| == |packet.answers|
      invariant forall j | 0 <= j < i :: answers[j] == packet.answers[j].(ttl := ttl)
      invariant forall j | i <= j < |answers| :: answers[j] == packet.answers[j]
    {
      answers := answers[i := answers[i].(ttl := ttl)];
    }
    response := packet.(answers := answers);
    assert response.answers == Aged(packet, ttl).answers;
  }
}
