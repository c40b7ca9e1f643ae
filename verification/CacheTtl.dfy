/** The arithmetic of time to live: what a stored answer promises and what a hit serves. */
module CacheTtl {
  import opened Records
  import opened Packets
  import opened Cache

  lemma {:induction false} MinTtlIsLeast(answers: seq<ResourceRecord>)
    ensures answers == [] <==> MinTtl(answers).None?
    ensures forall i | 0 <= i < |answers| :: MinTtl(answers).value <= answers[i].ttl
    ensures answers != [] ==> exists i | 0 <= i < |answers| :: answers[i].ttl == MinTtl(answers).value
  {
    if answers != [] {
      var rest := answers[1..];
      MinTtlIsLeast(rest);
      assert forall i | 1 <= i < |answers| :: answers[i] == rest[i - 1];
      if rest != [] && answers[0].ttl > MinTtl(rest).value {
        var j :| 0 <= j < |rest| && rest[j].ttl == MinTtl(rest).value;
        assert answers[j + 1].ttl == MinTtl(answers).value;
      } else {
        assert answers[0].ttl == MinTtl(answers).value;
      }
    }
  }

  lemma SecsOfWhole(n: nat)
    ensures AsSecs(n * TICKS) == n
  {
  }

  lemma SecsMonotone(a: nat, b: nat)
    requires a <= b
    ensures AsSecs(a) <= AsSecs(b)
  {
  }

  /** The effective TTL lies between the configured bounds, and is the smallest answer
      TTL whenever that lies between them. */
  lemma EffectiveTtlBounds(p: Packet, lo: nat, hi: nat)
    requires lo <= hi
    ensures lo <= EffectiveTtl(p, lo, hi) <= hi
    ensures lo <= RawTtl(p) * TICKS <= hi ==> EffectiveTtl(p, lo, hi) == RawTtl(p) * TICKS
  {
  }

  function Distance(a: nat, b: nat): nat {
    if a <= b then b - a else a - b
  }

  /** Of all lives within the bounds, the effective one is the nearest to what the answers ask
      for, and the only one so near. */
  lemma EffectiveTtlIsNearest(p: Packet, lo: nat, hi: nat, x: nat)
    requires lo <= x <= hi
    ensures var asked, life := RawTtl(p) * TICKS, EffectiveTtl(p, lo, hi);
      x != life ==> Distance(life, asked) < Distance(x, asked)
  {
  }

  /** It grows with what the answers ask for and with both bounds. */
  lemma EffectiveTtlIsMonotone(p: Packet, lo: nat, hi: nat, p': Packet, lo': nat, hi': nat)
    requires lo <= hi && lo' <= hi' && lo <= lo' && hi <= hi' && RawTtl(p) <= RawTtl(p')
    ensures EffectiveTtl(p, lo, hi) <= EffectiveTtl(p', lo', hi')
  {
  }

  /** The smallest answer TTL is asked for, and five minutes if there is no answer; a second is
      10^9 ticks. */
  lemma AskedTtl(p: Packet)
    ensures p.answers == [] ==> RawTtl(p) * TICKS == 300_000_000_000
    ensures p.answers != [] ==>
              && (forall i | 0 <= i < |p.answers| :: RawTtl(p) <= p.answers[i].ttl)
              && exists i | 0 <= i < |p.answers| :: p.answers[i].ttl == RawTtl(p)
  {
    MinTtlIsLeast(p.answers);
  }

  lemma {:induction false} Cut32IsRemainder(n: nat)
    ensures Cut32(n) == n % 0x1_0000_0000
  {
    if n >= 0x1_0000_0000 {
      Cut32IsRemainder(n - 0x1_0000_0000);
    }
  }

  /** An entry is alive until its life has passed since it was created; an entry without life
      never is. */
  lemma AliveExactly(e: CachedResponse, now: nat)
    ensures !Expired(e, now) <==> e.ttl > 0 && now < e.createdAt + e.ttl
  {
  }

  /** A served TTL never outlives the entry: counted from the expiry check, it ends no
      later than the entry does. */
  lemma ServedTtlEndsInTime(e: CachedResponse, checked: nat, aged: nat)
    requires e.createdAt <= checked <= aged && !Expired(e, checked)
    ensures checked + RemainingTtl(e, aged) * TICKS <= e.createdAt + e.ttl
    ensures aged < e.createdAt + e.ttl ==> aged + RemainingTtl(e, aged) * TICKS <= e.createdAt + e.ttl
  {
  }

  /** The cast is harmless, at every moment, exactly when the entry's life is under 2^32 seconds. */
  lemma CastIsExact(e: CachedResponse)
    ensures AsSecs(e.ttl) < 0x1_0000_0000
       <==> forall now: nat :: !Expired(e, now) ==> RemainingTtl(e, now) == AsSecs(e.ttl - Elapsed(e, now))
  {
    if AsSecs(e.ttl) < 0x1_0000_0000 {
      forall now: nat | !Expired(e, now)
        ensures RemainingTtl(e, now) == AsSecs(e.ttl - Elapsed(e, now))
      {
        SecsMonotone(e.ttl - Elapsed(e, now), e.ttl);
      }
    } else {
      assert !Expired(e, e.createdAt) && RemainingTtl(e, e.createdAt) < 0x1_0000_0000;
    }
  }

  /** Of two hits on one entry, the later one, `d` ticks on, serves a TTL smaller by at
      least the whole seconds of `d`, down to zero. */
  lemma ServedTtlFalls(e: CachedResponse, first: nat, d: nat)
    requires e.createdAt <= first && AsSecs(e.ttl) < 0x1_0000_0000
    ensures RemainingTtl(e, first + d) == 0 || RemainingTtl(e, first + d) + AsSecs(d) <= RemainingTtl(e, first)
  {
    var left := e.createdAt + e.ttl - first;
    if left > d {
      SecsMonotone(left - d, e.ttl);
      SecsMonotone(left, e.ttl);
      SecsAdd(left - d, d);
    }
  }

  lemma SecsAdd(a: nat, b: nat)
    ensures AsSecs(a) + AsSecs(b) <= AsSecs(a + b)
  {
  }

  /** Hits never raise an answer's TTL, whenever they come, exactly when no stored answer
      has a TTL below the configured minimum, or has the greatest TTL there is. */
  lemma NeverRaisesExactly(p: Packet, qtype: QueryType, minSecs: nat, maxSecs: nat, created: nat)
    requires minSecs <= maxSecs
    ensures var e := CachedResponse(p, qtype, created, EffectiveTtl(p, minSecs * TICKS, maxSecs * TICKS));
      (forall i | 0 <= i < |p.answers| :: minSecs <= p.answers[i].ttl || p.answers[i].ttl == MAX_U32)
      <==> forall now: nat, i | created <= now && 0 <= i < |p.answers| && !Expired(e, now) ::
             Aged(p, RemainingTtl(e, now)).answers[i].ttl <= p.answers[i].ttl
  {
    var e := CachedResponse(p, qtype, created, EffectiveTtl(p, minSecs * TICKS, maxSecs * TICKS));
    if p.answers != [] {
      MinTtlIsLeast(p.answers);
      var least :| 0 <= least < |p.answers| && p.answers[least].ttl == RawTtl(p);
      if minSecs <= RawTtl(p) {
        assert e.ttl <= RawTtl(p) * TICKS;
        forall now: nat, i | created <= now && 0 <= i < |p.answers| && !Expired(e, now)
          ensures Aged(p, RemainingTtl(e, now)).answers[i].ttl <= p.answers[i].ttl
        {
          ServedAtMost(e, now, RawTtl(p));
        }
      } else if RawTtl(p) < MAX_U32 {
        var now := ServedAtFirst(e, minSecs);
        assert Aged(p, RemainingTtl(e, now)).answers[least].ttl > p.answers[least].ttl;
      }
    }
  }

  const MAX_U32: nat := 0xFFFF_FFFF

  /** At some moment a life of `secs` seconds serves all of them, or as many as the cast can keep. */
  lemma ServedAtFirst(e: CachedResponse, secs: nat) returns (now: nat)
    requires e.ttl == secs * TICKS && secs > 0
    ensures e.createdAt <= now && !Expired(e, now)
    ensures RemainingTtl(e, now) == if secs <= MAX_U32 then secs else MAX_U32
  {
    var left := if secs <= MAX_U32 then secs else MAX_U32;
    now := e.createdAt + (e.ttl - left * TICKS);
    SecsOfWhole(left);
  }

  lemma ServedAtMost(e: CachedResponse, now: nat, secs: nat)
    requires e.ttl <= secs * TICKS
    ensures RemainingTtl(e, now) <= secs
  {
    if !Expired(e, now) {
      SecsMonotone(e.ttl - Elapsed(e, now), secs * TICKS);
      SecsOfWhole(secs);
    }
  }
}
