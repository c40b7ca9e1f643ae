/** What a compressed name means: the walk through a message that section 4.1.4
    of RFC 1035 describes, and that the reading loop follows it exactly. */
module NameWalks {
  import opened Bytes
  import opened Wire
  import opened Names
  import Utf8

  /** Where a walk goes from offset `p`: past a label that lies inside the message, or to
      the offset in the fourteen low bits of a complete pointer. */
  function Hop(data: seq<byte>, p: nat): Option<nat> {
    if p >= |data| || data[p] == 0 then None
    else if data[p] >= 192 then
      if p + 1 < |data| then Some(U16At(data, p) - 0xC000) else None
    else
      var end := p + 1 + data[p];
      if end <= |data| && Utf8.Valid(data[p + 1..end]) then Some(end) else None
  }

  ghost predicate Walk(data: seq<byte>, ps: seq<nat>) {
    ps != [] && (|ps| > 1 ==> Hop(data, ps[0]) == Some(ps[1]) && Walk(data, ps[1..]))
  }

  function Last(ps: seq<nat>): nat
    requires ps != []
  {
    ps[|ps| - 1]
  }

  /** The number of pointers a walk follows. */
  ghost function Jumps(data: seq<byte>, ps: seq<nat>): nat
    requires Walk(data, ps)
  {
    if |ps| == 1 then 0
    else (if data[ps[0]] > MAX_LABEL then 1 else 0) + Jumps(data, ps[1..])
  }

  /** The labels a walk passes, lower-cased, in order. */
  ghost function Labels(data: seq<byte>, ps: seq<nat>): seq<Text>
    requires Walk(data, ps)
  {
    if |ps| == 1 then []
    else (if data[ps[0]] > MAX_LABEL then [] else [Lower(data[ps[0] + 1..ps[1]])]) + Labels(data, ps[1..])
  }

  /** A walk with one more hop in front. */
  lemma WalkCons(data: seq<byte>, p: nat, rest: seq<nat>)
    requires Walk(data, rest) && Hop(data, p) == Some(rest[0])
    ensures var ps := [p] + rest;
      && Walk(data, ps) && Last(ps) == Last(rest)
      && Jumps(data, ps) == (if data[p] > MAX_LABEL then 1 else 0) + Jumps(data, rest)
      && Labels(data, ps) == (if data[p] > MAX_LABEL then [] else [Lower(data[p + 1..rest[0]])]) + Labels(data, rest)
  {
    assert ([p] + rest)[1..] == rest;
  }

  /** A walk that spells a name: it ends on a zero octet and follows at most 50 pointers. */
  ghost predicate Spells(data: seq<byte>, start: nat, ps: seq<nat>) {
    && Walk(data, ps) && ps[0] == start
    && Last(ps) < |data| && data[Last(ps)] == 0
    && Jumps(data, ps) <= 50
  }

  /** Labels glued to `acc` one after another, as the loop does it. */
  function Gather(acc: Text, labels: seq<Text>): Text
    decreases |labels|
  {
    if labels == [] then acc else Gather(Glue(acc, labels[0]), labels[1..])
  }

  predicate NonEmpty(labels: seq<Text>) {
    labels == [] || (labels[0] != [] && NonEmpty(labels[1..]))
  }

  lemma {:induction false} GatherIsJoin(acc: Text, labels: seq<Text>)
    requires NonEmpty(labels)
    ensures Gather(acc, labels) == if labels == [] then acc else Glue(acc, Join(labels))
    decreases |labels|
  {
    if labels != [] {
      GatherIsJoin(Glue(acc, labels[0]), labels[1..]);
      if |labels| > 1 {
        assert Glue(Glue(acc, labels[0]), Join(labels[1..])) == Glue(acc, Join(labels));
      }
    }
  }

  lemma {:induction false} LabelsNonEmpty(data: seq<byte>, ps: seq<nat>)
    requires Walk(data, ps)
    ensures NonEmpty(Labels(data, ps))
  {
    if |ps| > 1 {
      LabelsNonEmpty(data, ps[1..]);
      var rest := Labels(data, ps[1..]);
      assert Labels(data, ps) == rest || (Labels(data, ps)[0] != [] && Labels(data, ps)[1..] == rest);
    }
  }

  /** One iteration of the loop takes one hop. */
  lemma LoopHop(data: seq<byte>, p: nat, jumps: nat, acc: Text)
    requires jumps <= MAX_JUMPS && Hop(data, p).Some?
    ensures NameFrom(data, p, jumps, acc)
         == if data[p] > MAX_LABEL then NameFrom(data, Hop(data, p).value, jumps + 1, acc)
            else NameFrom(data, Hop(data, p).value, jumps, Glue(acc, Lower(data[p + 1..Hop(data, p).value])))
  {
  }

  /** The loop started at the beginning of a walk gets to its end. */
  lemma {:induction false} LoopFollowsWalk(data: seq<byte>, ps: seq<nat>, jumps: nat, acc: Text)
    requires Walk(data, ps) && jumps + Jumps(data, ps) <= MAX_JUMPS + 1
    ensures NameFrom(data, ps[0], jumps, acc)
         == NameFrom(data, Last(ps), jumps + Jumps(data, ps), Gather(acc, Labels(data, ps)))
  {
    if |ps| == 1 {
    } else if jumps > MAX_JUMPS {
    } else {
      var rest := ps[1..];
      assert Last(rest) == Last(ps);
      LoopHop(data, ps[0], jumps, acc);
      if data[ps[0]] > MAX_LABEL {
        assert Labels(data, ps) == Labels(data, rest);
        LoopFollowsWalk(data, rest, jumps + 1, acc);
      } else {
        var first := Lower(data[ps[0] + 1..ps[1]]);
        assert Labels(data, ps)[0] == first && Labels(data, ps)[1..] == Labels(data, rest);
        LoopFollowsWalk(data, rest, jumps, Glue(acc, first));
      }
    }
  }

  /** Every run of the loop follows a walk until it has used 51 pointers or no hop is left. */
  lemma {:induction false} WalkOfLoop(data: seq<byte>, pos: nat, jumps: nat) returns (ps: seq<nat>)
    requires jumps <= MAX_JUMPS + 1
    ensures Walk(data, ps) && ps[0] == pos && jumps + Jumps(data, ps) <= MAX_JUMPS + 1
    ensures jumps + Jumps(data, ps) == MAX_JUMPS + 1 || Hop(data, Last(ps)).None?
    decreases MAX_JUMPS + 1 - jumps, |data| - pos
  {
    if jumps > MAX_JUMPS || Hop(data, pos).None? {
      ps := [pos];
    } else {
      var pointer := data[pos] > MAX_LABEL;
      var rest := WalkOfLoop(data, Hop(data, pos).value, if pointer then jumps + 1 else jumps);
      ps := [pos] + rest;
      WalkCons(data, pos, rest);
    }
  }

  /** A spelled name is what the loop returns, with the cursor after its zero octet. */
  lemma SpelledNameIsRead(data: seq<byte>, start: nat, ps: seq<nat>)
    requires Spells(data, start, ps)
    ensures ReadName(data, start) == Done(Join(Labels(data, ps)), Last(ps) + 1)
  {
    LoopFollowsWalk(data, ps, 0, []);
    LabelsNonEmpty(data, ps);
    GatherIsJoin([], Labels(data, ps));
    assert Glue([], Join(Labels(data, ps))) == Join(Labels(data, ps));
  }

  /** Main result on reading: success means exactly that some walk spells a name,
      and the loop error means exactly that 51 pointers can be followed. */
  lemma ReadNameExact(data: seq<byte>, start: nat)
    ensures ReadName(data, start).Done? <==> exists ps :: Spells(data, start, ps)
    ensures ReadName(data, start) == Fail(InvalidDomainName(PointerLoop))
       <==> exists ps :: Walk(data, ps) && ps[0] == start && Jumps(data, ps) == 51
  {
    var ps := WalkOfLoop(data, start, 0);
    LoopFollowsWalk(data, ps, 0, []);
    if ReadName(data, start).Done? {
      assert Spells(data, start, ps);
    }
    forall qs | Spells(data, start, qs) ensures ReadName(data, start).Done? {
      SpelledNameIsRead(data, start, qs);
    }
    forall qs | Walk(data, qs) && qs[0] == start && Jumps(data, qs) == MAX_JUMPS + 1
      ensures ReadName(data, start) == Fail(InvalidDomainName(PointerLoop))
    {
      LoopFollowsWalk(data, qs, 0, []);
    }
  }

  /** Why a walk cannot go on from `p`, where no name ends. */
  function DeadEnd(data: seq<byte>, p: nat): DnsError {
    if p >= |data| then BufferTooShort(NameEnd)
    else if data[p] >= 192 then BufferTooShort(PointerOctet)
    else if p + 1 + data[p] > |data| then BufferTooShort(LabelOctets)
    else InvalidDomainName(LabelNotUtf8)
  }

  /** A walk of at most 50 pointers that can neither go on nor end is the error of the place
      where it stands. */
  lemma DeadEndIsError(data: seq<byte>, start: nat, ps: seq<nat>)
    requires Walk(data, ps) && ps[0] == start && Jumps(data, ps) <= 50 && Hop(data, Last(ps)).None?
    requires Last(ps) < |data| ==> data[Last(ps)] != 0
    ensures ReadName(data, start) == Fail(DeadEnd(data, Last(ps)))
  {
    LoopFollowsWalk(data, ps, 0, []);
  }

  lemma {:induction false} WalkFrom(data: seq<byte>, ps: seq<nat>, i: nat)
    requires Walk(data, ps) && i < |ps|
    ensures Walk(data, ps[i..])
  {
    if i > 0 {
      WalkFrom(data, ps[1..], i - 1);
      assert ps[1..][i - 1..] == ps[i..];
    }
  }

  /** Two walks from one place: neither gets past the other's dead end. */
  lemma {:induction false} WalksAgree(data: seq<byte>, ps: seq<nat>, qs: seq<nat>)
    requires Walk(data, ps) && Walk(data, qs) && ps[0] == qs[0]
    requires Hop(data, Last(qs)).None?
    ensures ps <= qs
  {
    if |ps| > 1 {
      assert |qs| > 1;
      WalksAgree(data, ps[1..], qs[1..]);
      assert ps == [ps[0]] + ps[1..] && qs == [qs[0]] + qs[1..];
    }
  }

  /** A walk that comes back to a place it has been always ends in the loop error. */
  lemma RevisitIsLoopError(data: seq<byte>, ps: seq<nat>, i: nat, j: nat)
    requires Walk(data, ps) && i < j < |ps| && ps[i] == ps[j]
    ensures ReadName(data, ps[0]) == Fail(InvalidDomainName(PointerLoop))
  {
    var qs := WalkOfLoop(data, ps[0], 0);
    if Hop(data, Last(qs)).None? {
      WalksAgree(data, ps, qs);
      WalkFrom(data, qs, i);
      WalkFrom(data, qs, j);
      WalksAgree(data, qs[i..], qs[j..]);
      assert false;
    }
    ReadNameExact(data, ps[0]);
  }

  /** `n` times `d`. */
  function Times(n: nat, d: nat): nat {
    if n == 0 then 0 else d + Times(n - 1, d)
  }

  lemma {:induction false} NameLengthFrom(data: seq<byte>, pos: nat, jumps: nat, acc: Text)
    requires jumps <= MAX_JUMPS && pos <= |data|
    requires NameFrom(data, pos, jumps, acc).Done?
    ensures |NameFrom(data, pos, jumps, acc).value| <= |acc| + |data| - pos + Times(MAX_JUMPS - jumps, |data|)
    decreases MAX_JUMPS + 1 - jumps, |data| - pos
  {
    if Hop(data, pos).Some? {
      var next := Hop(data, pos).value;
      LoopHop(data, pos, jumps, acc);
      if data[pos] > MAX_LABEL {
        assert jumps < MAX_JUMPS && next < |data|;
        NameLengthFrom(data, next, jumps + 1, acc);
      } else {
        NameLengthFrom(data, next, jumps, Glue(acc, Lower(data[pos + 1..next])));
      }
    }
  }

  /** An accepted name is at most 51 times as long as the message. */
  lemma NameLength(data: seq<byte>, start: nat)
    requires ReadName(data, start).Done?
    ensures |ReadName(data, start).value| <= (MAX_JUMPS + 1) * |data|
  {
    NameLengthFrom(data, start, 0, []);
    TimesIsProduct(MAX_JUMPS, |data|);
  }

  lemma {:induction false} TimesIsProduct(n: nat, d: nat)
    ensures Times(n, d) == n * d
  {
    if n > 0 {
      TimesIsProduct(n - 1, d);
      assert n * d == d + (n - 1) * d;
    }
  }
}
