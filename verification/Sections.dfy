/** Counted sections: entries written one after another, and the counting loop that
    reads them back, for any kind of entry. */
module Sections {
  import opened Bytes
  import opened Wire

  function EncodeAll<T>(xs: seq<T>, encode: T -> seq<byte>): seq<byte> {
    if xs == [] then [] else encode(xs[0]) + EncodeAll(xs[1..], encode)
  }

  /** The counting loop: `n` more entries from `pos`, after those in `acc`. */
  function ParseAll<T>(data: seq<byte>, pos: nat, n: nat, parse: (seq<byte>, nat) -> Parsed<T>, acc: seq<T>)
    : Parsed<seq<T>>
    decreases n
  {
    if n == 0 then Done(acc, pos)
    else
      var (x, next) :- parse(data, pos);
      ParseAll(data, next, n - 1, parse, acc + [x])
  }

  predicate All<T>(xs: seq<T>, p: T -> bool) {
    xs == [] || (p(xs[0]) && All(xs[1..], p))
  }

  /** If every good entry is read back where it was written, so is every list of them. */
  lemma {:induction false} GoodListIsRead<T(!new)>(
    data: seq<byte>, pos: nat, xs: seq<T>, acc: seq<T>,
    encode: T -> seq<byte>, parse: (seq<byte>, nat) -> Parsed<T>, good: T -> bool)
    requires forall x, p: nat | good(x) && At(data, p, encode(x)) :: parse(data, p) == Done(x, p + |encode(x)|)
    requires All(xs, good) && At(data, pos, EncodeAll(xs, encode))
    ensures ParseAll(data, pos, |xs|, parse, acc) == Done(acc + xs, pos + |EncodeAll(xs, encode)|)
    decreases |xs|
  {
    if xs == [] {
      assert acc + xs == acc;
    } else {
      var x := xs[0];
      AtSplit(data, pos, encode(x), EncodeAll(xs[1..], encode));
      GoodListIsRead(data, pos + |encode(x)|, xs[1..], acc + [x], encode, parse, good);
      assert acc + [x] + xs[1..] == acc + xs;
    }
  }

  lemma {:induction false} ListOnlyGrows<T>(
    data: seq<byte>, pos: nat, n: nat, parse: (seq<byte>, nat) -> Parsed<T>, acc: seq<T>)
    requires ParseAll(data, pos, n, parse, acc).Done?
    ensures acc <= ParseAll(data, pos, n, parse, acc).value
    decreases n
  {
    if n > 0 {
      var x := parse(data, pos);
      ListOnlyGrows(data, x.next, n - 1, parse, acc + [x.value]);
    }
  }

  /** The first entry of a list that was read back is the entry that was written. */
  lemma FirstIsKept<T>(
    data: seq<byte>, pos: nat, xs: seq<T>, acc: seq<T>, parse: (seq<byte>, nat) -> Parsed<T>)
    requires xs != [] && ParseAll(data, pos, |xs|, parse, acc).Done?
    requires ParseAll(data, pos, |xs|, parse, acc).value == acc + xs
    ensures parse(data, pos).Done? && parse(data, pos).value == xs[0]
    ensures ParseAll(data, pos, |xs|, parse, acc)
         == ParseAll(data, parse(data, pos).next, |xs| - 1, parse, acc + [xs[0]])
  {
    var x := parse(data, pos);
    ListOnlyGrows(data, x.next, |xs| - 1, parse, acc + [x.value]);
    assert (acc + [x.value])[|acc|] == (acc + xs)[|acc|];
  }

  /** If only good entries are read back where they were written, only lists of good
      entries are. */
  lemma {:induction false} OnlyGoodListSurvives<T(!new)>(
    data: seq<byte>, pos: nat, xs: seq<T>, acc: seq<T>,
    encode: T -> seq<byte>, parse: (seq<byte>, nat) -> Parsed<T>, good: T -> bool)
    requires forall x, p: nat | At(data, p, encode(x)) && parse(data, p).Done? && parse(data, p).value == x ::
               good(x) && parse(data, p).next == p + |encode(x)|
    requires At(data, pos, EncodeAll(xs, encode)) && ParseAll(data, pos, |xs|, parse, acc).Done?
    requires ParseAll(data, pos, |xs|, parse, acc).value == acc + xs
    ensures All(xs, good)
    decreases |xs|
  {
    if xs != [] {
      FirstIsKept(data, pos, xs, acc, parse);
      AtSplit(data, pos, encode(xs[0]), EncodeAll(xs[1..], encode));
      assert acc + [xs[0]] + xs[1..] == acc + xs;
      OnlyGoodListSurvives(data, pos + |encode(xs[0])|, xs[1..], acc + [xs[0]], encode, parse, good);
    }
  }

  // ----- Aborts -----

  /** Where entry `k` of the entries from `pos` on starts, if those before it can be read. */
  function StartOf<T>(data: seq<byte>, pos: nat, k: nat, parse: (seq<byte>, nat) -> Parsed<T>): Option<nat>
    decreases k
  {
    if k == 0 then Some(pos)
    else
      match parse(data, pos)
      case Done(_, next) => StartOf(data, next, k - 1, parse)
      case _ => None
  }

  /** Entry `k` from `pos` on is reached and aborts. */
  predicate AbortsAt<T>(data: seq<byte>, pos: nat, k: nat, parse: (seq<byte>, nat) -> Parsed<T>) {
    StartOf(data, pos, k, parse).Some? && parse(data, StartOf(data, pos, k, parse).value).Abort?
  }

  /** The counting loop gets through exactly when each next entry can be read. */
  lemma {:induction false} ListEnd<T>(
    data: seq<byte>, pos: nat, n: nat, parse: (seq<byte>, nat) -> Parsed<T>, acc: seq<T>)
    ensures var r := ParseAll(data, pos, n, parse, acc);
      StartOf(data, pos, n, parse) == if r.Done? then Some(r.next) else None
    decreases n
  {
    if n > 0 {
      match parse(data, pos)
      case Done(x, next) => ListEnd(data, next, n - 1, parse, acc + [x]);
      case _ =>
    }
  }

  /** The counting loop aborts exactly when one of its entries is reached and aborts. */
  lemma {:induction false} ListAbortsExactly<T(!new)>(
    data: seq<byte>, pos: nat, n: nat, parse: (seq<byte>, nat) -> Parsed<T>, acc: seq<T>)
    ensures ParseAll(data, pos, n, parse, acc).Abort? <==> exists k: nat | k < n :: AbortsAt(data, pos, k, parse)
    decreases n
  {
    if n > 0 {
      match parse(data, pos)
      case Done(x, next) =>
        ListAbortsExactly(data, next, n - 1, parse, acc + [x]);
        forall k: nat | k < n - 1 ensures AbortsAt(data, pos, k + 1, parse) == AbortsAt(data, next, k, parse) {
        }
        if k: nat :| k < n - 1 && AbortsAt(data, next, k, parse) {
          assert AbortsAt(data, pos, k + 1, parse);
        }
        if k: nat :| k < n && AbortsAt(data, pos, k, parse) {
          assert AbortsAt(data, next, k - 1, parse);
        }
      case Fail(_) =>
      case Abort => assert AbortsAt(data, pos, 0, parse);
    }
  }

  /** Entries after the first `n` are the entries from where those end. */
  lemma {:induction false} StartAfter<T>(
    data: seq<byte>, pos: nat, n: nat, k: nat, parse: (seq<byte>, nat) -> Parsed<T>)
    ensures StartOf(data, pos, n + k, parse)
         == match StartOf(data, pos, n, parse)
            case None => None
            case Some(p) => StartOf(data, p, k, parse)
    decreases n
  {
    if n > 0 {
      match parse(data, pos)
      case Done(_, next) => StartAfter(data, next, n - 1, k, parse);
      case _ =>
    }
  }

  lemma AbortsBeyond<T>(data: seq<byte>, pos: nat, n: nat, k: nat, parse: (seq<byte>, nat) -> Parsed<T>)
    ensures AbortsAt(data, pos, n + k, parse)
       <==> StartOf(data, pos, n, parse).Some? && AbortsAt(data, StartOf(data, pos, n, parse).value, k, parse)
  {
    hide StartOf;
    StartAfter(data, pos, n, k, parse);
  }

  /** Two sections of one kind of entry, one behind the other, abort as one section would. */
  lemma JoinedAborts<T(!new)>(data: seq<byte>, pos: nat, n: nat, m: nat, parse: (seq<byte>, nat) -> Parsed<T>)
    ensures (exists k: nat | k < n + m :: AbortsAt(data, pos, k, parse))
       <==> || (exists k: nat | k < n :: AbortsAt(data, pos, k, parse))
            || (StartOf(data, pos, n, parse).Some?
                && exists k: nat | k < m :: AbortsAt(data, StartOf(data, pos, n, parse).value, k, parse))
  {
    hide StartOf, AbortsAt;
    if k: nat :| k < n + m && AbortsAt(data, pos, k, parse) {
      if k >= n {
        AbortsBeyond(data, pos, n, k - n, parse);
      }
    }
    if StartOf(data, pos, n, parse).Some? {
      var p := StartOf(data, pos, n, parse).value;
      if k: nat :| k < m && AbortsAt(data, p, k, parse) {
        AbortsBeyond(data, pos, n, k, parse);
      }
    }
  }

  lemma {:induction false} ParsedLength<T>(
    data: seq<byte>, pos: nat, n: nat, parse: (seq<byte>, nat) -> Parsed<T>, acc: seq<T>)
    requires ParseAll(data, pos, n, parse, acc).Done?
    ensures |ParseAll(data, pos, n, parse, acc).value| == |acc| + n
    decreases n
  {
    if n > 0 {
      var x := parse(data, pos);
      ParsedLength(data, x.next, n - 1, parse, acc + [x.value]);
    }
  }

  /** Entry `k` of a list that was read is the entry that starts where those before it end. */
  lemma {:induction false} EntryIsRead<T>(
    data: seq<byte>, pos: nat, n: nat, parse: (seq<byte>, nat) -> Parsed<T>, acc: seq<T>, k: nat)
    requires ParseAll(data, pos, n, parse, acc).Done? && k < n
    ensures var r := ParseAll(data, pos, n, parse, acc);
      && |r.value| == |acc| + n && StartOf(data, pos, k, parse).Some?
      && parse(data, StartOf(data, pos, k, parse).value).Done?
      && r.value[|acc| + k] == parse(data, StartOf(data, pos, k, parse).value).value
    decreases n
  {
    var x := parse(data, pos);
    ParsedLength(data, pos, n, parse, acc);
    if k == 0 {
      ListOnlyGrows(data, x.next, n - 1, parse, acc + [x.value]);
      assert (acc + [x.value])[|acc|] == x.value;
    } else {
      EntryIsRead(data, x.next, n - 1, parse, acc + [x.value], k - 1);
    }
  }

  lemma {:induction false} AllSnoc<T>(xs: seq<T>, x: T, p: T -> bool)
    requires All(xs, p) && p(x)
    ensures All(xs + [x], p)
  {
    if xs == [] {
      assert (xs + [x])[1..] == [];
    } else {
      AllSnoc(xs[1..], x, p);
      assert (xs + [x])[1..] == xs[1..] + [x];
    }
  }

  lemma {:induction false} AllFront<T>(xs: seq<T>, ys: seq<T>, p: T -> bool)
    requires All(xs + ys, p)
    ensures All(xs, p)
  {
    if xs != [] {
      assert (xs + ys)[0] == xs[0] && (xs + ys)[1..] == xs[1..] + ys;
      AllFront(xs[1..], ys, p);
    }
  }

  lemma {:induction false} EncodeAllConcat<T>(xs: seq<T>, ys: seq<T>, encode: T -> seq<byte>)
    ensures EncodeAll(xs + ys, encode) == EncodeAll(xs, encode) + EncodeAll(ys, encode)
  {
    if xs == [] {
      assert xs + ys == ys;
    } else {
      assert (xs + ys)[0] == xs[0] && (xs + ys)[1..] == xs[1..] + ys;
      EncodeAllConcat(xs[1..], ys, encode);
    }
  }

  lemma {:induction false} AllSame<T(!new)>(xs: seq<T>, same: T -> bool, p: T -> bool, q: T -> bool)
    requires forall x | same(x) :: p(x) == q(x)
    requires All(xs, same)
    ensures All(xs, p) <==> All(xs, q)
  {
    if xs != [] {
      AllSame(xs[1..], same, p, q);
    }
  }

  /** What every parsed entry has, every entry of a parsed list has. */
  lemma {:induction false} ParsedAll<T(!new)>(
    data: seq<byte>, pos: nat, n: nat, parse: (seq<byte>, nat) -> Parsed<T>, acc: seq<T>, p: T -> bool)
    requires forall at: nat :: parse(data, at).Done? ==> p(parse(data, at).value)
    requires All(acc, p) && ParseAll(data, pos, n, parse, acc).Done?
    ensures All(ParseAll(data, pos, n, parse, acc).value, p)
    decreases n
  {
    if n > 0 {
      var x := parse(data, pos);
      AllSnoc(acc, x.value, p);
      ParsedAll(data, x.next, n - 1, parse, acc + [x.value], p);
    }
  }
}
