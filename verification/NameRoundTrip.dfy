/** Names written and read back: which names survive in which message, and that what is
    written delimits itself whatever stands around it. */
module NameRoundTrip {
  import opened Bytes
  import opened Wire
  import opened Names
  import NameWalks
  import Utf8

  /** The names that can be read back: no empty inner label, no label over 191
      octets, every label a valid string. */
  predicate GoodLabel(l: Text) {
    1 <= |l| <= MAX_LABEL && Utf8.Valid(l)
  }

  predicate GoodLabels(labels: seq<Text>) {
    labels == [] || (GoodLabel(labels[0]) && GoodLabels(labels[1..]))
  }

  predicate GoodName(n: Text) {
    GoodLabels(NameLabels(n))
  }

  function LowerAll(labels: seq<Text>): seq<Text> {
    if labels == [] then [] else [Lower(labels[0])] + LowerAll(labels[1..])
  }

  lemma {:induction false} JoinSplit(s: Text)
    ensures Join(Split(s)) == s
  {
    hide IndexOf;
    var i := IndexOf(s, DOT);
    if i < |s| {
      var rest := s[i + 1..];
      JoinSplit(rest);
      assert Split(s)[1..] == Split(rest);
      assert s == s[..i] + [DOT] + rest;
    }
  }

  lemma {:induction false} JoinLowerAll(labels: seq<Text>)
    ensures Join(LowerAll(labels)) == Lower(Join(labels))
  {
    if |labels| > 1 {
      JoinLowerAll(labels[1..]);
      assert LowerAll(labels)[1..] == LowerAll(labels[1..]);
      LowerConcat(labels[0] + [DOT], Join(labels[1..]));
      LowerConcat(labels[0], [DOT]);
      assert Lower([DOT]) == [DOT];
    } else if |labels| == 1 {
      assert LowerAll(labels) == [Lower(labels[0])];
    }
  }

  lemma {:induction false} SplitAtDot(a: Text, b: Text)
    ensures Split(a + [DOT] + b) == Split(a) + Split(b)
  {
    hide IndexOf;
    var s := a + [DOT] + b;
    var i := IndexOf(a, DOT);
    IndexOfBeforeConcat(a, DOT, b);
    if i == |a| {
      assert s[..i] == a;
      assert s[i + 1..] == b;
      assert Split(s) == [a] + Split(b);
    } else {
      var rest := a[i + 1..];
      assert s[..i] == a[..i];
      assert s[i + 1..] == rest + [DOT] + b;
      SplitAtDot(rest, b);
      calc {
        Split(s);
        [s[..i]] + Split(s[i + 1..]);
        [a[..i]] + (Split(rest) + Split(b));
        ([a[..i]] + Split(rest)) + Split(b);
        Split(a) + Split(b);
      }
    }
  }

  /** The parts of an encoded label list that a message holds. */
  lemma AtLabels(data: seq<byte>, pos: nat, labels: seq<Text>)
    requires labels != [] && At(data, pos, EncodeLabels(labels))
    ensures At(data, pos + 1, labels[0]) && data[pos] == Cut8(|labels[0]|)
    ensures At(data, pos + 1 + |labels[0]|, EncodeLabels(labels[1..]))
  {
    var l := labels[0];
    AtSplit(data, pos, EncodeLabel(l), EncodeLabels(labels[1..]));
    AtSplit(data, pos, [Cut8(|l|)], l);
    AtOctet(data, pos, Cut8(|l|));
  }

  // ----- Good names are read back -----

  lemma GoodLabelHop(data: seq<byte>, pos: nat, labels: seq<Text>)
    requires labels != [] && GoodLabel(labels[0]) && At(data, pos, EncodeLabels(labels))
    ensures var l, next := labels[0], pos + 1 + |labels[0]|;
      && NameWalks.Hop(data, pos) == Some(next) && data[pos] <= MAX_LABEL
      && data[pos + 1..next] == l && At(data, next, EncodeLabels(labels[1..]))
      && |EncodeLabels(labels)| == 1 + |l| + |EncodeLabels(labels[1..])|
  {
    AtLabels(data, pos, labels);
  }

  /** Good labels in a message are a walk that passes exactly them. */
  lemma {:induction false} WalkOfGoodLabels(data: seq<byte>, pos: nat, labels: seq<Text>) returns (ps: seq<nat>)
    requires GoodLabels(labels)
    requires At(data, pos, EncodeLabels(labels))
    ensures NameWalks.Walk(data, ps) && ps[0] == pos && NameWalks.Last(ps) == pos + |EncodeLabels(labels)|
    ensures NameWalks.Jumps(data, ps) == 0 && NameWalks.Labels(data, ps) == LowerAll(labels)
    decreases |labels|
  {
    if labels == [] {
      ps := [pos];
    } else {
      GoodLabelHop(data, pos, labels);
      var rest := WalkOfGoodLabels(data, pos + 1 + |labels[0]|, labels[1..]);
      NameWalks.WalkCons(data, pos, rest);
      ps := [pos] + rest;
    }
  }

  lemma AtName(data: seq<byte>, pos: nat, n: Text)
    requires At(data, pos, EncodeName(n))
    ensures At(data, pos, EncodeLabels(NameLabels(n)))
    ensures |EncodeName(n)| == |EncodeLabels(NameLabels(n))| + 1 && data[pos + |EncodeName(n)| - 1] == 0
  {
    AtSplit(data, pos, EncodeLabels(NameLabels(n)), [0]);
    AtOctet(data, pos + |EncodeLabels(NameLabels(n))|, 0);
  }

  lemma JoinNameLabels(n: Text)
    ensures Join(LowerAll(NameLabels(n))) == Lower(TrimDots(n))
  {
    JoinLowerAll(NameLabels(n));
    JoinSplit(TrimDots(n));
  }

  /** Wherever a good name was written, reading there returns it, trimmed and
      lower-cased, and stops exactly at its last octet. */
  lemma GoodNameIsRead(data: seq<byte>, pos: nat, n: Text)
    requires GoodName(n) && At(data, pos, EncodeName(n))
    ensures ReadName(data, pos) == Done(Lower(TrimDots(n)), pos + |EncodeName(n)|)
  {
    AtName(data, pos, n);
    var ps := WalkOfGoodLabels(data, pos, NameLabels(n));
    NameWalks.SpelledNameIsRead(data, pos, ps);
    JoinNameLabels(n);
  }

  // ----- Names that come out of the parser -----

  /** Names that read back as themselves. */
  predicate ExactName(n: Text) {
    GoodName(n) && TrimDots(n) == n && Lower(n) == n
  }

  /** No label is empty; only the root has no label. */
  predicate CleanName(n: Text) {
    n == [] || NameWalks.NonEmpty(Split(n))
  }

  predicate Short(labels: seq<Text>) {
    labels == [] || (|labels[0]| <= MAX_LABEL && Short(labels[1..]))
  }

  predicate ShortLabels(n: Text) {
    Short(Split(n))
  }

  predicate AllValid(labels: seq<Text>) {
    labels == [] || (Utf8.Valid(labels[0]) && AllValid(labels[1..]))
  }

  lemma {:induction false} SplitPieces(s: Text)
    ensures |s| <= MAX_LABEL ==> Short(Split(s))
    ensures Utf8.Valid(s) ==> AllValid(Split(s))
  {
    var i := IndexOf(s, DOT);
    if i < |s| {
      SplitPieces(s[i + 1..]);
      assert s == s[..i] + [DOT] + s[i + 1..];
      if Utf8.Valid(s) {
        Utf8.ValidCut(s[..i], DOT, s[i + 1..]);
      }
    }
  }

  predicate DecodedShape(n: Text) {
    Lower(n) == n && Utf8.Valid(n) && ShortLabels(n)
  }

  lemma {:induction false} ShortConcat(a: seq<Text>, b: seq<Text>)
    requires Short(a) && Short(b)
    ensures Short(a + b)
  {
    if a == [] {
      assert a + b == b;
    } else {
      ShortConcat(a[1..], b);
      assert (a + b)[1..] == a[1..] + b;
    }
  }

  lemma LowerPartShape(part: Text)
    requires Utf8.Valid(part) && |part| <= MAX_LABEL
    ensures DecodedShape(Lower(part))
  {
    LowerIdempotent(part);
    Utf8.ValidLower(part);
    SplitPieces(Lower(part));
  }

  lemma DotJoinShape(a: Text, b: Text)
    requires DecodedShape(a) && DecodedShape(b)
    ensures DecodedShape(a + [DOT] + b)
  {
    LowerConcat(a + [DOT], b);
    LowerConcat(a, [DOT]);
    assert Lower([DOT]) == [DOT];
    assert Utf8.First([DOT]) == Utf8.Piece(1, true) && [DOT][1..] == [];
    Utf8.ValidConcat(a, [DOT]);
    Utf8.ValidConcat(a + [DOT], b);
    SplitAtDot(a, b);
    ShortConcat(Split(a), Split(b));
  }

  lemma GlueShape(acc: Text, part: Text)
    requires DecodedShape(acc) && Utf8.Valid(part) && |part| <= MAX_LABEL
    ensures DecodedShape(Glue(acc, Lower(part)))
  {
    LowerPartShape(part);
    if acc == [] {
      assert Glue(acc, Lower(part)) == Lower(part);
    } else {
      DotJoinShape(acc, Lower(part));
    }
  }

  lemma {:induction false} DecodedShapeFrom(data: seq<byte>, pos: nat, jumps: nat, acc: Text)
    requires jumps <= MAX_JUMPS + 1 && DecodedShape(acc)
    requires NameFrom(data, pos, jumps, acc).Done?
    ensures DecodedShape(NameFrom(data, pos, jumps, acc).value)
    decreases MAX_JUMPS + 1 - jumps, |data| - pos
  {
    if data[pos] == 0 {
    } else if data[pos] >= 192 {
      DecodedShapeFrom(data, PointerTarget(data[pos], data[pos + 1]), jumps + 1, acc);
    } else {
      var end := pos + 1 + data[pos];
      GlueShape(acc, data[pos + 1..end]);
      DecodedShapeFrom(data, end, jumps, Glue(acc, Lower(data[pos + 1..end])));
    }
  }

  lemma DecodedShapeHere(data: seq<byte>, pos: nat)
    requires ReadName(data, pos).Done?
    ensures DecodedShape(ReadName(data, pos).value)
  {
    assert Split([]) == [[]] && Lower([]) == [];
    DecodedShapeFrom(data, pos, 0, []);
  }

  lemma SplitFromFirst(s: Text, first: Text, rest: Text)
    requires var i := IndexOf(s, DOT); i < |s| && first == s[..i] && rest == s[i + 1..]
    ensures Split(s) == [first] + Split(rest)
  {
  }

  lemma OneLabel(s: Text)
    requires IndexOf(s, DOT) == |s|
    ensures Split(s) == [s] + []
  {
  }

  lemma ShortCons(l: Text, rest: seq<Text>)
    ensures Short([l] + rest) <==> |l| <= MAX_LABEL && Short(rest)
  {
    assert ([l] + rest)[1..] == rest;
  }

  lemma ShortFromFirst(s: Text, i: nat)
    requires i == IndexOf(s, DOT)
    ensures Short(Split(s)) <==> i <= MAX_LABEL && (i < |s| ==> Short(Split(s[i + 1..])))
  {
    hide Split, Short, IndexOf;
    if i < |s| {
      var first, rest := s[..i], s[i + 1..];
      SplitFromFirst(s, first, rest);
      ShortCons(first, Split(rest));
    } else {
      OneLabel(s);
      ShortCons(s, []);
      NothingShort();
    }
  }

  lemma NothingShort()
    ensures Short([])
  {
  }

  /** What begins a name of short labels has short labels. */
  lemma {:induction false} ShortPrefix(s: Text, t: Text)
    requires Short(Split(s)) && t <= s
    ensures Short(Split(t))
  {
    hide Split, Short;
    var i, j := IndexOf(s, DOT), IndexOf(t, DOT);
    ShortFromFirst(s, i);
    ShortFromFirst(t, j);
    assert j < |t| ==> i == j && t[j + 1..] <= s[j + 1..];
    if j < |t| {
      ShortPrefix(s[j + 1..], t[j + 1..]);
    }
  }

  lemma LowerKeepsDots(s: Text)
    ensures IndexOf(Lower(s), DOT) == IndexOf(s, DOT)
  {
    var i, j := IndexOf(s, DOT), IndexOf(Lower(s), DOT);
    assert i < |s| ==> Lower(s)[i] == LowerByte(s[i]);
    assert j < |s| ==> Lower(s)[j] == LowerByte(s[j]);
  }

  lemma LowerTail(s: Text, i: nat)
    requires i <= |s|
    ensures Lower(s)[i..] == Lower(s[i..])
  {
    assert forall k | 0 <= k < |s| - i :: Lower(s)[i..][k] == Lower(s[i..])[k];
  }

  lemma {:induction false} ShortLower(s: Text)
    ensures Short(Split(Lower(s))) <==> Short(Split(s))
  {
    hide Split, Short, IndexOf, Lower;
    var i := IndexOf(s, DOT);
    LowerKeepsDots(s);
    LowerKeepsLength(s);
    ShortFromFirst(s, i);
    ShortFromFirst(Lower(s), i);
    if i < |s| {
      LowerTail(s, i + 1);
      ShortLower(s[i + 1..]);
    }
  }

  lemma LowerKeepsLength(s: Text)
    ensures |Lower(s)| == |s|
  {
  }

  lemma {:induction false} GoodFromParts(labels: seq<Text>)
    requires Short(labels) && AllValid(labels)
    ensures GoodLabels(labels) <==> NameWalks.NonEmpty(labels)
  {
    if labels != [] {
      GoodFromParts(labels[1..]);
    }
  }

  /** A decoded name is lower-case and a valid string, and writing it loses nothing
      exactly when it shows no empty label. */
  lemma DecodedName(data: seq<byte>, pos: nat)
    requires ReadName(data, pos).Done?
    ensures var n := ReadName(data, pos).value;
      Lower(n) == n && Utf8.Valid(n) && (ExactName(n) <==> CleanName(n))
  {
    DecodedShapeHere(data, pos);
    var n := ReadName(data, pos).value;
    SplitPieces(n);
    GoodFromParts(Split(n));
    if CleanName(n) {
      CleanIsTrimmed(n);
    }
  }

  lemma {:induction false} NonEmptyLast(labels: seq<Text>)
    requires labels != [] && NameWalks.NonEmpty(labels)
    ensures labels[|labels| - 1] != []
  {
    if |labels| > 1 {
      NonEmptyLast(labels[1..]);
    }
  }

  lemma CleanIsTrimmed(n: Text)
    requires CleanName(n)
    ensures TrimDots(n) == n
  {
    if n != [] && n[|n| - 1] == DOT {
      var init := n[..|n| - 1];
      assert n == init + [DOT] + [];
      SplitAtDot(init, []);
      NonEmptyLast(Split(n));
      assert false;
    }
  }

  // ----- All other names are not -----

  /** The name that is meant when `labels` follow `acc`. */
  function Meant(acc: Text, labels: seq<Text>): Text {
    Glue(acc, Lower(Join(labels)))
  }

  /** A read that gives neither `meant` nor anything that begins with it. */
  ghost predicate Misses(r: Parsed<Text>, meant: Text) {
    r.Done? ==> !(meant <= r.value)
  }

  lemma MeantIsLonger(acc: Text, labels: seq<Text>)
    requires Join(labels) != []
    ensures |Meant(acc, labels)| > |acc|
  {
  }

  lemma ZeroLengthEnds(data: seq<byte>, pos: nat, acc: Text)
    requires pos < |data| && data[pos] == 0
    ensures NameFrom(data, pos, 0, acc).Done? && NameFrom(data, pos, 0, acc).value == acc
  {
  }

  lemma InvalidLabelFails(data: seq<byte>, pos: nat, l: Text, acc: Text)
    requires At(data, pos + 1, l) && 1 <= |l| <= MAX_LABEL && data[pos] == |l| && !Utf8.Valid(l)
    ensures NameFrom(data, pos, 0, acc).Fail?
  {
    assert data[pos + 1..pos + 1 + |l|] == l;
  }

  /** An empty label at the front of what is left ends the name early, an invalid one makes
      the read fail. */
  lemma BadLabelIsMisread(data: seq<byte>, pos: nat, labels: seq<Text>, acc: Text)
    requires labels != [] && Join(labels) != []
    requires |labels[0]| <= MAX_LABEL && !GoodLabel(labels[0])
    requires At(data, pos, EncodeLabels(labels))
    ensures Misses(NameFrom(data, pos, 0, acc), Meant(acc, labels))
  {
    hide Lower, NameFrom, Join, Meant, EncodeLabels, Utf8.Valid;
    AtLabels(data, pos, labels);
    MeantIsLonger(acc, labels);
    if labels[0] == [] {
      ZeroLengthEnds(data, pos, acc);
    } else {
      InvalidLabelFails(data, pos, labels[0], acc);
    }
  }

  lemma MeantStep(acc: Text, labels: seq<Text>)
    requires |labels| > 1 && labels[0] != []
    ensures Meant(acc, labels) == Meant(Glue(acc, Lower(labels[0])), labels[1..])
  {
    var l, rest := labels[0], Join(labels[1..]);
    LowerConcat(l + [DOT], rest);
    LowerConcat(l, [DOT]);
    assert Lower([DOT]) == [DOT];
    assert Glue(acc, Lower(l) + [DOT] + Lower(rest)) == Glue(acc, Lower(l)) + [DOT] + Lower(rest);
  }

  /** Every tail of the label list still spells something. */
  predicate Live(labels: seq<Text>) {
    labels != [] && Join(labels) != [] && (|labels| > 1 ==> Live(labels[1..]))
  }

  lemma {:induction false} SplitIsLive(s: Text)
    requires s != [] && s[|s| - 1] != DOT
    ensures Live(Split(s))
  {
    JoinSplit(s);
    var i := IndexOf(s, DOT);
    if i < |s| {
      var rest := s[i + 1..];
      assert rest != [] && rest[|rest| - 1] == s[|s| - 1];
      SplitIsLive(rest);
      assert Split(s)[1..] == Split(rest);
    }
  }

  lemma ReadPastGoodLabel(data: seq<byte>, pos: nat, labels: seq<Text>, acc: Text)
    requires |labels| > 1 && GoodLabel(labels[0]) && At(data, pos, EncodeLabels(labels))
    ensures var next, acc' := pos + 1 + |labels[0]|, Glue(acc, Lower(labels[0]));
      && NameFrom(data, pos, 0, acc) == NameFrom(data, next, 0, acc')
      && At(data, next, EncodeLabels(labels[1..]))
      && Meant(acc, labels) == Meant(acc', labels[1..])
  {
    hide Lower, Join, NameFrom, Glue, NameWalks.Hop, Utf8.Valid;
    GoodLabelHop(data, pos, labels);
    NameWalks.LoopHop(data, pos, 0, acc);
    MeantStep(acc, labels);
  }

  lemma {:induction false} BadLabelsAreMisread(data: seq<byte>, pos: nat, labels: seq<Text>, acc: Text)
    requires Live(labels) && Short(labels) && !GoodLabels(labels)
    requires At(data, pos, EncodeLabels(labels))
    ensures Misses(NameFrom(data, pos, 0, acc), Meant(acc, labels))
    decreases |labels|
  {
    hide NameFrom, Meant, Glue, Lower, Join, EncodeLabels, GoodLabel;
    if !GoodLabel(labels[0]) {
      BadLabelIsMisread(data, pos, labels, acc);
    } else {
      assert |labels| > 1;
      ReadPastGoodLabel(data, pos, labels, acc);
      BadLabelsAreMisread(data, pos + 1 + |labels[0]|, labels[1..], Glue(acc, Lower(labels[0])));
    }
  }

  /** In no message does a name that is not good read back, nor anything that begins with
      it: a label over 191 octets cannot come out of the parser at all, an invalid one
      stops it, and an empty one ends the name. */
  lemma OtherNameIsMisread(data: seq<byte>, pos: nat, n: Text)
    requires !GoodName(n) && At(data, pos, EncodeName(n))
    ensures Misses(ReadName(data, pos), Lower(TrimDots(n)))
  {
    hide NameFrom, Live, GoodLabels, EncodeLabels, Join, Split, Short, Utf8.Valid, Lower;
    var t := TrimDots(n);
    var r := ReadName(data, pos);
    BadNameIsNotRoot(n);
    if Short(Split(t)) {
      AtName(data, pos, n);
      SplitIsLive(t);
      BadLabelsAreMisread(data, pos, Split(t), []);
      JoinSplit(t);
      assert Meant([], Split(t)) == Lower(t);
    } else if r.Done? && Lower(t) <= r.value {
      DecodedShapeHere(data, pos);
      ShortPrefix(r.value, Lower(t));
      ShortLower(t);
      assert false;
    }
  }

  lemma BadNameIsNotRoot(n: Text)
    requires !GoodName(n)
    ensures TrimDots(n) != [] && NameLabels(n) == Split(TrimDots(n)) && !GoodLabels(Split(TrimDots(n)))
  {
  }

  /** Main result on writing: in every message and at every offset, what was written for a
      name is read back, trimmed and lower-cased, exactly when the name is good, and the
      cursor is then on the octet after it. */
  lemma ReadsBackExactly(data: seq<byte>, pos: nat, n: Text)
    requires At(data, pos, EncodeName(n))
    ensures GoodName(n) <==> ReadName(data, pos) == Done(Lower(TrimDots(n)), pos + |EncodeName(n)|)
    ensures GoodName(n) <==> ReadName(data, pos).Done? && ReadName(data, pos).value == Lower(TrimDots(n))
  {
    hide ReadName, Lower, GoodName, EncodeName;
    if GoodName(n) {
      GoodNameIsRead(data, pos, n);
    } else {
      OtherNameIsMisread(data, pos, n);
    }
  }

  /** No encoding of a good name is a proper prefix of another. */
  lemma PrefixFree(a: Text, b: Text)
    requires GoodName(a) && GoodName(b) && EncodeName(a) <= EncodeName(b)
    ensures EncodeName(a) == EncodeName(b) && Lower(TrimDots(a)) == Lower(TrimDots(b))
  {
    var data := EncodeName(b);
    AtWhole(data);
    assert At(data, 0, EncodeName(a));
    GoodNameIsRead(data, 0, a);
    GoodNameIsRead(data, 0, b);
  }

  /** Only exact names read back as themselves. */
  lemma OnlyExactSurvives(data: seq<byte>, pos: nat, n: Text)
    requires At(data, pos, EncodeName(n))
    requires ReadName(data, pos).Done? && ReadName(data, pos).value == n
    ensures ExactName(n)
  {
    DecodedName(data, pos);
    LowerSlice(n, 0, |TrimDots(n)|);
    assert n[0..|TrimDots(n)|] == TrimDots(n);
    if !GoodName(n) {
      OtherNameIsMisread(data, pos, n);
    } else {
      GoodNameIsRead(data, pos, n);
    }
  }

  // ----- Which names are decoded alike -----

  predicate Dotless(labels: seq<Text>) {
    labels == [] || (IndexOf(labels[0], DOT) == |labels[0]| && Dotless(labels[1..]))
  }

  lemma {:induction false} SplitJoin(labels: seq<Text>)
    requires labels != [] && Dotless(labels)
    ensures Split(Join(labels)) == labels
  {
    hide IndexOf, Split;
    OneLabel(labels[0]);
    if |labels| > 1 {
      SplitJoin(labels[1..]);
      SplitAtDot(labels[0], Join(labels[1..]));
    }
  }

  lemma JoinOfNone(labels: seq<Text>)
    requires NameWalks.NonEmpty(labels)
    ensures Join(labels) == [] <==> labels == []
  {
  }

  /** Two names whose labels hold no dots are decoded alike exactly when their labels, in
      lower case, are the same. */
  lemma SameNameExactly(
    data: seq<byte>, start: nat, ps: seq<nat>, data': seq<byte>, start': nat, ps': seq<nat>)
    requires NameWalks.Spells(data, start, ps) && NameWalks.Spells(data', start', ps')
    requires Dotless(NameWalks.Labels(data, ps)) && Dotless(NameWalks.Labels(data', ps'))
    ensures ReadName(data, start).Done? && ReadName(data', start').Done?
    ensures ReadName(data, start).value == ReadName(data', start').value
       <==> NameWalks.Labels(data, ps) == NameWalks.Labels(data', ps')
  {
    hide Dotless, Join, Split, ReadName, NameWalks.Walk, NameWalks.Jumps, NameWalks.Labels;
    var labels, labels' := NameWalks.Labels(data, ps), NameWalks.Labels(data', ps');
    NameWalks.SpelledNameIsRead(data, start, ps);
    NameWalks.SpelledNameIsRead(data', start', ps');
    NameWalks.LabelsNonEmpty(data, ps);
    NameWalks.LabelsNonEmpty(data', ps');
    JoinOfNone(labels);
    JoinOfNone(labels');
    if labels != [] && labels' != [] {
      SplitJoin(labels);
      SplitJoin(labels');
    }
  }

  /** With a dot in a label they need not be: one label `a.b`, and the labels `a` and `b`. */
  lemma DotInLabelIsLost()
    ensures ReadName([3, 97, 46, 98, 0], 0) == Done([97, 46, 98], 5)
    ensures ReadName([1, 97, 1, 98, 0], 0) == Done([97, 46, 98], 5)
  {
    ThreeOctetLabel([3, 97, 46, 98, 0]);
    TwoLetterLabels([1, 97, 1, 98, 0]);
  }

  lemma ThreeOctetLabel(data: seq<byte>)
    requires data == [3, 97, 46, 98, 0]
    ensures ReadName(data, 0) == Done([97, 46, 98], 5)
  {
    var part: Text := [97, 46, 98];
    assert Utf8.Valid(part) by {
      assert part[1..] == [46, 98] && [46, 98][1..] == [98] && [98][1..] == [];
      assert Utf8.Valid([98]) && Utf8.Valid([46, 98]);
    }
    hide Utf8.Valid;
    assert data[1..4] == part && Lower(part) == part && Glue([], part) == part;
    assert NameFrom(data, 0, 0, []) == NameFrom(data, 4, 0, part);
  }

  lemma TwoLetterLabels(data: seq<byte>)
    requires data == [1, 97, 1, 98, 0]
    ensures ReadName(data, 0) == Done([97, 46, 98], 5)
  {
    assert Utf8.Valid([97]) && Utf8.Valid([98]) by {
      assert [97][1..] == [] && [98][1..] == [];
    }
    hide Utf8.Valid;
    assert data[1..2] == [97] && Lower([97]) == [97] && Glue([], [97]) == [97];
    assert data[3..4] == [98] && Lower([98]) == [98] && Glue([97], [98]) == [97, 46, 98];
    assert NameFrom(data, 0, 0, []) == NameFrom(data, 2, 0, [97]);
    assert NameFrom(data, 2, 0, [97]) == NameFrom(data, 4, 0, [97, 46, 98]);
  }
}
