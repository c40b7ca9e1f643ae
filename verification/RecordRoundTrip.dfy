/** Questions and records written and read back: exactly which ones survive, in whatever
    message, when the length field of a record is exact, and what aborts their reading. */
module RecordRoundTrip {
  import opened Bytes
  import opened Wire
  import opened Names
  import opened Records
  import opened NameRoundTrip
  import NameWalks
  import Utf8

  predicate CanonicalType(t: QueryType) {
    QueryType.From(t.Code()) == t
  }

  predicate CanonicalClass(c: QueryClass) {
    QueryClass.From(c.Code()) == c
  }

  lemma FromIsCanonical(code: u16)
    ensures CanonicalType(QueryType.From(code)) && CanonicalClass(QueryClass.From(code))
  {
  }

  predicate GoodTexts(texts: seq<Text>) {
    texts == [] || (|texts[0]| <= 255 && Utf8.Valid(texts[0]) && GoodTexts(texts[1..]))
  }

  /** The record data that is read back under the type it is written with. */
  predicate GoodRdata(rtype: QueryType, rdata: ResourceData) {
    match rdata
    case AData(_) => rtype == A
    case AAAAData(_) => rtype == AAAA
    case CNAMEData(cname) => rtype == CNAME && ExactName(cname)
    case MXData(_, exchange) => rtype == MX && ExactName(exchange) && Cut16(|EncodeRdata(rdata)|) >= 3
    case TXTData(texts) => rtype == TXT && GoodTexts(texts) && |EncodeTexts(texts)| < 0x1_0000
    case RawData(raw) =>
      && |raw| < 0x1_0000 && rtype != CNAME && rtype != TXT
      && (rtype == A ==> |raw| != 4) && (rtype == AAAA ==> |raw| != 16) && (rtype == MX ==> |raw| < 3)
  }

  predicate GoodQuestion(q: Question) {
    ExactName(q.name) && CanonicalType(q.qtype) && CanonicalClass(q.qclass)
  }

  predicate GoodRecord(r: ResourceRecord) {
    ExactName(r.name) && CanonicalType(r.rtype) && CanonicalClass(r.rclass) && GoodRdata(r.rtype, r.rdata)
  }

  lemma ExactNameIsRead(data: seq<byte>, pos: nat, n: Text)
    requires ExactName(n) && At(data, pos, EncodeName(n))
    ensures ReadName(data, pos) == Done(n, pos + |EncodeName(n)|)
  {
    GoodNameIsRead(data, pos, n);
  }

  // ----- Questions -----

  lemma AtQuestion(data: seq<byte>, pos: nat, q: Question)
    requires At(data, pos, EncodeQuestion(q))
    ensures At(data, pos, EncodeName(q.name))
    ensures var p := pos + |EncodeName(q.name)|;
      && p + 4 == pos + |EncodeQuestion(q)| <= |data|
      && U16At(data, p) == q.qtype.Code() && U16At(data, p + 2) == q.qclass.Code()
  {
    hide Be16, U16At, EncodeName;
    var p := pos + |EncodeName(q.name)|;
    AtSplit(data, pos, EncodeName(q.name), Be16(q.qtype.Code()) + Be16(q.qclass.Code()));
    AtFrontU16(data, p, q.qtype.Code(), Be16(q.qclass.Code()));
    AtU16(data, p + 2, q.qclass.Code());
  }

  lemma GoodQuestionIsRead(data: seq<byte>, pos: nat, q: Question)
    requires GoodQuestion(q) && At(data, pos, EncodeQuestion(q))
    ensures ParseQuestion(data, pos) == Done(q, pos + |EncodeQuestion(q)|)
  {
    hide U16At, EncodeName, EncodeQuestion, ExactName;
    AtQuestion(data, pos, q);
    ExactNameIsRead(data, pos, q.name);
  }

  lemma OnlyGoodQuestionSurvives(data: seq<byte>, pos: nat, q: Question)
    requires At(data, pos, EncodeQuestion(q))
    requires ParseQuestion(data, pos).Done? && ParseQuestion(data, pos).value == q
    ensures GoodQuestion(q)
  {
    AtQuestion(data, pos, q);
    var p := ReadName(data, pos).next;
    OnlyExactSurvives(data, pos, q.name);
    FromIsCanonical(U16At(data, p));
    FromIsCanonical(U16At(data, p + 2));
  }

  /** In every message and at every offset, what was written for a question is read back
      exactly when the question is good, and the cursor is then right behind it. */
  lemma QuestionSurvivesExactly(data: seq<byte>, pos: nat, q: Question)
    requires At(data, pos, EncodeQuestion(q))
    ensures GoodQuestion(q) <==> ParseQuestion(data, pos) == Done(q, pos + |EncodeQuestion(q)|)
    ensures GoodQuestion(q) <==> ParseQuestion(data, pos).Done? && ParseQuestion(data, pos).value == q
  {
    hide GoodQuestion, ParseQuestion, EncodeQuestion;
    if GoodQuestion(q) {
      GoodQuestionIsRead(data, pos, q);
    } else if ParseQuestion(data, pos).Done? && ParseQuestion(data, pos).value == q {
      OnlyGoodQuestionSurvives(data, pos, q);
    }
  }

  // ----- Character-strings -----

  lemma AtText(data: seq<byte>, pos: nat, texts: seq<Text>)
    requires texts != [] && At(data, pos, EncodeTexts(texts))
    ensures At(data, pos + 1, texts[0]) && data[pos] == Cut8(|texts[0]|)
    ensures At(data, pos + 1 + |texts[0]|, EncodeTexts(texts[1..]))
    ensures |EncodeTexts(texts)| == 1 + |texts[0]| + |EncodeTexts(texts[1..])|
  {
    var t := texts[0];
    AtSplit(data, pos, EncodeLabel(t), EncodeTexts(texts[1..]));
    AtSplit(data, pos, [Cut8(|t|)], t);
    AtOctet(data, pos, Cut8(|t|));
  }

  lemma GoodTextIsRead(data: seq<byte>, pos: nat, end: nat, t: Text, acc: seq<Text>)
    requires pos < end && At(data, pos + 1, t) && data[pos] == |t| && Utf8.Valid(t)
    ensures TextsFrom(data, pos, end, acc) == TextsFrom(data, pos + 1 + |t|, end, acc + [t])
  {
    assert data[pos + 1..pos + 1 + data[pos]] == t;
    Utf8.LossyKeepsExactlyValid(t);
  }

  lemma {:induction false} GoodTextsAreRead(data: seq<byte>, pos: nat, end: nat, texts: seq<Text>, acc: seq<Text>)
    requires GoodTexts(texts) && At(data, pos, EncodeTexts(texts)) && end == pos + |EncodeTexts(texts)|
    ensures TextsFrom(data, pos, end, acc) == Done(acc + texts, end)
    decreases |texts|
  {
    hide Utf8.Valid, Utf8.Lossy;
    if texts == [] {
      assert acc + texts == acc;
    } else {
      var t := texts[0];
      AtText(data, pos, texts);
      GoodTextIsRead(data, pos, end, t, acc);
      GoodTextsAreRead(data, pos + 1 + |t|, end, texts[1..], acc + [t]);
      assert acc + [t] + texts[1..] == acc + texts;
    }
  }

  /** The loop only adds to what it has read. */
  lemma {:induction false} TextsOnlyGrow(data: seq<byte>, pos: nat, end: nat, acc: seq<Text>)
    requires TextsFrom(data, pos, end, acc).Done?
    ensures acc <= TextsFrom(data, pos, end, acc).value
    decreases end - pos
  {
    if pos < end {
      var next := pos + 1 + data[pos];
      TextsOnlyGrow(data, next, end, acc + [Utf8.Lossy(data[pos + 1..next])]);
    }
  }

  /** A text whose length was cut is not what its first octets decode to. */
  lemma CutTextDiffers(t: Text, u: Text)
    requires u <= t && |u| == Cut8(|t|)
    requires Utf8.Lossy(u) == t
    ensures |t| <= 255 && u == t && Utf8.Valid(t)
  {
    Utf8.LossyExtension(u);
    assert u == t[..|u|] == t;
    Utf8.LossyKeepsExactlyValid(u);
  }

  lemma FirstTextIsKept(data: seq<byte>, pos: nat, end: nat, texts: seq<Text>, acc: seq<Text>)
    requires texts != [] && At(data, pos + 1, texts[0]) && data[pos] == Cut8(|texts[0]|)
    requires TextsFrom(data, pos, end, acc).Done? && TextsFrom(data, pos, end, acc).value == acc + texts
    ensures pos < end && |texts[0]| <= 255 && Utf8.Valid(texts[0])
    ensures TextsFrom(data, pos, end, acc) == TextsFrom(data, pos + 1 + |texts[0]|, end, acc + [texts[0]])
  {
    var t := texts[0];
    assert |acc + texts| > |acc|;
    var next := pos + 1 + data[pos];
    var first := Utf8.Lossy(data[pos + 1..next]);
    assert TextsFrom(data, pos, end, acc) == TextsFrom(data, next, end, acc + [first]);
    TextsOnlyGrow(data, next, end, acc + [first]);
    assert (acc + [first])[|acc|] == (acc + texts)[|acc|];
    assert data[pos + 1..pos + 1 + |t|][..Cut8(|t|)] == data[pos + 1..next];
    CutTextDiffers(t, data[pos + 1..next]);
  }

  lemma {:induction false} OnlyGoodTextsSurvive(data: seq<byte>, pos: nat, end: nat, texts: seq<Text>, acc: seq<Text>)
    requires At(data, pos, EncodeTexts(texts))
    requires TextsFrom(data, pos, end, acc).Done? && TextsFrom(data, pos, end, acc).value == acc + texts
    ensures GoodTexts(texts) && (texts != [] ==> pos + |EncodeTexts(texts)| < end + 256)
    decreases |texts|
  {
    hide TextsFrom, Utf8.Valid, Utf8.Lossy;
    if texts != [] {
      var t := texts[0];
      AtText(data, pos, texts);
      FirstTextIsKept(data, pos, end, texts, acc);
      assert acc + [t] + texts[1..] == acc + texts;
      OnlyGoodTextsSurvive(data, pos + 1 + |t|, end, texts[1..], acc + [t]);
    }
  }

  /** Character-strings that fill a stretch of the message exactly. */
  ghost predicate Tile(data: seq<byte>, pos: nat, end: nat)
    requires end <= |data|
    decreases end - pos
  {
    pos == end || (pos < end && pos + 1 + data[pos] <= end && Tile(data, pos + 1 + data[pos], end))
  }

  /** The string loop ends where the length field says exactly when the strings fill the data. */
  lemma {:induction false} TextsEndExactly(data: seq<byte>, pos: nat, end: nat, acc: seq<Text>)
    requires pos <= end <= |data|
    ensures Tile(data, pos, end)
       <==> TextsFrom(data, pos, end, acc).Done? && TextsFrom(data, pos, end, acc).next == end
    decreases end - pos
  {
    if pos < end && pos + 1 + data[pos] <= end {
      var next := pos + 1 + data[pos];
      TextsEndExactly(data, next, end, acc + [Utf8.Lossy(data[pos + 1..next])]);
    }
  }

  /** A chain of character-strings that starts at `pos`, with every one of its starts before `end`. */
  ghost predicate Chain(data: seq<byte>, pos: nat, end: nat, starts: seq<nat>)
    requires end <= |data|
    decreases |starts|
  {
    && starts != [] && starts[0] == pos && pos < end
    && (|starts| > 1 ==> Chain(data, pos + 1 + data[pos], end, starts[1..]))
  }

  lemma {:induction false} TextsAbortFrom(data: seq<byte>, pos: nat, end: nat, acc: seq<Text>) returns (starts: seq<nat>)
    requires end <= |data| && TextsFrom(data, pos, end, acc).Abort?
    ensures Chain(data, pos, end, starts)
    ensures var last := starts[|starts| - 1]; last < end && last + 1 + data[last] > |data|
    decreases end - pos
  {
    var next := pos + 1 + data[pos];
    if next > |data| {
      starts := [pos];
    } else {
      var rest := TextsAbortFrom(data, next, end, acc + [Utf8.Lossy(data[pos + 1..next])]);
      starts := [pos] + rest;
      assert starts[1..] == rest;
    }
  }

  lemma {:induction false} ChainAborts(data: seq<byte>, pos: nat, end: nat, starts: seq<nat>, acc: seq<Text>)
    requires end <= |data| && Chain(data, pos, end, starts)
    requires var last := starts[|starts| - 1]; last < end && last + 1 + data[last] > |data|
    ensures TextsFrom(data, pos, end, acc).Abort?
    decreases |starts|
  {
    if |starts| > 1 {
      var next := pos + 1 + data[pos];
      assert starts[1..][|starts| - 2] == starts[|starts| - 1];
      if next <= |data| {
        ChainAborts(data, next, end, starts[1..], acc + [Utf8.Lossy(data[pos + 1..next])]);
      }
    }
  }

  // ----- Records -----

  lemma AtFixed(data: seq<byte>, p: nat, r: ResourceRecord)
    requires At(data, p, EncodeBody(r))
    ensures p + RECORD_FIXED + |EncodeRdata(r.rdata)| <= |data| && |EncodeFixed(r)| == RECORD_FIXED
    ensures U16At(data, p) == r.rtype.Code() && U16At(data, p + 2) == r.rclass.Code()
    ensures U32At(data, p + 4) == r.ttl && U16At(data, p + 8) == Cut16(|EncodeRdata(r.rdata)|)
    ensures At(data, p + RECORD_FIXED, EncodeRdata(r.rdata))
  {
    hide Be16, Be32, U16At, U32At, EncodeRdata;
    var len := Cut16(|EncodeRdata(r.rdata)|);
    AtSplit(data, p, EncodeFixed(r), EncodeRdata(r.rdata));
    AtFrontU16(data, p, r.rtype.Code(), Be16(r.rclass.Code()) + (Be32(r.ttl) + Be16(len)));
    AtFrontU16(data, p + 2, r.rclass.Code(), Be32(r.ttl) + Be16(len));
    AtSplit(data, p + 4, Be32(r.ttl), Be16(len));
    AtU32(data, p + 4, r.ttl);
    AtU16(data, p + 8, len);
  }

  lemma AtRecord(data: seq<byte>, pos: nat, r: ResourceRecord)
    requires At(data, pos, EncodeRecord(r))
    ensures At(data, pos, EncodeName(r.name))
    ensures At(data, pos + |EncodeName(r.name)|, EncodeBody(r))
    ensures |EncodeRecord(r)| == |EncodeName(r.name)| + RECORD_FIXED + |EncodeRdata(r.rdata)|
  {
    hide EncodeName, EncodeRdata;
    AtSplit(data, pos, EncodeName(r.name), EncodeBody(r));
  }

  lemma GoodExchangeIsRead(data: seq<byte>, pos: nat, rdata: ResourceData)
    requires rdata.MXData? && GoodRdata(MX, rdata) && At(data, pos, EncodeRdata(rdata))
    ensures pos + Cut16(|EncodeRdata(rdata)|) <= |data|
    ensures ParseRdata(data, pos, MX, Cut16(|EncodeRdata(rdata)|)) == Done(rdata, pos + |EncodeRdata(rdata)|)
  {
    AtFrontU16(data, pos, rdata.preference, EncodeName(rdata.exchange));
    ExactNameIsRead(data, pos + 2, rdata.exchange);
  }

  lemma GoodTextDataIsRead(data: seq<byte>, pos: nat, rdata: ResourceData)
    requires rdata.TXTData? && GoodRdata(TXT, rdata) && At(data, pos, EncodeRdata(rdata))
    ensures pos + Cut16(|EncodeRdata(rdata)|) <= |data|
    ensures ParseRdata(data, pos, TXT, Cut16(|EncodeRdata(rdata)|)) == Done(rdata, pos + |EncodeRdata(rdata)|)
  {
    hide EncodeTexts, TextsFrom, GoodTexts;
    GoodTextsAreRead(data, pos, pos + |EncodeTexts(rdata.texts)|, rdata.texts, []);
    assert [] + rdata.texts == rdata.texts;
  }

  lemma GoodRdataIsRead(data: seq<byte>, pos: nat, rtype: QueryType, rdata: ResourceData)
    requires GoodRdata(rtype, rdata) && At(data, pos, EncodeRdata(rdata))
    requires pos + Cut16(|EncodeRdata(rdata)|) <= |data|
    ensures ParseRdata(data, pos, rtype, Cut16(|EncodeRdata(rdata)|)) == Done(rdata, pos + |EncodeRdata(rdata)|)
  {
    match rdata {
      case CNAMEData(cname) => ExactNameIsRead(data, pos, cname);
      case MXData(_, _) => GoodExchangeIsRead(data, pos, rdata);
      case TXTData(_) => GoodTextDataIsRead(data, pos, rdata);
      case _ =>
    }
  }

  lemma GoodBodyIsRead(data: seq<byte>, p: nat, r: ResourceRecord)
    requires GoodRdata(r.rtype, r.rdata) && CanonicalType(r.rtype) && CanonicalClass(r.rclass)
    requires At(data, p, EncodeBody(r))
    ensures ParseBody(data, r.name, p) == Done(r, p + |EncodeBody(r)|)
  {
    AtFixed(data, p, r);
    GoodRdataIsRead(data, p + RECORD_FIXED, r.rtype, r.rdata);
  }

  lemma GoodRecordIsRead(data: seq<byte>, pos: nat, r: ResourceRecord)
    requires GoodRecord(r) && At(data, pos, EncodeRecord(r))
    ensures ParseRecord(data, pos) == Done(r, pos + |EncodeRecord(r)|)
  {
    hide EncodeName, EncodeBody, ParseBody, ExactName, GoodRdata, CanonicalType, CanonicalClass;
    AtSplit(data, pos, EncodeName(r.name), EncodeBody(r));
    ExactNameIsRead(data, pos, r.name);
    GoodBodyIsRead(data, pos + |EncodeName(r.name)|, r);
  }

  lemma OnlyGoodExchangeSurvives(data: seq<byte>, pos: nat, rtype: QueryType, rdata: ResourceData)
    requires rdata.MXData? && At(data, pos, EncodeRdata(rdata))
    requires pos + Cut16(|EncodeRdata(rdata)|) <= |data|
    requires var r := ParseRdata(data, pos, rtype, Cut16(|EncodeRdata(rdata)|)); r.Done? && r.value == rdata
    ensures GoodRdata(rtype, rdata)
  {
    AtFrontU16(data, pos, rdata.preference, EncodeName(rdata.exchange));
    OnlyExactSurvives(data, pos + 2, rdata.exchange);
  }

  lemma OnlyGoodTextDataSurvives(data: seq<byte>, pos: nat, rtype: QueryType, rdata: ResourceData)
    requires rdata.TXTData? && At(data, pos, EncodeRdata(rdata))
    requires pos + Cut16(|EncodeRdata(rdata)|) <= |data|
    requires var r := ParseRdata(data, pos, rtype, Cut16(|EncodeRdata(rdata)|)); r.Done? && r.value == rdata
    ensures GoodRdata(rtype, rdata)
  {
    var texts := rdata.texts;
    assert [] + texts == texts;
    OnlyGoodTextsSurvive(data, pos, pos + Cut16(|EncodeTexts(texts)|), texts, []);
  }

  lemma OnlyGoodRdataSurvives(data: seq<byte>, pos: nat, rtype: QueryType, rdata: ResourceData)
    requires At(data, pos, EncodeRdata(rdata))
    requires pos + Cut16(|EncodeRdata(rdata)|) <= |data|
    requires var r := ParseRdata(data, pos, rtype, Cut16(|EncodeRdata(rdata)|)); r.Done? && r.value == rdata
    ensures GoodRdata(rtype, rdata)
  {
    match rdata {
      case CNAMEData(cname) => OnlyExactSurvives(data, pos, cname);
      case MXData(_, _) => OnlyGoodExchangeSurvives(data, pos, rtype, rdata);
      case TXTData(_) => OnlyGoodTextDataSurvives(data, pos, rtype, rdata);
      case RawData(raw) => assert |raw| == Cut16(|raw|);
      case _ =>
    }
  }

  lemma OnlyGoodBodySurvives(data: seq<byte>, p: nat, r: ResourceRecord)
    requires At(data, p, EncodeBody(r))
    requires ParseBody(data, r.name, p).Done? && ParseBody(data, r.name, p).value == r
    ensures GoodRdata(r.rtype, r.rdata) && CanonicalType(r.rtype) && CanonicalClass(r.rclass)
  {
    AtFixed(data, p, r);
    FromIsCanonical(U16At(data, p));
    FromIsCanonical(U16At(data, p + 2));
    OnlyGoodRdataSurvives(data, p + RECORD_FIXED, r.rtype, r.rdata);
  }

  lemma OnlyGoodRecordSurvives(data: seq<byte>, pos: nat, r: ResourceRecord)
    requires At(data, pos, EncodeRecord(r))
    requires ParseRecord(data, pos).Done? && ParseRecord(data, pos).value == r
    ensures GoodRecord(r)
  {
    hide ParseBody, EncodeBody, GoodRdata, CanonicalType, CanonicalClass, ExactName, EncodeName, ReadName;
    AtSplit(data, pos, EncodeName(r.name), EncodeBody(r));
    BodyKeepsName(data, ReadName(data, pos).value, ReadName(data, pos).next);
    OnlyExactSurvives(data, pos, r.name);
    ExactNameIsRead(data, pos, r.name);
    OnlyGoodBodySurvives(data, pos + |EncodeName(r.name)|, r);
  }

  lemma BodyKeepsName(data: seq<byte>, name: Text, p: nat)
    ensures ParseBody(data, name, p).Done? ==> ParseBody(data, name, p).value.name == name
  {
  }

  /** Main result on records: in every message and at every offset, what was written for a
      record is read back exactly when the record is good, and the cursor is then on the
      octet after it. */
  lemma RecordSurvivesExactly(data: seq<byte>, pos: nat, r: ResourceRecord)
    requires At(data, pos, EncodeRecord(r))
    ensures GoodRecord(r) <==> ParseRecord(data, pos) == Done(r, pos + |EncodeRecord(r)|)
    ensures GoodRecord(r) <==> ParseRecord(data, pos).Done? && ParseRecord(data, pos).value == r
  {
    hide GoodRecord, ParseRecord, EncodeRecord;
    if GoodRecord(r) {
      GoodRecordIsRead(data, pos, r);
    } else if ParseRecord(data, pos).Done? && ParseRecord(data, pos).value == r {
      OnlyGoodRecordSurvives(data, pos, r);
    }
  }

  /** Framing: the length field of a written record counts the octets up to the record's
      last one exactly when the data fits sixteen bits. */
  lemma RecordFraming(data: seq<byte>, pos: nat, r: ResourceRecord)
    requires At(data, pos, EncodeRecord(r))
    ensures var lengthField := pos + |EncodeName(r.name)| + 8;
      && lengthField + 2 <= |data|
      && (lengthField + 2 + U16At(data, lengthField) == pos + |EncodeRecord(r)|
          <==> |EncodeRdata(r.rdata)| < 0x1_0000)
  {
    hide U16At, EncodeName, EncodeRdata, EncodeRecord, EncodeBody;
    AtRecord(data, pos, r);
    AtFixed(data, pos + |EncodeName(r.name)|, r);
  }

  /** The character-strings of a written TXT record tile its data. */
  lemma WrittenTextsTile(data: seq<byte>, pos: nat, texts: seq<Text>)
    requires GoodTexts(texts) && At(data, pos, EncodeTexts(texts))
    ensures Tile(data, pos, pos + |EncodeTexts(texts)|)
  {
    var end := pos + |EncodeTexts(texts)|;
    GoodTextsAreRead(data, pos, end, texts, []);
    TextsEndExactly(data, pos, end, []);
  }

  /** Following the length octets from `pos` reaches a character-string that starts before
      `end` and ends outside the message. */
  ghost predicate CutOff(data: seq<byte>, pos: nat, end: nat) {
    end <= |data|
    && exists starts :: Chain(data, pos, end, starts)
         && starts[|starts| - 1] < end && starts[|starts| - 1] + 1 + data[starts[|starts| - 1]] > |data|
  }

  /** What follows the name at `p` is a TXT record, all in the message, with such a string. */
  ghost predicate CutOffBody(data: seq<byte>, p: nat) {
    && p + RECORD_FIXED <= |data| && U16At(data, p) == TXT.Code()
    && CutOff(data, p + RECORD_FIXED, p + RECORD_FIXED + U16At(data, p + 8))
  }

  /** The string loop aborts exactly when one of its strings is cut off. */
  lemma TextsAbortExactly(data: seq<byte>, pos: nat, end: nat)
    requires end <= |data|
    ensures TextsFrom(data, pos, end, []).Abort? <==> CutOff(data, pos, end)
  {
    if TextsFrom(data, pos, end, []).Abort? {
      var starts := TextsAbortFrom(data, pos, end, []);
    }
    if CutOff(data, pos, end) {
      var starts :| Chain(data, pos, end, starts)
        && starts[|starts| - 1] < end && starts[|starts| - 1] + 1 + data[starts[|starts| - 1]] > |data|;
      ChainAborts(data, pos, end, starts, []);
    }
  }

  lemma BodyAbortsExactly(data: seq<byte>, name: Text, p: nat)
    ensures ParseBody(data, name, p).Abort? <==> CutOffBody(data, p)
  {
    hide Chain, TextsFrom, ParseRdata;
    if p + RECORD_FIXED <= |data| && p + RECORD_FIXED + U16At(data, p + 8) <= |data| {
      RdataAbortsExactly(data, p + RECORD_FIXED, U16At(data, p), U16At(data, p + 8));
    }
  }

  /** The name at `pos` can be read, and a cut-off TXT record follows it. */
  ghost predicate CutOffRecord(data: seq<byte>, pos: nat) {
    ReadName(data, pos).Done? && CutOffBody(data, ReadName(data, pos).next)
  }

  /** Reading a record is aborted exactly by a cut-off character-string of a TXT record. */
  lemma RecordAbortsExactly(data: seq<byte>, pos: nat)
    ensures ParseRecord(data, pos).Abort? <==> CutOffRecord(data, pos)
  {
    hide ParseBody, CutOffBody;
    NameNeverAborts(data, pos, 0, []);
    if ReadName(data, pos).Done? {
      BodyAbortsExactly(data, ReadName(data, pos).value, ReadName(data, pos).next);
    }
  }

  /** Reading a question is never aborted. */
  lemma QuestionNeverAborts(data: seq<byte>, pos: nat)
    ensures !ParseQuestion(data, pos).Abort?
  {
    NameNeverAborts(data, pos, 0, []);
  }

  lemma RdataAbortsExactly(data: seq<byte>, pos: nat, code: u16, rdlength: nat)
    requires pos + rdlength <= |data|
    ensures ParseRdata(data, pos, QueryType.From(code), rdlength).Abort?
       <==> code == TXT.Code() && CutOff(data, pos, pos + rdlength)
  {
    hide CutOff;
    TextsAbortExactly(data, pos, pos + rdlength);
    NameNeverAborts(data, pos, 0, []);
    NameNeverAborts(data, pos + 2, 0, []);
  }

  lemma {:induction false} NameNeverAborts(data: seq<byte>, pos: nat, jumps: nat, acc: Text)
    requires jumps <= MAX_JUMPS + 1
    ensures !NameFrom(data, pos, jumps, acc).Abort?
    decreases MAX_JUMPS + 1 - jumps, |data| - pos
  {
    if jumps <= MAX_JUMPS && NameWalks.Hop(data, pos).Some? {
      NameWalks.LoopHop(data, pos, jumps, acc);
      var next := NameWalks.Hop(data, pos).value;
      if data[pos] > MAX_LABEL {
        NameNeverAborts(data, next, jumps + 1, acc);
      } else {
        NameNeverAborts(data, next, jumps, Glue(acc, Lower(data[pos + 1..next])));
      }
    }
  }

  // ----- Records that come out of the parser -----

  /** What a parsed record can still have that cannot be written: names with empty
      labels, texts that grew in replacement decoding, exchanges of 64 KiB. */
  predicate CleanRdata(rdata: ResourceData) {
    match rdata
    case CNAMEData(cname) => CleanName(cname)
    case MXData(_, exchange) => CleanName(exchange) && Cut16(|EncodeRdata(rdata)|) >= 3
    case TXTData(texts) => |EncodeTexts(texts)| < 0x1_0000 && forall i | 0 <= i < |texts| :: |texts[i]| <= 255
    case _ => true
  }

  predicate CleanRecord(r: ResourceRecord) {
    CleanName(r.name) && CleanRdata(r.rdata)
  }

  predicate CleanQuestion(q: Question) {
    CleanName(q.name)
  }

  lemma ParsedQuestion(data: seq<byte>, pos: nat)
    requires ParseQuestion(data, pos).Done?
    ensures var q := ParseQuestion(data, pos).value;
      Lower(q.name) == q.name && (GoodQuestion(q) <==> CleanQuestion(q))
  {
    DecodedName(data, pos);
    var p := ReadName(data, pos).next;
    FromIsCanonical(U16At(data, p));
    FromIsCanonical(U16At(data, p + 2));
  }

  predicate ValidTexts(texts: seq<Text>) {
    forall i | 0 <= i < |texts| :: Utf8.Valid(texts[i])
  }

  lemma {:induction false} ParsedTexts(data: seq<byte>, pos: nat, end: nat, acc: seq<Text>)
    requires TextsFrom(data, pos, end, acc).Done? && ValidTexts(acc)
    ensures ValidTexts(TextsFrom(data, pos, end, acc).value)
    decreases end - pos
  {
    if pos < end {
      var next := pos + 1 + data[pos];
      Utf8.LossyIsValid(data[pos + 1..next]);
      ParsedTexts(data, next, end, acc + [Utf8.Lossy(data[pos + 1..next])]);
    }
  }

  lemma {:induction false} GoodTextsFromParts(texts: seq<Text>)
    requires ValidTexts(texts)
    ensures GoodTexts(texts) <==> forall i | 0 <= i < |texts| :: |texts[i]| <= 255
  {
    if texts != [] {
      var rest := texts[1..];
      assert forall i | 0 <= i < |rest| :: rest[i] == texts[i + 1];
      assert forall i | 1 <= i < |texts| :: texts[i] == rest[i - 1];
      GoodTextsFromParts(rest);
    }
  }

  lemma ParsedRdata(data: seq<byte>, pos: nat, rtype: QueryType, rdlength: nat)
    requires pos + rdlength <= |data| && rdlength < 0x1_0000
    requires ParseRdata(data, pos, rtype, rdlength).Done?
    ensures var rdata := ParseRdata(data, pos, rtype, rdlength).value; GoodRdata(rtype, rdata) <==> CleanRdata(rdata)
  {
    var rdata := ParseRdata(data, pos, rtype, rdlength).value;
    match rdata {
      case CNAMEData(cname) => DecodedName(data, pos);
      case MXData(_, exchange) => DecodedName(data, pos + 2);
      case TXTData(texts) =>
        ParsedTexts(data, pos, pos + rdlength, []);
        GoodTextsFromParts(texts);
      case _ =>
    }
  }

  /** What the parser returns has canonical codes and data that agrees with its type, so
      it survives being written exactly when it is clean. */
  lemma ParsedRecord(data: seq<byte>, pos: nat)
    requires ParseRecord(data, pos).Done?
    ensures var r := ParseRecord(data, pos).value; GoodRecord(r) <==> CleanRecord(r)
  {
    DecodedName(data, pos);
    var p := ReadName(data, pos).next;
    FromIsCanonical(U16At(data, p));
    FromIsCanonical(U16At(data, p + 2));
    ParsedRdata(data, p + RECORD_FIXED, QueryType.From(U16At(data, p)), U16At(data, p + 8));
  }
}
