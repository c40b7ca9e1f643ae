/** Questions and records by the octets they are read from: the numbers of types and classes
    (sections 3.2.2 to 3.2.5 of RFC 1035, and 28 of RFC 3596), and what each type's data gives. */
module RecordOctets {
  import opened Bytes
  import opened Wire
  import opened Names
  import opened Records
  import opened RecordRoundTrip
  import NameRoundTrip
  import Numbers
  import Utf8

  /** The types that have names, by number; every other number is kept as it is. */
  predicate TypeNumber(t: QueryType, n: u16) {
    match n
    case 1 => t == A
    case 2 => t == NS
    case 5 => t == CNAME
    case 6 => t == SOA
    case 12 => t == PTR
    case 15 => t == MX
    case 16 => t == TXT
    case 28 => t == AAAA
    case 255 => t == ANY
    case _ => t == Unknown(n)
  }

  predicate ClassNumber(c: QueryClass, n: u16) {
    c == if n == 1 then IN else UnknownClass(n)
  }

  lemma TypesAreRead(n: u16)
    ensures TypeNumber(QueryType.From(n), n) && ClassNumber(QueryClass.From(n), n)
  {
  }

  lemma TypesAreWritten(t: QueryType, c: QueryClass)
    ensures TypeNumber(t, t.Code()) || t == Unknown(t.Code())
    ensures ClassNumber(c, c.Code()) || c == UnknownClass(c.Code())
  {
  }

  /** A question is a name, and the numbers of its type and its class in the next four octets. */
  lemma QuestionByOctets(data: seq<byte>, pos: nat)
    ensures ParseQuestion(data, pos).Done?
       <==> ReadName(data, pos).Done? && ReadName(data, pos).next + 4 <= |data|
    ensures ReadName(data, pos).Fail? ==> ParseQuestion(data, pos) == Fail(ReadName(data, pos).error)
    ensures ReadName(data, pos).Done? && !ParseQuestion(data, pos).Done? ==>
              ParseQuestion(data, pos) == Fail(BufferTooShort(QuestionFixed))
    ensures ParseQuestion(data, pos).Done? ==>
              var q, p := ParseQuestion(data, pos).value, ReadName(data, pos).next;
              && q.name == ReadName(data, pos).value && ParseQuestion(data, pos).next == p + 4
              && TypeNumber(q.qtype, U16At(data, p)) && ClassNumber(q.qclass, U16At(data, p + 2))
  {
    hide U16At;
    NameNeverAborts(data, pos, 0, []);
    if ParseQuestion(data, pos).Done? {
      var p := ReadName(data, pos).next;
      TypesAreRead(U16At(data, p));
      TypesAreRead(U16At(data, p + 2));
    }
  }

  /** The data of a record, by the number of its type and its length: `from` is where it
      starts, and only A, AAAA and uninterpreted data end where the length says. */
  ghost predicate DataByNumber(data: seq<byte>, from: nat, number: u16, length: nat, r: Parsed<ResourceData>)
    requires from + length <= |data|
  {
    if number == 1 && length == 4 then r == Done(AData(data[from..from + 4]), from + 4)
    else if number == 28 && length == 16 then r == Done(AAAAData(data[from..from + 16]), from + 16)
    else if number == 5 then
      match ReadName(data, from)
      case Done(name, next) => r == Done(CNAMEData(name), next)
      case Fail(e) => r == Fail(e)
      case Abort => false
    else if number == 15 && length >= 3 then
      match ReadName(data, from + 2)
      case Done(name, next) => r == Done(MXData(data[from] as int * 256 + data[from + 1] as int, name), next)
      case Fail(e) => r == Fail(e)
      case Abort => false
    else if number == 16 then
      match r
      case Done(value, next) =>
        exists starts: seq<nat> :: Strings(data, from, from + length, starts, next)
          && value == TXTData(DecodedStrings(data, starts))
      case Fail(_) => false
      case Abort => CutOff(data, from, from + length)
    else r == Done(RawData(data[from..from + length]), from + length)
  }

  /** Character-strings one behind the other from `pos` on, each inside the message and
      starting before `end`, until `next`, which is not before `end`. */
  ghost predicate Strings(data: seq<byte>, pos: nat, end: nat, starts: seq<nat>, next: nat)
    decreases |starts|
  {
    if starts == [] then pos >= end && next == pos
    else
      && starts[0] == pos < end && pos < |data| && pos + 1 + data[pos] <= |data|
      && Strings(data, pos + 1 + data[pos], end, starts[1..], next)
  }

  /** Their texts; what is not valid UTF-8 in them is replaced. */
  ghost function DecodedStrings(data: seq<byte>, starts: seq<nat>): seq<Text> {
    if starts == [] then []
    else
      var s := starts[0];
      (if s < |data| && s + 1 + data[s] <= |data| then [Utf8.Lossy(data[s + 1..s + 1 + data[s]])] else [])
      + DecodedStrings(data, starts[1..])
  }

  lemma {:induction false} TextsAreStrings(data: seq<byte>, pos: nat, end: nat, acc: seq<Text>)
    returns (starts: seq<nat>)
    requires TextsFrom(data, pos, end, acc).Done?
    ensures Strings(data, pos, end, starts, TextsFrom(data, pos, end, acc).next)
    ensures TextsFrom(data, pos, end, acc).value == acc + DecodedStrings(data, starts)
    decreases end - pos
  {
    hide Utf8.Lossy;
    if pos >= end {
      starts := [];
      assert acc + [] == acc;
    } else {
      var next := pos + 1 + data[pos];
      var text := Utf8.Lossy(data[pos + 1..next]);
      var rest := TextsAreStrings(data, next, end, acc + [text]);
      starts := [pos] + rest;
      StringsCons(data, pos, end, rest, TextsFrom(data, pos, end, acc).next);
      assert acc + [text] + DecodedStrings(data, rest) == acc + ([text] + DecodedStrings(data, rest));
    }
  }

  lemma StringsCons(data: seq<byte>, pos: nat, end: nat, rest: seq<nat>, next: nat)
    requires pos < end && pos < |data| && pos + 1 + data[pos] <= |data|
    requires Strings(data, pos + 1 + data[pos], end, rest, next)
    ensures Strings(data, pos, end, [pos] + rest, next)
    ensures DecodedStrings(data, [pos] + rest)
         == [Utf8.Lossy(data[pos + 1..pos + 1 + data[pos]])] + DecodedStrings(data, rest)
  {
    hide Utf8.Lossy;
    assert ([pos] + rest)[1..] == rest;
  }

  lemma {:induction false} TextsNeverFail(data: seq<byte>, pos: nat, end: nat, acc: seq<Text>)
    ensures !TextsFrom(data, pos, end, acc).Fail?
    decreases end - pos
  {
    if pos < end && pos < |data| && pos + 1 + data[pos] <= |data| {
      var next := pos + 1 + data[pos];
      TextsNeverFail(data, next, end, acc + [Utf8.Lossy(data[pos + 1..next])]);
    }
  }

  lemma TextDataByNumber(data: seq<byte>, from: nat, length: nat)
    requires from + length <= |data|
    ensures DataByNumber(data, from, 16, length, ParseRdata(data, from, TXT, length))
  {
    hide CutOff, TextsFrom, DecodedStrings, Strings;
    TextsNeverFail(data, from, from + length, []);
    TextsAbortExactly(data, from, from + length);
    if TextsFrom(data, from, from + length, []).Done? {
      var starts := TextsAreStrings(data, from, from + length, []);
      assert [] + DecodedStrings(data, starts) == DecodedStrings(data, starts);
    }
  }

  lemma DataIsByNumber(data: seq<byte>, from: nat, number: u16, length: nat)
    requires from + length <= |data|
    ensures DataByNumber(data, from, number, length, ParseRdata(data, from, QueryType.From(number), length))
  {
    hide CutOff, TextsFrom, DecodedStrings, Strings, ReadName;
    if number == 16 {
      TextDataByNumber(data, from, length);
    } else if number == 5 {
      NoAbort(data, from);
    } else if number == 15 && length >= 3 {
      NoAbort(data, from + 2);
    }
  }

  lemma NoAbort(data: seq<byte>, pos: nat)
    ensures !ReadName(data, pos).Abort?
  {
    NameNeverAborts(data, pos, 0, []);
  }

  /** A record is a name, ten octets, and as many octets of data as the last two of them say;
      what the data is read as depends on the number of the type alone. */
  lemma RecordByOctets(data: seq<byte>, pos: nat)
    ensures ReadName(data, pos).Fail? ==> ParseRecord(data, pos) == Fail(ReadName(data, pos).error)
    ensures ReadName(data, pos).Done? ==>
              var p := ReadName(data, pos).next;
              if p + 10 > |data| then ParseRecord(data, pos) == Fail(BufferTooShort(RecordFixed))
              else if p + 10 + U16At(data, p + 8) > |data| then ParseRecord(data, pos) == Fail(BufferTooShort(Rdata))
              else
                var d := ParseRdata(data, p + 10, QueryType.From(U16At(data, p)), U16At(data, p + 8));
                && DataByNumber(data, p + 10, U16At(data, p), U16At(data, p + 8), d)
                && match d
                   case Fail(e) => ParseRecord(data, pos) == Fail(e)
                   case Abort => ParseRecord(data, pos) == Abort
                   case Done(rdata, next) =>
                     && ParseRecord(data, pos).Done? && ParseRecord(data, pos).next == next
                     && var r := ParseRecord(data, pos).value;
                     && r.name == ReadName(data, pos).value && r.ttl == U32At(data, p + 4) && r.rdata == rdata
                     && TypeNumber(r.rtype, U16At(data, p)) && ClassNumber(r.rclass, U16At(data, p + 2))
  {
    hide U16At, U32At, ReadName, ParseRdata, DataByNumber;
    if ReadName(data, pos).Done? {
      var p := ReadName(data, pos).next;
      if p + 10 <= |data| && p + 10 + U16At(data, p + 8) <= |data| {
        DataIsByNumber(data, p + 10, U16At(data, p), U16At(data, p + 8));
        TypesAreRead(U16At(data, p));
        TypesAreRead(U16At(data, p + 2));
      }
    }
  }

  // ----- What is written, of every value -----

  lemma DotGoes(n: Text)
    ensures EncodeName(n + [46]) == EncodeName(n)
  {
    assert (n + [46])[..|n|] == n;
    assert TrimDots(n + [46]) == TrimDots(n);
  }

  lemma OneLabelOctets(part: Text)
    requires 46 !in part && part != []
    ensures EncodeName(part) == [|part| % 256] + part + [0]
  {
    hide IndexOf, Split, Cut8;
    NoDotIn(part);
    NameRoundTrip.OneLabel(part);
    Numbers.Cut8IsRemainder(|part|);
    assert TrimDots(part) == part;
    assert ([part] + [])[1..] == [];
    assert EncodeLabels([part] + []) == EncodeLabel(part) + [];
  }

  lemma FirstLabelOctets(part: Text, rest: Text)
    requires 46 !in part && rest != [] && rest[|rest| - 1] != 46
    ensures EncodeName(part + [46] + rest) == [|part| % 256] + part + EncodeName(rest)
  {
    hide IndexOf, Split, Cut8;
    var n := part + [46] + rest;
    NoDotIn(part);
    IndexOfBeforeConcat(part, 46, rest);
    NameRoundTrip.SplitFromFirst(n, part, rest);
    Numbers.Cut8IsRemainder(|part|);
    assert n[|n| - 1] == rest[|rest| - 1];
    assert TrimDots(n) == n && TrimDots(rest) == rest;
    assert ([part] + Split(rest))[1..] == Split(rest);
    assert EncodeLabel(part) + EncodeLabels(Split(rest)) + [0]
        == EncodeLabel(part) + (EncodeLabels(Split(rest)) + [0]);
  }

  /** A name is written label by label, each behind its length in eight bits, with a zero
      octet at the end; dots at the end of the name do not count. */
  lemma NameOctets(part: Text, rest: Text)
    requires 46 !in part
    ensures EncodeName([]) == [0] && EncodeName(rest + [46]) == EncodeName(rest)
    ensures part != [] ==> EncodeName(part) == [|part| % 256] + part + [0]
    ensures rest != [] && rest[|rest| - 1] != 46 ==>
              EncodeName(part + [46] + rest) == [|part| % 256] + part + EncodeName(rest)
  {
    assert EncodeName([]) == [0];
    hide EncodeName;
    DotGoes(rest);
    if part != [] {
      OneLabelOctets(part);
    }
    if rest != [] && rest[|rest| - 1] != 46 {
      FirstLabelOctets(part, rest);
    }
  }

  lemma NoDotIn(part: Text)
    requires 46 !in part
    ensures IndexOf(part, 46) == |part|
  {
  }

  /** The data that is written: addresses and uninterpreted octets as they are, names as
      names, a preference in two octets, and texts each behind its length in eight bits. */
  lemma DataOctets(rdata: ResourceData)
    ensures match rdata
            case AData(ip) => EncodeRdata(rdata) == ip
            case AAAAData(ip) => EncodeRdata(rdata) == ip
            case CNAMEData(name) => EncodeRdata(rdata) == EncodeName(name)
            case MXData(preference, name) =>
              EncodeRdata(rdata) == [preference / 256, preference % 256] + EncodeName(name)
            case TXTData(texts) =>
              if texts == [] then EncodeRdata(rdata) == []
              else EncodeRdata(rdata)
                   == [|texts[0]| % 256] + texts[0] + EncodeRdata(TXTData(texts[1..]))
            case RawData(raw) => EncodeRdata(rdata) == raw
  {
    hide EncodeName, Cut8;
    if rdata.TXTData? && rdata.texts != [] {
      Numbers.Cut8IsRemainder(|rdata.texts[0]|);
    }
  }
}
