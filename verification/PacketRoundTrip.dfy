/** Messages written and read back, and messages read, written and read again. */
module PacketRoundTrip {
  import opened Bytes
  import opened Wire
  import opened Records
  import opened RecordRoundTrip
  import opened Sections
  import opened Packets
  import opened Names
  import Headers

  /** Each section has at most 65535 entries and every entry survives by itself. */
  predicate GoodPacket(p: Packet) {
    && |p.questions| < 0x1_0000 && |p.answers| < 0x1_0000
    && |p.authorities| < 0x1_0000 && |p.additionals| < 0x1_0000
    && All(p.questions, GoodQuestion) && All(p.answers, GoodRecord)
    && All(p.authorities, GoodRecord) && All(p.additionals, GoodRecord)
  }

  lemma GoodQuestionsAreRead(data: seq<byte>, pos: nat, qs: seq<Question>)
    requires All(qs, GoodQuestion) && At(data, pos, EncodeAll(qs, EncodeQuestion))
    ensures ParseAll(data, pos, |qs|, ParseQuestion, []) == Done(qs, pos + |EncodeAll(qs, EncodeQuestion)|)
  {
    hide GoodQuestion, EncodeQuestion, ParseQuestion;
    forall q, p: nat | GoodQuestion(q) && At(data, p, EncodeQuestion(q))
      ensures ParseQuestion(data, p) == Done(q, p + |EncodeQuestion(q)|)
    {
      GoodQuestionIsRead(data, p, q);
    }
    GoodListIsRead(data, pos, qs, [], EncodeQuestion, ParseQuestion, GoodQuestion);
    assert [] + qs == qs;
  }

  lemma GoodRecordsAreRead(data: seq<byte>, pos: nat, rs: seq<ResourceRecord>)
    requires All(rs, GoodRecord) && At(data, pos, EncodeAll(rs, EncodeRecord))
    ensures ParseAll(data, pos, |rs|, ParseRecord, []) == Done(rs, pos + |EncodeAll(rs, EncodeRecord)|)
  {
    hide GoodRecord, EncodeRecord, ParseRecord;
    forall r, p: nat | GoodRecord(r) && At(data, p, EncodeRecord(r))
      ensures ParseRecord(data, p) == Done(r, p + |EncodeRecord(r)|)
    {
      GoodRecordIsRead(data, p, r);
    }
    GoodListIsRead(data, pos, rs, [], EncodeRecord, ParseRecord, GoodRecord);
    assert [] + rs == rs;
  }

  lemma SectionsAreRead(data: seq<byte>, pos: nat, p: Packet)
    requires GoodPacket(p) && At(data, pos, EncodeSections(p))
    ensures ParseSections(data, WithCounts(p).header, pos) == Done(WithCounts(p), pos + |EncodeSections(p)|)
  {
    hide EncodeAll, ParseAll, All;
    var qs, an := EncodeAll(p.questions, EncodeQuestion), EncodeAll(p.answers, EncodeRecord);
    var ns, ar := EncodeAll(p.authorities, EncodeRecord), EncodeAll(p.additionals, EncodeRecord);
    var p1 := pos + |qs|;
    var p2 := p1 + |an|;
    AtSplit(data, pos, qs, an + (ns + ar));
    AtSplit(data, p1, an, ns + ar);
    AtSplit(data, p2, ns, ar);
    GoodQuestionsAreRead(data, pos, p.questions);
    GoodRecordsAreRead(data, p1, p.answers);
    GoodRecordsAreRead(data, p2, p.authorities);
    GoodRecordsAreRead(data, p2 + |ns|, p.additionals);
  }

  /** A good packet, written with anything behind it, is read back with its four counts set
      to the section lengths, and reading stops at its end. */
  lemma PacketIsRead(data: seq<byte>, p: Packet)
    requires GoodPacket(p) && Encode(p) <= data
    ensures ParsePacket(data) == Done(WithCounts(p), |Encode(p)|)
  {
    hide EncodeSections, ParseSections, GoodPacket, Headers.ParseHeader, Headers.EncodeHeader;
    AtHeaderAndSections(data, p);
    SectionsAreRead(data, Headers.HEADER_LENGTH, p);
  }

  lemma AtHeaderAndSections(data: seq<byte>, p: Packet)
    requires Encode(p) <= data
    ensures Headers.ParseHeader(data, 0) == Done(WithCounts(p).header, Headers.HEADER_LENGTH)
    ensures At(data, Headers.HEADER_LENGTH, EncodeSections(p))
    ensures |Encode(p)| == Headers.HEADER_LENGTH + |EncodeSections(p)|
  {
    hide EncodeSections, Headers.ParseHeader, Headers.EncodeHeader;
    var h := WithCounts(p).header;
    assert At(data, 0, Encode(p));
    AtSplit(data, 0, Headers.EncodeHeader(h), EncodeSections(p));
    Headers.HeaderIsRead(data, 0, h);
  }

  // ----- Counts -----

  lemma SectionLengths(data: seq<byte>, h: Headers.Header, pos: nat)
    requires ParseSections(data, h, pos).Done?
    ensures var p := ParseSections(data, h, pos).value;
      && p.header == h && |p.questions| == h.qdcount && |p.answers| == h.ancount
      && |p.authorities| == h.nscount && |p.additionals| == h.arcount
  {
    hide ParseAll;
    var qs := ParseAll(data, pos, h.qdcount, ParseQuestion, []);
    var an := ParseAll(data, qs.next, h.ancount, ParseRecord, []);
    var ns := ParseAll(data, an.next, h.nscount, ParseRecord, []);
    ParsedLength(data, pos, h.qdcount, ParseQuestion, []);
    ParsedLength(data, qs.next, h.ancount, ParseRecord, []);
    ParsedLength(data, an.next, h.nscount, ParseRecord, []);
    ParsedLength(data, ns.next, h.arcount, ParseRecord, []);
  }

  /** What the parser returns already has the counts that would be written. */
  lemma ParsedCounts(data: seq<byte>)
    requires Decode(data).Ok?
    ensures var p := Decode(data).value;
      && WithCounts(p) == p && |p.questions| < 0x1_0000 && |p.answers| < 0x1_0000
      && |p.authorities| < 0x1_0000 && |p.additionals| < 0x1_0000
  {
    hide ParseSections, Headers.ParseHeader;
    var h := Headers.ParseHeader(data, 0);
    SectionLengths(data, h.value, h.next);
  }

  // ----- Other packets are not read back -----

  lemma OnlyGoodQuestionsSurvive(data: seq<byte>, pos: nat, qs: seq<Question>)
    requires At(data, pos, EncodeAll(qs, EncodeQuestion)) && ParseAll(data, pos, |qs|, ParseQuestion, []).Done?
    requires ParseAll(data, pos, |qs|, ParseQuestion, []).value == qs
    ensures All(qs, GoodQuestion)
    ensures ParseAll(data, pos, |qs|, ParseQuestion, []).next == pos + |EncodeAll(qs, EncodeQuestion)|
  {
    hide GoodQuestion, EncodeQuestion, ParseQuestion;
    forall q, p: nat
      | At(data, p, EncodeQuestion(q)) && ParseQuestion(data, p).Done? && ParseQuestion(data, p).value == q
      ensures GoodQuestion(q) && ParseQuestion(data, p).next == p + |EncodeQuestion(q)|
    {
      QuestionSurvivesExactly(data, p, q);
    }
    assert [] + qs == qs;
    OnlyGoodListSurvives(data, pos, qs, [], EncodeQuestion, ParseQuestion, GoodQuestion);
    GoodQuestionsAreRead(data, pos, qs);
  }

  lemma OnlyGoodRecordsSurvive(data: seq<byte>, pos: nat, rs: seq<ResourceRecord>)
    requires At(data, pos, EncodeAll(rs, EncodeRecord)) && ParseAll(data, pos, |rs|, ParseRecord, []).Done?
    requires ParseAll(data, pos, |rs|, ParseRecord, []).value == rs
    ensures All(rs, GoodRecord)
    ensures ParseAll(data, pos, |rs|, ParseRecord, []).next == pos + |EncodeAll(rs, EncodeRecord)|
  {
    hide GoodRecord, EncodeRecord, ParseRecord;
    forall r, p: nat | At(data, p, EncodeRecord(r)) && ParseRecord(data, p).Done? && ParseRecord(data, p).value == r
      ensures GoodRecord(r) && ParseRecord(data, p).next == p + |EncodeRecord(r)|
    {
      RecordSurvivesExactly(data, p, r);
    }
    assert [] + rs == rs;
    OnlyGoodListSurvives(data, pos, rs, [], EncodeRecord, ParseRecord, GoodRecord);
    GoodRecordsAreRead(data, pos, rs);
  }

  lemma OnlyGoodSectionsSurvive(data: seq<byte>, pos: nat, p: Packet)
    requires |p.questions| < 0x1_0000 && |p.answers| < 0x1_0000
    requires |p.authorities| < 0x1_0000 && |p.additionals| < 0x1_0000
    requires At(data, pos, EncodeSections(p)) && ParseSections(data, WithCounts(p).header, pos).Done?
    requires ParseSections(data, WithCounts(p).header, pos).value == WithCounts(p)
    ensures GoodPacket(p)
  {
    hide EncodeAll, ParseAll, All, Cut16;
    var qs, an := EncodeAll(p.questions, EncodeQuestion), EncodeAll(p.answers, EncodeRecord);
    var ns, ar := EncodeAll(p.authorities, EncodeRecord), EncodeAll(p.additionals, EncodeRecord);
    var p1 := pos + |qs|;
    var p2 := p1 + |an|;
    AtSplit(data, pos, qs, an + (ns + ar));
    AtSplit(data, p1, an, ns + ar);
    AtSplit(data, p2, ns, ar);
    OnlyGoodQuestionsSurvive(data, pos, p.questions);
    OnlyGoodRecordsSurvive(data, p1, p.answers);
    OnlyGoodRecordsSurvive(data, p2, p.authorities);
    OnlyGoodRecordsSurvive(data, p2 + |ns|, p.additionals);
  }

  /** A packet with a section over 65535 entries is never read back: its count is cut. */
  lemma OversizeIsLost(data: seq<byte>, p: Packet)
    requires Encode(p) <= data && ParsePacket(data).Done? && ParsePacket(data).value == WithCounts(p)
    ensures |p.questions| < 0x1_0000 && |p.answers| < 0x1_0000
    ensures |p.authorities| < 0x1_0000 && |p.additionals| < 0x1_0000
  {
    hide Encode, ParseSections, Headers.ParseHeader, Cut16;
    AtHeaderAndSections(data, p);
    SectionLengths(data, WithCounts(p).header, Headers.HEADER_LENGTH);
  }

  /** Main result on packets: what was written for a packet, with anything behind it, is
      read back, the four counts set to the section lengths, exactly when the packet is
      good, and reading then stops at its end. */
  lemma PacketSurvivesExactly(data: seq<byte>, p: Packet)
    requires Encode(p) <= data
    ensures GoodPacket(p) <==> ParsePacket(data) == Done(WithCounts(p), |Encode(p)|)
    ensures GoodPacket(p) <==> ParsePacket(data).Done? && ParsePacket(data).value == WithCounts(p)
  {
    hide GoodPacket, Encode, EncodeSections, ParseSections, WithCounts, Headers.ParseHeader;
    if GoodPacket(p) {
      PacketIsRead(data, p);
    } else if ParsePacket(data).Done? && ParsePacket(data).value == WithCounts(p) {
      AtHeaderAndSections(data, p);
      OversizeIsLost(data, p);
      OnlyGoodSectionsSurvive(data, Headers.HEADER_LENGTH, p);
    }
  }

  /** Writing a packet and parsing the result gives the packet with its counts exactly when
      the packet is good. */
  lemma PacketRoundTrip(p: Packet)
    ensures GoodPacket(p) <==> Decode(Encode(p)) == Ok(WithCounts(p))
  {
    hide ParsePacket, Encode, GoodPacket;
    PacketSurvivesExactly(Encode(p), p);
  }

  // ----- Packets that come out of the parser -----

  /** No name shows an empty label and every text fits its length field. */
  predicate CleanPacket(p: Packet) {
    && All(p.questions, CleanQuestion) && All(p.answers, CleanRecord)
    && All(p.authorities, CleanRecord) && All(p.additionals, CleanRecord)
  }

  lemma ParsedQuestionsAreSound(data: seq<byte>, pos: nat, n: nat)
    requires ParseAll(data, pos, n, ParseQuestion, []).Done?
    ensures var qs := ParseAll(data, pos, n, ParseQuestion, []).value;
      All(qs, GoodQuestion) <==> All(qs, CleanQuestion)
  {
    hide GoodQuestion, CleanQuestion, ParseQuestion;
    var sound := (q: Question) => GoodQuestion(q) == CleanQuestion(q);
    forall p: nat | ParseQuestion(data, p).Done? ensures sound(ParseQuestion(data, p).value) {
      ParsedQuestion(data, p);
    }
    ParsedAll(data, pos, n, ParseQuestion, [], sound);
    AllSame(ParseAll(data, pos, n, ParseQuestion, []).value, sound, GoodQuestion, CleanQuestion);
  }

  lemma ParsedRecordsAreSound(data: seq<byte>, pos: nat, n: nat)
    requires ParseAll(data, pos, n, ParseRecord, []).Done?
    ensures var rs := ParseAll(data, pos, n, ParseRecord, []).value;
      All(rs, GoodRecord) <==> All(rs, CleanRecord)
  {
    hide GoodRecord, CleanRecord, ParseRecord;
    var sound := (r: ResourceRecord) => GoodRecord(r) == CleanRecord(r);
    forall p: nat | ParseRecord(data, p).Done? ensures sound(ParseRecord(data, p).value) {
      ParsedRecord(data, p);
    }
    ParsedAll(data, pos, n, ParseRecord, [], sound);
    AllSame(ParseAll(data, pos, n, ParseRecord, []).value, sound, GoodRecord, CleanRecord);
  }

  lemma ParsedSections(data: seq<byte>, h: Headers.Header, pos: nat)
    requires ParseSections(data, h, pos).Done?
    ensures var p := ParseSections(data, h, pos).value;
      && (All(p.questions, GoodQuestion) <==> All(p.questions, CleanQuestion))
      && (All(p.answers, GoodRecord) <==> All(p.answers, CleanRecord))
      && (All(p.authorities, GoodRecord) <==> All(p.authorities, CleanRecord))
      && (All(p.additionals, GoodRecord) <==> All(p.additionals, CleanRecord))
  {
    hide ParseAll, All;
    var qs := ParseAll(data, pos, h.qdcount, ParseQuestion, []);
    var an := ParseAll(data, qs.next, h.ancount, ParseRecord, []);
    var ns := ParseAll(data, an.next, h.nscount, ParseRecord, []);
    ParsedQuestionsAreSound(data, pos, h.qdcount);
    ParsedRecordsAreSound(data, qs.next, h.ancount);
    ParsedRecordsAreSound(data, an.next, h.nscount);
    ParsedRecordsAreSound(data, ns.next, h.arcount);
  }

  /** A packet that came out of the parser is good exactly when it is clean. */
  lemma ParsedPacket(data: seq<byte>)
    requires Decode(data).Ok?
    ensures var p := Decode(data).value; GoodPacket(p) <==> CleanPacket(p)
  {
    hide ParseSections, Headers.ParseHeader, All;
    var h := Headers.ParseHeader(data, 0);
    ParsedCounts(data);
    ParsedSections(data, h.value, h.next);
  }

  /** Stability: what came out of the parser, from compressed input too, is written and
      read back as the very same packet exactly when it is clean. */
  lemma DecodeEncodeDecode(data: seq<byte>)
    requires Decode(data).Ok?
    ensures var p := Decode(data).value; CleanPacket(p) <==> Decode(Encode(p)) == Ok(p)
  {
    hide Encode, CleanPacket, GoodPacket;
    var p := Decode(data).value;
    ParsedPacket(data);
    PacketRoundTrip(p);
    ParsedCounts(data);
  }

  lemma ParsedQuestionsAreLower(data: seq<byte>, pos: nat, n: nat)
    requires ParseAll(data, pos, n, ParseQuestion, []).Done?
    ensures All(ParseAll(data, pos, n, ParseQuestion, []).value, (q: Question) => Lower(q.name) == q.name)
  {
    hide ParseQuestion;
    var lower := (q: Question) => Lower(q.name) == q.name;
    forall p: nat | ParseQuestion(data, p).Done? ensures lower(ParseQuestion(data, p).value) {
      ParsedQuestion(data, p);
    }
    ParsedAll(data, pos, n, ParseQuestion, [], lower);
  }

  /** The name that a parsed message asks for first is in lower case already. */
  lemma FirstNameIsLower(data: seq<byte>)
    requires Decode(data).Ok? && Decode(data).value.questions != []
    ensures Lower(Decode(data).value.questions[0].name) == Decode(data).value.questions[0].name
  {
    hide Headers.ParseHeader, ParseAll;
    var h := Headers.ParseHeader(data, 0);
    ParsedQuestionsAreLower(data, h.next, h.value.qdcount);
  }

  // ----- The blocked response -----

  /** The blocked reply is good exactly when the query is and the answers still fit their count. */
  lemma BlockedIsGoodExactly(p: Packet, useNxdomain: bool)
    ensures GoodPacket(Blocked(p, useNxdomain))
       <==> GoodPacket(p) && |Blocked(p, useNxdomain).answers| < 0x1_0000
  {
    hide GoodRecord, GoodQuestion;
    if AddsAddress(p, useNxdomain) {
      var zero := ZeroAddress(p.questions[0].name);
      if GoodPacket(p) {
        assert GoodRecord(zero) by { ZeroAddressIsGood(p.questions[0]); }
        AllSnoc(p.answers, zero, GoodRecord);
      }
      if GoodPacket(Blocked(p, useNxdomain)) {
        AllFront(p.answers, [zero], GoodRecord);
      }
    } else {
      assert p.answers + [] == p.answers;
    }
  }

  lemma ZeroAddressIsGood(q: Question)
    requires GoodQuestion(q)
    ensures GoodRecord(ZeroAddress(q.name))
  {
  }

  /** The reply to a blocked query is read back by the client exactly when the query is clean
      and leaves room for the answer that address mode adds.  The client then finds the query's
      own header, but for the response flag, the code and the count of answers, the query's
      question and records, and in address mode one more answer, 0.0.0.0 for ten seconds, when
      an address was asked for. */
  lemma BlockedReplyIsRead(query: seq<byte>, useNxdomain: bool)
    requires Decode(query).Ok?
    ensures var p := Decode(query).value;
      var b := Blocked(p, useNxdomain);
      var r := Decode(Encode(b));
      && (r == Ok(WithCounts(b)) <==> CleanPacket(p) && (AddsAddress(p, useNxdomain) ==> |p.answers| < 0xFFFF))
      && (r == Ok(WithCounts(b)) ==>
            && r.value.header == p.header.(
                                   isResponse := true,
                                   rcode := if useNxdomain then Headers.NXDomain else Headers.NoError,
                                   ancount := Cut16(|r.value.answers|))
            && r.value.questions == p.questions
            && r.value.answers == p.answers + (if !useNxdomain && p.questions != [] && p.questions[0].qtype == A then
                                                 [ResourceRecord(p.questions[0].name, A, IN, 10, AData([0, 0, 0, 0]))]
                                               else [])
            && r.value.authorities == p.authorities && r.value.additionals == p.additionals)
  {
    hide Encode, Decode, CleanPacket, GoodPacket;
    var p := Decode(query).value;
    ParsedPacket(query);
    ParsedCounts(query);
    BlockedIsGoodExactly(p, useNxdomain);
    PacketRoundTrip(Blocked(p, useNxdomain));
  }

  /** The id of a message is its first two octets, whether it is read or written. */
  lemma IdIsFirst(data: seq<byte>, p: Packet)
    ensures |Encode(p)| >= 2 && U16At(Encode(p), 0) == p.header.id
    ensures Decode(data).Ok? ==> |data| >= 2 && U16At(data, 0) == Decode(data).value.header.id
  {
    hide EncodeSections, ParseAll, Headers.EncodeHeader;
    AtWhole(Encode(p));
    AtSplit(Encode(p), 0, Headers.EncodeHeader(WithCounts(p).header), EncodeSections(p));
    Headers.AtHeader(Encode(p), 0, WithCounts(p).header);
  }

  // ----- Messages that abort the parser -----

  /** The three record sections of a message are one list of records; entry `k` of it is
      reached and is cut off. */
  ghost predicate CutOffAt(data: seq<byte>, pos: nat, k: nat) {
    && StartOf(data, pos, k, ParseRecord).Some?
    && CutOffRecord(data, StartOf(data, pos, k, ParseRecord).value)
  }

  /** The header and the questions can be read, and one of the announced records is reached
      and is a TXT record with a character-string that ends outside the message. */
  ghost predicate CutOffMessage(data: seq<byte>) {
    && Headers.HEADER_LENGTH <= |data|
    && var h := Headers.ParseHeader(data, 0).value;
    && var records := StartOf(data, Headers.HEADER_LENGTH, h.qdcount, ParseQuestion);
    && records.Some?
    && exists k: nat | k < h.ancount + h.nscount + h.arcount :: CutOffAt(data, records.value, k)
  }

  lemma QuestionsNeverAbort(data: seq<byte>, pos: nat, n: nat)
    ensures !ParseAll(data, pos, n, ParseQuestion, []).Abort?
  {
    hide ParseQuestion;
    ListAbortsExactly(data, pos, n, ParseQuestion, []);
    if k: nat :| k < n && AbortsAt(data, pos, k, ParseQuestion) {
      QuestionNeverAborts(data, StartOf(data, pos, k, ParseQuestion).value);
    }
  }

  lemma RecordsAbortExactly(data: seq<byte>, pos: nat, n: nat)
    ensures (exists k: nat | k < n :: AbortsAt(data, pos, k, ParseRecord))
       <==> exists k: nat | k < n :: CutOffAt(data, pos, k)
  {
    hide ParseRecord, CutOffRecord;
    forall k: nat ensures AbortsAt(data, pos, k, ParseRecord) <==> CutOffAt(data, pos, k) {
      if StartOf(data, pos, k, ParseRecord).Some? {
        RecordAbortsExactly(data, StartOf(data, pos, k, ParseRecord).value);
      }
    }
  }

  /** The three record sections abort as one list of records would. */
  lemma RecordSectionsAbort(data: seq<byte>, h: Headers.Header, pos: nat)
    ensures ParseSections(data, h, pos).Abort?
       <==> && StartOf(data, pos, h.qdcount, ParseQuestion).Some?
            && exists k: nat | k < h.ancount + h.nscount + h.arcount ::
                 AbortsAt(data, StartOf(data, pos, h.qdcount, ParseQuestion).value, k, ParseRecord)
  {
    hide ParseAll, StartOf, AbortsAt;
    QuestionsNeverAbort(data, pos, h.qdcount);
    ListEnd(data, pos, h.qdcount, ParseQuestion, []);
    var qs := ParseAll(data, pos, h.qdcount, ParseQuestion, []);
    if qs.Done? {
      var p1 := qs.next;
      ListAbortsExactly(data, p1, h.ancount, ParseRecord, []);
      ListEnd(data, p1, h.ancount, ParseRecord, []);
      JoinedAborts(data, p1, h.ancount, h.nscount + h.arcount, ParseRecord);
      var an := ParseAll(data, p1, h.ancount, ParseRecord, []);
      if an.Done? {
        ListAbortsExactly(data, an.next, h.nscount, ParseRecord, []);
        ListEnd(data, an.next, h.nscount, ParseRecord, []);
        JoinedAborts(data, an.next, h.nscount, h.arcount, ParseRecord);
        var ns := ParseAll(data, an.next, h.nscount, ParseRecord, []);
        if ns.Done? {
          ListAbortsExactly(data, ns.next, h.arcount, ParseRecord, []);
        }
      }
    }
  }

  /** Main result on aborts: a message aborts the parser exactly when its header and questions
      can be read and, of the records it announces, the first that cannot be read is a TXT
      record, all in the message, one of whose character-strings is not. */
  lemma MessageAbortsExactly(data: seq<byte>)
    ensures Decode(data).Panicked? <==> CutOffMessage(data)
  {
    hide ParseSections, Headers.ParseHeader, StartOf, AbortsAt, CutOffAt;
    HeaderParts(data);
    if Headers.ParseHeader(data, 0).Done? {
      var h := Headers.ParseHeader(data, 0).value;
      RecordSectionsAbort(data, h, Headers.HEADER_LENGTH);
      var records := StartOf(data, Headers.HEADER_LENGTH, h.qdcount, ParseQuestion);
      if records.Some? {
        RecordsAbortExactly(data, records.value, h.ancount + h.nscount + h.arcount);
      }
    }
  }

  lemma HeaderParts(data: seq<byte>)
    ensures !Headers.ParseHeader(data, 0).Abort?
    ensures Headers.ParseHeader(data, 0).Done? <==> Headers.HEADER_LENGTH <= |data|
    ensures Headers.ParseHeader(data, 0).Done? ==> Headers.ParseHeader(data, 0).next == Headers.HEADER_LENGTH
  {
  }

  /** Two messages that abort: a TXT record whose one string is cut off, and the same
      record put inside the header, where the pointer behind the header leads. */
  lemma MessageCanAbort()
    ensures Decode([0, 0, 0, 0, 0, 0, 0, 1, 0, 0, 0, 0, 0, 0, 16, 0, 1, 0, 0, 0, 0, 0, 1, 5]).Panicked?
    ensures Decode([0, 0, 16, 0, 0, 0, 0, 1, 0, 0, 1, 5, 192, 0]).Panicked?
  {
    PlainMessageAborts([0, 0, 0, 0, 0, 0, 0, 1, 0, 0, 0, 0, 0, 0, 16, 0, 1, 0, 0, 0, 0, 0, 1, 5]);
    PointerMessageAborts([0, 0, 16, 0, 0, 0, 0, 1, 0, 0, 1, 5, 192, 0]);
  }

  lemma OneCutOffString(data: seq<byte>, p: nat)
    requires p + RECORD_FIXED < |data| && U16At(data, p) == 16 && U16At(data, p + 8) == 1
    requires p + RECORD_FIXED + 1 + data[p + RECORD_FIXED] > |data|
    ensures CutOffBody(data, p)
  {
    assert Chain(data, p + RECORD_FIXED, p + RECORD_FIXED + 1, [p + RECORD_FIXED]);
  }

  lemma FirstRecordAborts(data: seq<byte>)
    requires |data| >= 12 && U16At(data, 4) == 0 && U16At(data, 6) == 1 && CutOffRecord(data, 12)
    ensures Decode(data).Panicked?
  {
    hide Decode, CutOffRecord, U16At, Headers.Bit;
    assert StartOf(data, 12, 0, ParseQuestion) == Some(12) && CutOffAt(data, 12, 0);
    MessageAbortsExactly(data);
  }

  lemma PlainMessageAborts(data: seq<byte>)
    requires data == [0, 0, 0, 0, 0, 0, 0, 1, 0, 0, 0, 0, 0, 0, 16, 0, 1, 0, 0, 0, 0, 0, 1, 5]
    ensures Decode(data).Panicked?
  {
    hide Decode, CutOffBody;
    assert ReadName(data, 12) == Done([], 13);
    OneCutOffString(data, 13);
    FirstRecordAborts(data);
  }

  lemma PointerMessageAborts(data: seq<byte>)
    requires data == [0, 0, 16, 0, 0, 0, 0, 1, 0, 0, 1, 5, 192, 0]
    ensures Decode(data).Panicked?
  {
    hide Decode, CutOffBody;
    assert NameFrom(data, 0, 1, []) == Done([], 1);
    assert ReadName(data, 12) == Done([], 1);
    OneCutOffString(data, 1);
    FirstRecordAborts(data);
  }

  /** No shorter message aborts: in 13 octets there is no room for a name that leads to a record. */
  lemma ShortestAbort(data: seq<byte>)
    requires |data| < 14
    ensures !Decode(data).Panicked?
  {
    hide Decode, Headers.ParseHeader;
    MessageAbortsExactly(data);
    if |data| >= 12 {
      NothingAfterHeader(data);
      forall k: nat ensures !CutOffAt(data, 12, k) {
      }
    }
  }

  lemma NothingAfterHeader(data: seq<byte>)
    requires 12 <= |data| < 14
    ensures !ParseQuestion(data, 12).Done? && !ParseRecord(data, 12).Done? && !CutOffRecord(data, 12)
  {
    assert ReadName(data, 12).Done? ==> ReadName(data, 12).next == 13;
  }
}
