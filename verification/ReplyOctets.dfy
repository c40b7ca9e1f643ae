/** What the client finds, octet by octet, in the replies that the handlers write themselves,
    and which codes the program reads. */
module ReplyOctets {
  import opened Bytes
  import opened Wire
  import opened Names
  import opened Records
  import opened Packets
  import opened PacketRoundTrip
  import opened Service
  import Headers

  lemma HeaderFirst(p: Packet)
    ensures |Encode(p)| >= 12 && Encode(p)[..12] == Headers.EncodeHeader(WithCounts(p).header)
  {
    hide EncodeSections;
  }

  lemma HeaderOctets(p: Packet)
    ensures |Encode(p)| >= 12 && U16At(Encode(p), 0) == p.header.id
    ensures Encode(p)[3] % 16 <= 5 && Headers.RcodeNumber(p.header.rcode, Encode(p)[3] % 16)
    ensures p.header.isResponse <==> Encode(p)[2] >= 128
  {
    hide Encode, U16At, Headers.EncodeHeader;
    var b := Headers.EncodeHeader(WithCounts(p).header);
    HeaderFirst(p);
    assert Encode(p)[2] == Encode(p)[..12][2] == b[2] && Encode(p)[3] == Encode(p)[..12][3] == b[3];
    Headers.CodesAreWritten(WithCounts(p).header);
    IdIsFirst([], p);
  }

  /** A blocked reply has the id of the query, the response flag, and the code 3 or 0. */
  lemma BlockedOctets(p: Packet, useNxdomain: bool)
    ensures var m := Encode(Blocked(p, useNxdomain));
      |m| >= 12 && U16At(m, 0) == p.header.id && m[2] >= 128 && m[3] % 16 == if useNxdomain then 3 else 0
  {
    hide Encode, U16At;
    HeaderOctets(Blocked(p, useNxdomain));
  }

  /** A SERVFAIL has the id of the query, the response flag, and the code 2. */
  lemma ServFailOctets(p: Packet)
    ensures var m := Encode(ServFail(p));
      |m| >= 12 && U16At(m, 0) == p.header.id && m[2] >= 128 && m[3] % 16 == 2
  {
    hide Encode, U16At;
    HeaderOctets(ServFail(p));
  }

  /** The answer that address mode adds: type 1, class 1, ten seconds, four octets, 0.0.0.0. */
  lemma AddedAnswer(p: Packet)
    requires p.questions != [] && p.questions[0].qtype == A
    ensures var answers := Blocked(p, false).answers;
      && |answers| == |p.answers| + 1 && answers[..|p.answers|] == p.answers
      && EncodeRecord(answers[|p.answers|])
         == EncodeName(p.questions[0].name) + [0, 1, 0, 1, 0, 0, 0, 10, 0, 4, 0, 0, 0, 0]
  {
    hide EncodeName;
    var zero := ZeroAddress(p.questions[0].name);
    assert Blocked(p, false).answers[|p.answers|] == zero;
    assert EncodeFixed(zero) == [0, 1, 0, 1, 0, 0, 0, 10, 0, 4];
    assert EncodeBody(zero) == [0, 1, 0, 1, 0, 0, 0, 10, 0, 4, 0, 0, 0, 0];
  }

  /** A client reads a SERVFAIL back exactly when its query was clean, and then finds its own
      header, but for the response flag and the code, and its own question and records. */
  lemma ServFailIsRead(query: seq<byte>)
    requires Decode(query).Ok?
    ensures var p := Decode(query).value;
      var r := Decode(Encode(ServFail(p)));
      && (r == Ok(ServFail(p)) <==> CleanPacket(p))
      && (r == Ok(ServFail(p)) ==>
            r.value == p.(header := p.header.(isResponse := true, rcode := Headers.ServFail)))
  {
    hide Encode, Decode, CleanPacket, GoodPacket;
    var p := Decode(query).value;
    ParsedPacket(query);
    ParsedCounts(query);
    assert GoodPacket(ServFail(p)) <==> GoodPacket(p) by { SameSectionsAreGood(p); }
    PacketRoundTrip.PacketRoundTrip(ServFail(p));
  }

  lemma SameSectionsAreGood(p: Packet)
    ensures GoodPacket(ServFail(p)) <==> GoodPacket(p)
  {
  }

  /** A message without room for a header is refused for that reason. */
  lemma ShortMessage(data: seq<byte>)
    requires |data| < 12
    ensures Decode(data) == Err(BufferTooShort(Short.HeaderOctets))
  {
  }

  /** The codes of a parsed message are the numbers in its third and fourth octets. */
  lemma DecodedCodes(data: seq<byte>)
    requires Decode(data).Ok?
    ensures var h := Decode(data).value.header;
      && |data| >= 12 && Headers.RcodeNumber(h.rcode, data[3] % 16) && Headers.OpcodeNumber(h.opcode, data[2] / 8 % 16)
      && (h.isResponse <==> data[2] >= 128)
  {
    hide ParseSections, Headers.ParseHeader, U16At;
    HeaderParts(data);
    var h := Headers.ParseHeader(data, 0).value;
    SectionLengths(data, h, Headers.HEADER_LENGTH);
    Headers.CodesAreRead(data, 0);
  }
}
