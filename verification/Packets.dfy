/** Whole messages: a header and four counted sections, and the blocked response. */
module Packets {
  import opened Bytes
  import opened Wire
  import opened Records
  import opened Sections
  import Headers

  datatype Packet = Packet(
    header: Headers.Header,
    questions: seq<Question>,
    answers: seq<ResourceRecord>,
    authorities: seq<ResourceRecord>,
    additionals: seq<ResourceRecord>)

  function ParsePacket(data: seq<byte>): Parsed<Packet> {
    var (header, p0) :- Headers.ParseHeader(data, 0);
    ParseSections(data, header, p0)
  }

  function ParseSections(data: seq<byte>, header: Headers.Header, p0: nat): Parsed<Packet> {
    var (questions, p1) :- ParseAll(data, p0, header.qdcount, ParseQuestion, []);
    var (answers, p2) :- ParseAll(data, p1, header.ancount, ParseRecord, []);
    var (authorities, p3) :- ParseAll(data, p2, header.nscount, ParseRecord, []);
    var (additionals, p4) :- ParseAll(data, p3, header.arcount, ParseRecord, []);
    Done(Packet(header, questions, answers, authorities, additionals), p4)
  }

  /** What `DnsPacket::parse` returns: trailing octets are not looked at. */
  function Decode(data: seq<byte>): Outcome<Packet> {
    match ParsePacket(data)
    case Done(p, _) => Ok(p)
    case Fail(e) => Err(e)
    case Abort => Panicked
  }

  method ParseRecordList(cur: Cursor, n: nat) returns (r: Outcome<seq<ResourceRecord>>)
    modifies cur
    ensures Agrees(r, cur.pos, ParseAll(cur.data, old(cur.pos), n, ParseRecord, []))
  {
    hide ParseRecord;
    var records := [];
    for i := 0 to n
      invariant ParseAll(cur.data, cur.pos, n - i, ParseRecord, records) == ParseAll(cur.data, old(cur.pos), n, ParseRecord, [])
    {
      var record :- ParseRecordAt(cur);
      records := records + [record];
    }
    return Ok(records);
  }

  method ParseQuestionList(cur: Cursor, n: nat) returns (r: Outcome<seq<Question>>)
    modifies cur
    ensures Agrees(r, cur.pos, ParseAll(cur.data, old(cur.pos), n, ParseQuestion, []))
  {
    hide ParseQuestion;
    var questions := [];
    for i := 0 to n
      invariant ParseAll(cur.data, cur.pos, n - i, ParseQuestion, questions) == ParseAll(cur.data, old(cur.pos), n, ParseQuestion, [])
    {
      var question :- ParseQuestionAt(cur);
      questions := questions + [question];
    }
    return Ok(questions);
  }

  method Parse(raw: seq<byte>) returns (r: Outcome<Packet>)
    ensures r == Decode(raw)
  {
    var cur := new Cursor(raw);
    var header :- Headers.Parse(cur);
    var questions :- ParseQuestionList(cur, header.qdcount);
    var answers :- ParseRecordList(cur, header.ancount);
    var authorities :- ParseRecordList(cur, header.nscount);
    var additionals :- ParseRecordList(cur, header.arcount);
    return Ok(Packet(header, questions, answers, authorities, additionals));
  }

  // ----- Writing -----

  /** The packet with the counts that are written: section lengths cut to sixteen bits. */
  function WithCounts(p: Packet): Packet {
    p.(header := p.header.(
         qdcount := Cut16(|p.questions|),
         ancount := Cut16(|p.answers|),
         nscount := Cut16(|p.authorities|),
         arcount := Cut16(|p.additionals|)))
  }

  function EncodeSections(p: Packet): seq<byte> {
    EncodeAll(p.questions, EncodeQuestion)
    + (EncodeAll(p.answers, EncodeRecord) + (EncodeAll(p.authorities, EncodeRecord) + EncodeAll(p.additionals, EncodeRecord)))
  }

  function Encode(p: Packet): seq<byte> {
    Headers.EncodeHeader(WithCounts(p).header) + EncodeSections(p)
  }

  method WriteQuestions(qs: seq<Question>, buf: Buffer)
    modifies buf
    ensures buf.bytes == old(buf.bytes) + EncodeAll(qs, EncodeQuestion)
  {
    hide EncodeQuestion;
    for i := 0 to |qs|
      invariant buf.bytes + EncodeAll(qs[i..], EncodeQuestion) == old(buf.bytes) + EncodeAll(qs, EncodeQuestion)
    {
      assert qs[i..][1..] == qs[i + 1..];
      WriteQuestion(qs[i], buf);
    }
  }

  method WriteRecords(rs: seq<ResourceRecord>, buf: Buffer)
    modifies buf
    ensures buf.bytes == old(buf.bytes) + EncodeAll(rs, EncodeRecord)
  {
    hide EncodeRecord;
    for i := 0 to |rs|
      invariant buf.bytes + EncodeAll(rs[i..], EncodeRecord) == old(buf.bytes) + EncodeAll(rs, EncodeRecord)
    {
      assert rs[i..][1..] == rs[i + 1..];
      WriteRecord(rs[i], buf);
    }
  }

  method ToBytes(p: Packet) returns (b: seq<byte>)
    ensures b == Encode(p)
  {
    hide EncodeAll, Headers.EncodeHeader;
    var buf := new Buffer();
    var header := p.header;
    header := header.(qdcount := Cut16(|p.questions|), ancount := Cut16(|p.answers|));
    header := header.(nscount := Cut16(|p.authorities|), arcount := Cut16(|p.additionals|));
    Headers.WriteTo(header, buf);
    WriteQuestions(p.questions, buf);
    WriteRecords(p.answers, buf);
    WriteRecords(p.authorities, buf);
    WriteRecords(p.additionals, buf);
    b := buf.bytes;
    assert header == WithCounts(p).header;
    assert b == Headers.EncodeHeader(header) + EncodeSections(p);
  }

  // ----- The blocked response -----

  const BLOCKED_TTL: u32 := 10

  function ZeroAddress(name: Text): ResourceRecord {
    ResourceRecord(name, A, IN, BLOCKED_TTL, AData([0, 0, 0, 0]))
  }

  /** Whether the blocked reply gets an answer of its own. */
  predicate AddsAddress(p: Packet, useNxdomain: bool) {
    !useNxdomain && p.questions != [] && p.questions[0].qtype == A
  }

  /** The reply to a blocked query: NXDOMAIN, or the address 0.0.0.0 for a first
      question that asks for one. */
  function Blocked(p: Packet, useNxdomain: bool): Packet {
    var rcode := if useNxdomain then Headers.NXDomain else Headers.NoError;
    var extra := if AddsAddress(p, useNxdomain) then [ZeroAddress(p.questions[0].name)] else [];
    p.(header := p.header.(isResponse := true, rcode := rcode), answers := p.answers + extra)
  }

  method BuildBlockedResponse(p: Packet, useNxdomain: bool) returns (response: Packet)
    ensures response == Blocked(p, useNxdomain)
  {
    response := p;
    response := response.(header := response.header.(isResponse := true));
    if useNxdomain {
      response := response.(header := response.header.(rcode := Headers.NXDomain));
    } else {
      response := response.(header := response.header.(rcode := Headers.NoError));
      if p.questions != [] && p.questions[0].qtype == A {
        response := response.(answers := response.answers + [ZeroAddress(p.questions[0].name)]);
      }
    }
  }
}
