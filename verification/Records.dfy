/** Questions and resource records (sections 4.1.2 and 4.1.3 of RFC 1035), with the
    record data the program interprets: A, AAAA, CNAME, MX and TXT. */
module Records {
  import opened Bytes
  import opened Wire
  import opened Names
  import Utf8

  datatype QueryType = A | NS | CNAME | SOA | PTR | MX | TXT | AAAA | ANY | Unknown(code: u16) {
    function Code(): u16 {
      match this
      case A => 1
      case NS => 2
      case CNAME => 5
      case SOA => 6
      case PTR => 12
      case MX => 15
      case TXT => 16
      case AAAA => 28
      case ANY => 255
      case Unknown(code) => code
    }

    static function From(code: u16): QueryType {
      if code == 1 then A
      else if code == 2 then NS
      else if code == 5 then CNAME
      else if code == 6 then SOA
      else if code == 12 then PTR
      else if code == 15 then MX
      else if code == 16 then TXT
      else if code == 28 then AAAA
      else if code == 255 then ANY
      else Unknown(code)
    }
  }

  datatype QueryClass = IN | UnknownClass(code: u16) {
    function Code(): u16 {
      if IN? then 1 else code
    }

    static function From(code: u16): QueryClass {
      if code == 1 then IN else UnknownClass(code)
    }
  }

  datatype Question = Question(name: Text, qtype: QueryType, qclass: QueryClass)

  type Ipv4 = s: seq<byte> | |s| == 4 witness [0, 0, 0, 0]
  type Ipv6 = s: seq<byte> | |s| == 16 witness [0, 0, 0, 0, 0, 0, 0, 0, 0, 0, 0, 0, 0, 0, 0, 0]

  datatype ResourceData =
    | AData(ip: Ipv4)
    | AAAAData(ip6: Ipv6)
    | CNAMEData(cname: Text)
    | MXData(preference: u16, exchange: Text)
    | TXTData(texts: seq<Text>)
    | RawData(raw: seq<byte>)

  datatype ResourceRecord = ResourceRecord(name: Text, rtype: QueryType, rclass: QueryClass, ttl: u32, rdata: ResourceData)

  // ----- Questions -----

  function ParseQuestion(data: seq<byte>, pos: nat): Parsed<Question> {
    var (name, p) :- ReadName(data, pos);
    if p + 4 > |data| then Fail(BufferTooShort(QuestionFixed))
    else Done(Question(name, QueryType.From(U16At(data, p)), QueryClass.From(U16At(data, p + 2))), p + 4)
  }

  function EncodeQuestion(q: Question): seq<byte> {
    EncodeName(q.name) + (Be16(q.qtype.Code()) + Be16(q.qclass.Code()))
  }

  method ParseQuestionAt(cur: Cursor) returns (r: Outcome<Question>)
    modifies cur
    ensures Agrees(r, cur.pos, ParseQuestion(cur.data, old(cur.pos)))
  {
    var name :- ReadDomainName(cur);
    if cur.Remaining() < 4 {
      return Err(BufferTooShort(QuestionFixed));
    }
    var qtype := cur.GetU16();
    var qclass := cur.GetU16();
    return Ok(Question(name, QueryType.From(qtype), QueryClass.From(qclass)));
  }

  method WriteQuestion(q: Question, buf: Buffer)
    modifies buf
    ensures buf.bytes == old(buf.bytes) + EncodeQuestion(q)
  {
    WriteDomainName(q.name, buf);
    buf.PutU16(q.qtype.Code());
    buf.PutU16(q.qclass.Code());
  }

  // ----- Record data -----

  /** The rest of the character-string loop: read strings until `end` is reached or
      passed.  The loop looks only at `end`; a length octet or a string that is not
      all in the message aborts it. */
  function TextsFrom(data: seq<byte>, pos: nat, end: nat, acc: seq<Text>): Parsed<seq<Text>>
    decreases end - pos
  {
    if pos >= end then Done(acc, pos)
    else if pos >= |data| || pos + 1 + data[pos] > |data| then Abort
    else
      var next := pos + 1 + data[pos];
      TextsFrom(data, next, end, acc + [Utf8.Lossy(data[pos + 1..next])])
  }

  function ParseRdata(data: seq<byte>, pos: nat, rtype: QueryType, rdlength: nat): Parsed<ResourceData>
    requires pos + rdlength <= |data|
  {
    var end := pos + rdlength;
    if rtype == A && rdlength == 4 then Done(AData(data[pos..end]), end)
    else if rtype == AAAA && rdlength == 16 then Done(AAAAData(data[pos..end]), end)
    else if rtype == CNAME then
      var (cname, p) :- ReadName(data, pos);
      Done(CNAMEData(cname), p)
    else if rtype == MX && rdlength >= 3 then
      var (exchange, p) :- ReadName(data, pos + 2);
      Done(MXData(U16At(data, pos), exchange), p)
    else if rtype == TXT then
      var (texts, p) :- TextsFrom(data, pos, end, []);
      Done(TXTData(texts), p)
    else Done(RawData(data[pos..end]), end)
  }

  method ParseRdataAt(cur: Cursor, rtype: QueryType, rdlength: nat) returns (r: Outcome<ResourceData>)
    requires cur.pos + rdlength <= |cur.data|
    modifies cur
    ensures Agrees(r, cur.pos, ParseRdata(cur.data, old(cur.pos), rtype, rdlength))
  {
    hide ReadName, Utf8.Lossy, U16At;
    if rtype == A && rdlength == 4 {
      var octets := cur.CopyToSlice(4);
      return Ok(AData(octets));
    } else if rtype == AAAA && rdlength == 16 {
      var octets := cur.CopyToSlice(16);
      return Ok(AAAAData(octets));
    } else if rtype == CNAME {
      var cname :- ReadDomainName(cur);
      return Ok(CNAMEData(cname));
    } else if rtype == MX && rdlength >= 3 {
      var preference := cur.GetU16();
      var exchange :- ReadDomainName(cur);
      return Ok(MXData(preference, exchange));
    } else if rtype == TXT {
      var start := cur.pos;
      var texts := [];
      var read := 0;
      while read < rdlength
        invariant cur.pos == start + read
        invariant TextsFrom(cur.data, cur.pos, start + rdlength, texts)
               == TextsFrom(cur.data, start, start + rdlength, [])
      {
        if cur.Remaining() < 1 {
          return Panicked;
        }
        var len := cur.GetU8();
        read := read + 1 + len;
        if cur.Remaining() < len {
          return Panicked;
        }
        var octets := cur.CopyToSlice(len);
        texts := texts + [Utf8.Lossy(octets)];
      }
      return Ok(TXTData(texts));
    } else {
      var raw := cur.CopyToSlice(rdlength);
      return Ok(RawData(raw));
    }
  }

  function EncodeTexts(texts: seq<Text>): seq<byte> {
    if texts == [] then [] else EncodeLabel(texts[0]) + EncodeTexts(texts[1..])
  }

  function EncodeRdata(rdata: ResourceData): seq<byte> {
    match rdata
    case AData(ip) => ip
    case AAAAData(ip) => ip
    case CNAMEData(cname) => EncodeName(cname)
    case MXData(preference, exchange) => Be16(preference) + EncodeName(exchange)
    case TXTData(texts) => EncodeTexts(texts)
    case RawData(raw) => raw
  }

  // ----- Records -----

  const RECORD_FIXED: nat := 10

  /** What follows the name: ten fixed octets and the data. */
  function ParseBody(data: seq<byte>, name: Text, p: nat): Parsed<ResourceRecord> {
    if p + RECORD_FIXED > |data| then Fail(BufferTooShort(RecordFixed))
    else if p + RECORD_FIXED + U16At(data, p + 8) > |data| then Fail(BufferTooShort(Rdata))
    else
      var rtype := QueryType.From(U16At(data, p));
      var (rdata, next) :- ParseRdata(data, p + RECORD_FIXED, rtype, U16At(data, p + 8));
      Done(ResourceRecord(name, rtype, QueryClass.From(U16At(data, p + 2)), U32At(data, p + 4), rdata), next)
  }

  function ParseRecord(data: seq<byte>, pos: nat): Parsed<ResourceRecord> {
    var (name, p) :- ReadName(data, pos);
    ParseBody(data, name, p)
  }

  /** RDLENGTH is the length of the data cut to sixteen bits. */
  function EncodeFixed(r: ResourceRecord): seq<byte> {
    Be16(r.rtype.Code()) + (Be16(r.rclass.Code()) + (Be32(r.ttl) + Be16(Cut16(|EncodeRdata(r.rdata)|))))
  }

  function EncodeBody(r: ResourceRecord): seq<byte> {
    EncodeFixed(r) + EncodeRdata(r.rdata)
  }

  function EncodeRecord(r: ResourceRecord): seq<byte> {
    EncodeName(r.name) + EncodeBody(r)
  }

  method ParseRecordAt(cur: Cursor) returns (r: Outcome<ResourceRecord>)
    modifies cur
    ensures Agrees(r, cur.pos, ParseRecord(cur.data, old(cur.pos)))
  {
    var name :- ReadDomainName(cur);
    if cur.Remaining() < RECORD_FIXED {
      return Err(BufferTooShort(RecordFixed));
    }
    var rtype := cur.GetU16();
    var rclass := cur.GetU16();
    var ttl := cur.GetU32();
    var rdlength := cur.GetU16();
    if cur.Remaining() < rdlength {
      return Err(BufferTooShort(Rdata));
    }
    var rdata :- ParseRdataAt(cur, QueryType.From(rtype), rdlength);
    return Ok(ResourceRecord(name, QueryType.From(rtype), QueryClass.From(rclass), ttl, rdata));
  }

  method WriteTexts(texts: seq<Text>, temp: Buffer)
    modifies temp
    ensures temp.bytes == old(temp.bytes) + EncodeTexts(texts)
  {
    for i := 0 to |texts|
      invariant temp.bytes + EncodeTexts(texts[i..]) == old(temp.bytes) + EncodeTexts(texts)
    {
      assert texts[i..][1..] == texts[i + 1..];
      temp.PutU8(Cut8(|texts[i]|));
      temp.PutSlice(texts[i]);
    }
  }

  method WriteExchange(preference: u16, exchange: Text, temp: Buffer)
    modifies temp
    ensures temp.bytes == old(temp.bytes) + (Be16(preference) + EncodeName(exchange))
  {
    temp.PutU16(preference);
    WriteDomainName(exchange, temp);
  }

  method WriteRdata(rdata: ResourceData, temp: Buffer)
    modifies temp
    ensures temp.bytes == old(temp.bytes) + EncodeRdata(rdata)
  {
    match rdata {
      case AData(ip) => temp.PutSlice(ip);
      case AAAAData(ip) => temp.PutSlice(ip);
      case CNAMEData(cname) => WriteDomainName(cname, temp);
      case MXData(preference, exchange) => WriteExchange(preference, exchange, temp);
      case TXTData(texts) => WriteTexts(texts, temp);
      case RawData(raw) => temp.PutSlice(raw);
    }
  }

  /** The data goes through a temporary buffer whose length becomes RDLENGTH. */
  method WriteRecord(r: ResourceRecord, buf: Buffer)
    modifies buf
    ensures buf.bytes == old(buf.bytes) + EncodeRecord(r)
  {
    WriteDomainName(r.name, buf);
    buf.PutU16(r.rtype.Code());
    buf.PutU16(r.rclass.Code());
    buf.PutU32(r.ttl);
    var temp := new Buffer();
    WriteRdata(r.rdata, temp);
    buf.PutU16(Cut16(|temp.bytes|));
    buf.PutSlice(temp.bytes);
    assert buf.bytes == old(buf.bytes) + (EncodeName(r.name) + EncodeBody(r));
  }
}
