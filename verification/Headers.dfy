/** The twelve-octet message header (section 4.1.1 of RFC 1035).  The flag word's
    fields occupy disjoint bits, so `|=` into it is addition and `&` with a mask
    is division and remainder. */
module Headers {
  import opened Bytes
  import opened Wire

  datatype Opcode = Query | IQuery | Status | Reserved {
    function Code(): nat {
      match this
      case Query => 0
      case IQuery => 1
      case Status => 2
      case Reserved => 3
    }

    static function From(code: nat): Opcode {
      if code == 0 then Query else if code == 1 then IQuery else if code == 2 then Status else Reserved
    }
  }

  datatype ResponseCode = NoError | FormErr | ServFail | NXDomain | NotImp | Refused {
    function Code(): nat {
      match this
      case NoError => 0
      case FormErr => 1
      case ServFail => 2
      case NXDomain => 3
      case NotImp => 4
      case Refused => 5
    }

    static function From(code: nat): ResponseCode {
      if code == 0 then NoError
      else if code == 1 then FormErr
      else if code == 2 then ServFail
      else if code == 3 then NXDomain
      else if code == 4 then NotImp
      else if code == 5 then Refused
      else ServFail
    }
  }

  datatype Header = Header(
    id: u16,
    isResponse: bool,
    opcode: Opcode,
    authoritative: bool,
    truncated: bool,
    recursionDesired: bool,
    recursionAvailable: bool,
    rcode: ResponseCode,
    qdcount: u16,
    ancount: u16,
    nscount: u16,
    arcount: u16)

  const HEADER_LENGTH: nat := 12

  predicate Bit(flags: u16, weight: nat)
    requires weight > 0
  {
    flags / weight % 2 == 1
  }

  function ParseHeader(data: seq<byte>, pos: nat): Parsed<Header> {
    if pos + HEADER_LENGTH > |data| then Fail(BufferTooShort(HeaderOctets))
    else
      var flags := U16At(data, pos + 2);
      Done(Header(
             U16At(data, pos),
             Bit(flags, 0x8000),
             Opcode.From(flags / 0x800 % 16),
             Bit(flags, 0x400),
             Bit(flags, 0x200),
             Bit(flags, 0x100),
             Bit(flags, 0x80),
             ResponseCode.From(flags % 16),
             U16At(data, pos + 4),
             U16At(data, pos + 6),
             U16At(data, pos + 8),
             U16At(data, pos + 10)),
           pos + HEADER_LENGTH)
  }

  function Weigh(flag: bool, weight: nat): nat {
    if flag then weight else 0
  }

  function Flags(h: Header): u16 {
    Weigh(h.isResponse, 0x8000) + h.opcode.Code() * 0x800 + Weigh(h.authoritative, 0x400)
    + Weigh(h.truncated, 0x200) + Weigh(h.recursionDesired, 0x100) + Weigh(h.recursionAvailable, 0x80)
    + h.rcode.Code()
  }

  function EncodeHeader(h: Header): (b: seq<byte>)
    ensures |b| == HEADER_LENGTH
  {
    Be16(h.id) + (Be16(Flags(h)) + (Be16(h.qdcount) + (Be16(h.ancount) + (Be16(h.nscount) + Be16(h.arcount)))))
  }

  method Parse(cur: Cursor) returns (r: Outcome<Header>)
    modifies cur
    ensures Agrees(r, cur.pos, ParseHeader(cur.data, old(cur.pos)))
  {
    if cur.Remaining() < HEADER_LENGTH {
      return Err(BufferTooShort(HeaderOctets));
    }
    var id := cur.GetU16();
    var flags := cur.GetU16();
    var qdcount := cur.GetU16();
    var ancount := cur.GetU16();
    var nscount := cur.GetU16();
    var arcount := cur.GetU16();
    return Ok(Header(
                id,
                Bit(flags, 0x8000),
                Opcode.From(flags / 0x800 % 16),
                Bit(flags, 0x400),
                Bit(flags, 0x200),
                Bit(flags, 0x100),
                Bit(flags, 0x80),
                ResponseCode.From(flags % 16),
                qdcount, ancount, nscount, arcount));
  }

  method WriteTo(h: Header, buf: Buffer)
    modifies buf
    ensures buf.bytes == old(buf.bytes) + EncodeHeader(h)
  {
    hide Be16;
    buf.PutU16(h.id);
    var flags: nat := 0;
    if h.isResponse {
      flags := flags + 0x8000;
    }
    flags := flags + h.opcode.Code() * 0x800;
    if h.authoritative {
      flags := flags + 0x400;
    }
    if h.truncated {
      flags := flags + 0x200;
    }
    if h.recursionDesired {
      flags := flags + 0x100;
    }
    if h.recursionAvailable {
      flags := flags + 0x80;
    }
    flags := flags + h.rcode.Code();
    buf.PutU16(flags);
    buf.PutU16(h.qdcount);
    buf.PutU16(h.ancount);
    buf.PutU16(h.nscount);
    buf.PutU16(h.arcount);
  }

  /** The quotients of a flag word by its weights, one field at a time from the bottom. */
  lemma LowQuotients(flags: u16)
    ensures flags == flags / 16 * 16 + flags % 16
    ensures flags / 16 == flags / 0x80 * 8 + flags / 16 % 8
    ensures flags / 0x80 == flags / 0x100 * 2 + flags / 0x80 % 2
  {
  }

  lemma MiddleQuotients(flags: u16)
    ensures flags / 0x100 == flags / 0x200 * 2 + flags / 0x100 % 2
    ensures flags / 0x200 == flags / 0x400 * 2 + flags / 0x200 % 2
    ensures flags / 0x400 == flags / 0x800 * 2 + flags / 0x400 % 2
  {
  }

  lemma HighQuotients(flags: u16)
    ensures flags / 0x800 == flags / 0x8000 * 16 + flags / 0x800 % 16
    ensures flags / 0x8000 == flags / 0x8000 % 2
  {
  }

  /** The fields of a flag word are recovered from their sum. */
  lemma FlagsUnpack(h: Header)
    ensures var f := Flags(h);
      && Bit(f, 0x8000) == h.isResponse && Opcode.From(f / 0x800 % 16) == h.opcode
      && Bit(f, 0x400) == h.authoritative && Bit(f, 0x200) == h.truncated
      && Bit(f, 0x100) == h.recursionDesired && Bit(f, 0x80) == h.recursionAvailable
      && ResponseCode.From(f % 16) == h.rcode
  {
    var f := Flags(h);
    var qr, aa, tc := Weigh(h.isResponse, 1), Weigh(h.authoritative, 1), Weigh(h.truncated, 1);
    var rd, ra := Weigh(h.recursionDesired, 1), Weigh(h.recursionAvailable, 1);
    var op, rc := h.opcode.Code(), h.rcode.Code();
    assert f == qr * 0x8000 + op * 0x800 + aa * 0x400 + tc * 0x200 + rd * 0x100 + ra * 0x80 + rc;
    SumUnpacks(f, qr, op, aa, tc, rd, ra, rc);
  }

  lemma SumUnpacks(f: u16, qr: nat, op: nat, aa: nat, tc: nat, rd: nat, ra: nat, rc: nat)
    requires qr < 2 && op < 4 && aa < 2 && tc < 2 && rd < 2 && ra < 2 && rc < 6
    requires f == qr * 0x8000 + op * 0x800 + aa * 0x400 + tc * 0x200 + rd * 0x100 + ra * 0x80 + rc
    ensures f / 0x8000 % 2 == qr && f / 0x800 % 16 == op && f / 0x400 % 2 == aa && f / 0x200 % 2 == tc
    ensures f / 0x100 % 2 == rd && f / 0x80 % 2 == ra && f % 16 == rc
  {
    assert f / 0x8000 == qr;
    assert f / 0x800 == qr * 16 + op;
    assert f / 0x400 == qr * 32 + op * 2 + aa;
    assert f / 0x200 == qr * 64 + op * 4 + aa * 2 + tc;
    assert f / 0x100 == qr * 128 + op * 8 + aa * 4 + tc * 2 + rd;
    assert f / 0x80 == qr * 256 + op * 16 + aa * 8 + tc * 4 + rd * 2 + ra;
  }

  lemma AtHeader(data: seq<byte>, pos: nat, h: Header)
    requires At(data, pos, EncodeHeader(h))
    ensures U16At(data, pos) == h.id && U16At(data, pos + 2) == Flags(h)
    ensures U16At(data, pos + 4) == h.qdcount && U16At(data, pos + 6) == h.ancount
    ensures U16At(data, pos + 8) == h.nscount && U16At(data, pos + 10) == h.arcount
  {
    hide Be16, U16At, Flags;
    var end := Be16(h.nscount) + Be16(h.arcount);
    AtFrontU16(data, pos, h.id, Be16(Flags(h)) + (Be16(h.qdcount) + (Be16(h.ancount) + end)));
    AtFrontU16(data, pos + 2, Flags(h), Be16(h.qdcount) + (Be16(h.ancount) + end));
    AtFrontU16(data, pos + 4, h.qdcount, Be16(h.ancount) + end);
    AtFrontU16(data, pos + 6, h.ancount, end);
    AtFrontU16(data, pos + 8, h.nscount, Be16(h.arcount));
    AtU16(data, pos + 10, h.arcount);
  }

  /** Every header value is read back wherever it was written. */
  lemma HeaderIsRead(data: seq<byte>, pos: nat, h: Header)
    requires At(data, pos, EncodeHeader(h))
    ensures ParseHeader(data, pos) == Done(h, pos + HEADER_LENGTH)
  {
    AtHeader(data, pos, h);
    FlagsUnpack(h);
  }

  /** A flag word is the sum of its weighted fields, the three reserved bits included. */
  lemma FieldsSum(flags: u16, qr: nat, op: nat, aa: nat, tc: nat, rd: nat, ra: nat, z: nat, rc: nat)
    requires qr == flags / 0x8000 % 2 && op == flags / 0x800 % 16 && aa == flags / 0x400 % 2
    requires tc == flags / 0x200 % 2 && rd == flags / 0x100 % 2 && ra == flags / 0x80 % 2
    requires z == flags / 16 % 8 && rc == flags % 16
    ensures flags == qr * 0x8000 + op * 0x800 + aa * 0x400 + tc * 0x200 + rd * 0x100 + ra * 0x80 + z * 16 + rc
  {
    LowQuotients(flags);
    MiddleQuotients(flags);
    HighQuotients(flags);
  }

  lemma CodesCut(op: nat, z: nat, rc: nat)
    requires op < 16 && rc < 16
    ensures var op', rc' := Opcode.From(op).Code(), ResponseCode.From(rc).Code();
      op' * 0x800 + rc' == op * 0x800 + z * 16 + rc <==> op <= 3 && z == 0 && rc <= 5
  {
    var op', rc' := Opcode.From(op).Code(), ResponseCode.From(rc).Code();
    assert op' == if op <= 3 then op else 3;
    assert rc' == if rc <= 5 then rc else 2;
  }

  /** The header that the parser makes of a flag word. */
  predicate ReadsFlags(h: Header, flags: u16) {
    && h.isResponse == Bit(flags, 0x8000) && h.opcode == Opcode.From(flags / 0x800 % 16)
    && h.authoritative == Bit(flags, 0x400) && h.truncated == Bit(flags, 0x200)
    && h.recursionDesired == Bit(flags, 0x100) && h.recursionAvailable == Bit(flags, 0x80)
    && h.rcode == ResponseCode.From(flags % 16)
  }

  /** Reading and writing a flag word keeps it exactly when its reserved bits are
      clear and both of its codes are ones the program names. */
  lemma FlagsSurviveExactly(flags: u16, h: Header)
    requires ReadsFlags(h, flags)
    ensures Flags(h) == flags
       <==> flags / 0x800 % 16 <= 3 && flags / 16 % 8 == 0 && flags % 16 <= 5
  {
    var op, z, rc := flags / 0x800 % 16, flags / 16 % 8, flags % 16;
    var qr, aa, tc := flags / 0x8000 % 2, flags / 0x400 % 2, flags / 0x200 % 2;
    var rd, ra := flags / 0x100 % 2, flags / 0x80 % 2;
    var high := qr * 0x8000 + aa * 0x400 + tc * 0x200 + rd * 0x100 + ra * 0x80;
    FieldsSum(flags, qr, op, aa, tc, rd, ra, z, rc);
    assert Flags(h) == high + h.opcode.Code() * 0x800 + h.rcode.Code();
    CodesCut(op, z, rc);
  }

  /** A written header, octet by octet. */
  lemma HeaderOctetsOf(h: Header)
    ensures var b, f := EncodeHeader(h), Flags(h);
      && b[0] == h.id / 256 && b[1] == h.id % 256 && b[2] == f / 256 && b[3] == f % 256
      && b[4] == h.qdcount / 256 && b[5] == h.qdcount % 256 && b[6] == h.ancount / 256 && b[7] == h.ancount % 256
      && b[8] == h.nscount / 256 && b[9] == h.nscount % 256 && b[10] == h.arcount / 256 && b[11] == h.arcount % 256
  {
  }

  lemma OctetsOfU16(data: seq<byte>, pos: nat)
    requires pos + 2 <= |data|
    ensures data[pos] == U16At(data, pos) / 256 && data[pos + 1] == U16At(data, pos) % 256
  {
  }

  /** Parsing a header and writing it again gives the same twelve octets exactly when
      the reserved bits are clear and both codes are ones the program names. */
  lemma HeaderReEncodes(data: seq<byte>, pos: nat)
    requires pos + HEADER_LENGTH <= |data|
    ensures var flags := U16At(data, pos + 2);
      EncodeHeader(ParseHeader(data, pos).value) == data[pos..pos + HEADER_LENGTH]
      <==> flags / 0x800 % 16 <= 3 && flags / 16 % 8 == 0 && flags % 16 <= 5
  {
    var h := ParseHeader(data, pos).value;
    var flags := U16At(data, pos + 2);
    FlagsSurviveExactly(flags, h);
    if EncodeHeader(h) == data[pos..pos + HEADER_LENGTH] {
      AtHeader(data, pos, h);
    }
    if Flags(h) == flags {
      SameOctets(data, pos, h);
    }
  }

  lemma SameOctets(data: seq<byte>, pos: nat, h: Header)
    requires pos + HEADER_LENGTH <= |data| && ParseHeader(data, pos).value == h
    requires Flags(h) == U16At(data, pos + 2)
    ensures EncodeHeader(h) == data[pos..pos + HEADER_LENGTH]
  {
    HeaderOctetsOf(h);
    OctetsOfU16(data, pos);
    OctetsOfU16(data, pos + 2);
    OctetsOfU16(data, pos + 4);
    OctetsOfU16(data, pos + 6);
    OctetsOfU16(data, pos + 8);
    OctetsOfU16(data, pos + 10);
  }

  // ----- The codes on the wire -----

  /** The numbers of the response codes (section 4.1.1 of RFC 1035). */
  predicate RcodeNumber(rcode: ResponseCode, n: nat) {
    match n
    case 0 => rcode == NoError
    case 1 => rcode == FormErr
    case 2 => rcode == ServFail
    case 3 => rcode == NXDomain
    case 4 => rcode == NotImp
    case 5 => rcode == Refused
    case _ => rcode == ServFail
  }

  predicate OpcodeNumber(opcode: Opcode, n: nat) {
    match n
    case 0 => opcode == Query
    case 1 => opcode == IQuery
    case 2 => opcode == Status
    case _ => opcode == Reserved
  }

  lemma LowBits(f: u16)
    ensures f % 256 % 16 == f % 16 && f / 256 / 8 % 16 == f / 0x800 % 16
    ensures f / 256 / 128 == f / 0x8000 % 2
  {
    assert f / 256 / 8 == f / 0x800 && f / 256 / 128 == f / 0x8000;
  }

  /** The codes of a parsed header are the four low bits of the fourth octet and four bits of
      the third; numbers without a name become server failure and the reserved opcode. */
  lemma CodesAreRead(data: seq<byte>, pos: nat)
    requires pos + HEADER_LENGTH <= |data|
    ensures var h := ParseHeader(data, pos).value;
      && RcodeNumber(h.rcode, data[pos + 3] % 16) && OpcodeNumber(h.opcode, data[pos + 2] / 8 % 16)
      && (h.isResponse <==> data[pos + 2] >= 128)
  {
    OctetsOfU16(data, pos + 2);
    LowBits(U16At(data, pos + 2));
  }

  /** A written header holds the numbers of its codes. */
  lemma CodesAreWritten(h: Header)
    ensures var b := EncodeHeader(h);
      && b[3] % 16 <= 5 && RcodeNumber(h.rcode, b[3] % 16)
      && b[2] / 8 % 16 <= 3 && OpcodeNumber(h.opcode, b[2] / 8 % 16)
      && (h.isResponse <==> b[2] >= 128)
  {
    hide EncodeHeader, Flags;
    HeaderOctetsOf(h);
    LowBits(Flags(h));
    CodesOfFlags(h);
    HighBit(h);
  }

  lemma CodesOfFlags(h: Header)
    ensures Flags(h) % 16 == h.rcode.Code() && Flags(h) / 0x800 % 16 == h.opcode.Code()
  {
    var qr, aa, tc := Weigh(h.isResponse, 1), Weigh(h.authoritative, 1), Weigh(h.truncated, 1);
    var rd, ra := Weigh(h.recursionDesired, 1), Weigh(h.recursionAvailable, 1);
    var op, rc, f := h.opcode.Code(), h.rcode.Code(), Flags(h);
    assert f == qr * 0x8000 + op * 0x800 + aa * 0x400 + tc * 0x200 + rd * 0x100 + ra * 0x80 + rc;
    SumUnpacks(f, qr, op, aa, tc, rd, ra, rc);
  }

  lemma HighBit(h: Header)
    ensures h.isResponse <==> Flags(h) / 0x8000 % 2 == 1
  {
    FlagsUnpack(h);
  }
}
