/** Domain names on the wire: `read_domain_name` and `write_domain_name`
    (section 4.1.4 of RFC 1035). */
module Names {
  import opened Bytes
  import opened Wire
  import Utf8
  import opened Strings

  const MAX_JUMPS: nat := 50
  const MAX_LABEL: nat := 191

  /** The fourteen low bits of a pointer, whose two high bits are set. */
  function PointerTarget(hi: byte, lo: byte): nat
    requires hi >= 192
  {
    (hi - 192) * 256 + lo
  }

  /** `acc` followed by one more label, with a dot between them if `acc` is not empty. */
  function Glue(acc: Text, part: Text): Text {
    (if acc == [] then [] else acc + [DOT]) + part
  }

  /** The rest of the reading loop, from offset `pos` after `jumps` pointers, with
      `acc` read so far. */
  function NameFrom(data: seq<byte>, pos: nat, jumps: nat, acc: Text): Parsed<Text>
    requires jumps <= MAX_JUMPS + 1
    decreases MAX_JUMPS + 1 - jumps, |data| - pos
  {
    if jumps > MAX_JUMPS then Fail(InvalidDomainName(PointerLoop))
    else if pos >= |data| then Fail(BufferTooShort(NameEnd))
    else if data[pos] == 0 then Done(acc, pos + 1)
    else if data[pos] >= 192 then
      if pos + 1 >= |data| then Fail(BufferTooShort(PointerOctet))
      else NameFrom(data, PointerTarget(data[pos], data[pos + 1]), jumps + 1, acc)
    else
      var end := pos + 1 + data[pos];
      if end > |data| then Fail(BufferTooShort(LabelOctets))
      else if !Utf8.Valid(data[pos + 1..end]) then Fail(InvalidDomainName(LabelNotUtf8))
      else NameFrom(data, end, jumps, Glue(acc, Lower(data[pos + 1..end])))
  }

  function ReadName(data: seq<byte>, pos: nat): Parsed<Text> {
    NameFrom(data, pos, 0, [])
  }

  method ReadDomainName(cur: Cursor) returns (r: Outcome<Text>)
    modifies cur
    ensures Agrees(r, cur.pos, ReadName(cur.data, old(cur.pos)))
  {
    var domain: Text := [];
    var jumps := 0;
    while true
      invariant jumps <= MAX_JUMPS + 1
      invariant NameFrom(cur.data, cur.pos, jumps, domain) == ReadName(cur.data, old(cur.pos))
      decreases MAX_JUMPS + 1 - jumps, |cur.data| - cur.pos
    {
      if jumps > MAX_JUMPS {
        return Err(InvalidDomainName(PointerLoop));
      }
      if cur.Remaining() == 0 {
        return Err(BufferTooShort(NameEnd));
      }
      var len := cur.GetU8();
      if len == 0 {
        break;
      }
      if len >= 192 {
        if cur.Remaining() == 0 {
          return Err(BufferTooShort(PointerOctet));
        }
        var lo := cur.GetU8();
        jumps := jumps + 1;
        cur.SetPosition(PointerTarget(len, lo));
      } else {
        if cur.Remaining() < len {
          return Err(BufferTooShort(LabelOctets));
        }
        var part := cur.CopyToSlice(len);
        if !Utf8.Valid(part) {
          return Err(InvalidDomainName(LabelNotUtf8));
        }
        if domain != [] {
          domain := domain + [DOT];
        }
        domain := domain + Lower(part);
      }
    }
    return Ok(domain);
  }

  // ----- Writing -----

  function TrimDots(s: Text): (r: Text)
    ensures r <= s && (r == [] || r[|r| - 1] != DOT)
  {
    TrimEndByte(s, DOT)
  }

  function Split(s: Text): (ls: seq<Text>)
    ensures |ls| >= 1
  {
    var i := IndexOf(s, DOT);
    if i == |s| then [s] else [s[..i]] + Split(s[i + 1..])
  }

  function Join(labels: seq<Text>): Text {
    if labels == [] then []
    else if |labels| == 1 then labels[0]
    else labels[0] + [DOT] + Join(labels[1..])
  }

  /** The length octet is the label's length cut to eight bits. */
  function EncodeLabel(part: Text): seq<byte> {
    [Cut8(|part|)] + part
  }

  function EncodeLabels(labels: seq<Text>): seq<byte> {
    if labels == [] then [] else EncodeLabel(labels[0]) + EncodeLabels(labels[1..])
  }

  /** The labels that are written for a name; the root has none. */
  function NameLabels(domain: Text): seq<Text> {
    var trimmed := TrimDots(domain);
    if trimmed == [] then [] else Split(trimmed)
  }

  function EncodeName(domain: Text): seq<byte> {
    EncodeLabels(NameLabels(domain)) + [0]
  }

  method WriteDomainName(domain: Text, buf: Buffer)
    modifies buf
    ensures buf.bytes == old(buf.bytes) + EncodeName(domain)
  {
    var normalized := TrimDots(domain);
    if normalized == [] {
      assert EncodeName(domain) == [0];
      buf.PutU8(0);
      return;
    }
    var labels := Split(normalized);
    for i := 0 to |labels|
      invariant buf.bytes + EncodeLabels(labels[i..]) == old(buf.bytes) + EncodeLabels(labels)
    {
      var part := labels[i];
      assert labels[i..][1..] == labels[i + 1..];
      buf.PutU8(Cut8(|part|));
      buf.PutSlice(part);
    }
    buf.PutU8(0);
    assert buf.bytes == old(buf.bytes) + EncodeLabels(labels) + [0];
  }
}
