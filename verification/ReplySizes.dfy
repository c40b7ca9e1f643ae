/** How long the messages are that the handlers write themselves. */
module ReplySizes {
  import opened Bytes
  import opened Names
  import opened Records
  import opened Sections
  import opened Packets
  import Headers
  import C = Cache

  lemma EncodeLength(p: Packet)
    ensures |Encode(p)| == Headers.HEADER_LENGTH + |EncodeSections(p)|
  {
    hide EncodeSections, Headers.EncodeHeader;
  }

  /** The header does not count: another one makes the message no longer. */
  lemma SameSectionsSameLength(p: Packet, header: Headers.Header)
    ensures |Encode(p.(header := header))| == |Encode(p)|
  {
    hide EncodeAll, Headers.EncodeHeader;
    EncodeLength(p);
    EncodeLength(p.(header := header));
  }

  lemma AgedRecordLength(r: ResourceRecord, ttl: u32)
    ensures |EncodeRecord(r.(ttl := ttl))| == |EncodeRecord(r)|
  {
    hide EncodeName, EncodeRdata, Be16, Be32;
  }

  lemma {:induction false} AgedLength(rs: seq<ResourceRecord>, aged: seq<ResourceRecord>, ttl: u32)
    requires |aged| == |rs| && forall i | 0 <= i < |rs| :: aged[i] == rs[i].(ttl := ttl)
    ensures |EncodeAll(aged, EncodeRecord)| == |EncodeAll(rs, EncodeRecord)|
  {
    hide EncodeRecord;
    if rs != [] {
      AgedRecordLength(rs[0], ttl);
      AgedLength(rs[1..], aged[1..], ttl);
    }
  }

  /** A hit is as long as the packet that was stored. */
  lemma AgedPacketLength(p: Packet, ttl: u32)
    ensures |Encode(C.Aged(p, ttl))| == |Encode(p)|
  {
    hide EncodeAll, Headers.EncodeHeader;
    EncodeLength(p);
    EncodeLength(C.Aged(p, ttl));
    AgedLength(p.answers, C.Aged(p, ttl).answers, ttl);
  }

  /** What address mode adds: the name once more, ten fixed octets and the address. */
  function AddedLength(p: Packet, useNxdomain: bool): nat {
    if AddsAddress(p, useNxdomain) then |EncodeName(p.questions[0].name)| + 14 else 0
  }

  lemma ZeroAddressLength(name: Text)
    ensures |EncodeRecord(ZeroAddress(name))| == |EncodeName(name)| + 14
  {
    hide EncodeName, Be16, Be32;
  }

  lemma BlockedLength(p: Packet, useNxdomain: bool)
    ensures |Encode(Blocked(p, useNxdomain))| == |Encode(p)| + AddedLength(p, useNxdomain)
  {
    hide EncodeRecord, EncodeAll, Headers.EncodeHeader, EncodeName;
    var b := Blocked(p, useNxdomain);
    EncodeLength(p);
    EncodeLength(b);
    if AddsAddress(p, useNxdomain) {
      var zero := ZeroAddress(p.questions[0].name);
      EncodeAllConcat(p.answers, [zero], EncodeRecord);
      ZeroAddressLength(p.questions[0].name);
      OneRecord(zero);
    } else {
      assert b.answers == p.answers;
    }
  }

  lemma OneRecord(r: ResourceRecord)
    ensures EncodeAll([r], EncodeRecord) == EncodeRecord(r)
  {
    hide EncodeRecord;
    assert [r][1..] == [] && EncodeRecord(r) + [] == EncodeRecord(r);
  }
}
