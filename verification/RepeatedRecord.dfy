/** A query of 32 octets that is parsed to a packet of 65535 records: the name of its last
    record is a pointer, the cursor is not brought back from where the pointer leads, and so
    the record in front of the pointer is read once more for each record that is announced. */
module RepeatedRecord {
  import opened Bytes
  import opened Wire
  import opened Names
  import opened Records
  import opened Sections
  import opened Packets
  import opened PacketRoundTrip
  import Letters
  import Headers
  import ReplySizes

  /** One question, for the address of `a`, and 65535 announced answers. */
  const QUERY: seq<byte> :=
    [0, 0, 0, 0, 0, 1, 255, 255, 0, 0, 0, 0, 1, 97, 0, 0, 1, 0, 1, 0, 0, 2, 0, 1, 0, 0, 0, 0, 0, 0, 192, 19]

  const QUESTION: Question := Question([97], A, IN)

  const RECORD: ResourceRecord := ResourceRecord([], NS, IN, 0, RawData([]))

  function Copies(n: nat): seq<ResourceRecord> {
    seq(n, _ => RECORD)
  }

  /** What the query is parsed to. */
  function Read(): Packet {
    Packet(
      Headers.Header(0, false, Headers.Query, false, false, false, false, Headers.NoError, 1, 0xFFFF, 0, 0),
      [QUESTION], Copies(0xFFFF), [], [])
  }

  /** A zero octet, or a pointer to one, is the name of the root. */
  lemma RootName(data: seq<byte>, pos: nat)
    requires pos < |data| && data[pos] == 0
    ensures ReadName(data, pos) == Done([], pos + 1)
  {
  }

  lemma PointerToRoot(data: seq<byte>, pos: nat, target: nat)
    requires pos + 1 < |data| && data[pos] >= 192 && target == PointerTarget(data[pos], data[pos + 1])
    requires target < |data| && data[target] == 0
    ensures ReadName(data, pos) == Done([], target + 1)
  {
    assert NameFrom(data, pos, 0, []) == NameFrom(data, target, 1, []);
  }

  lemma QuestionIsRead()
    ensures ParseQuestion(QUERY, 12) == Done(QUESTION, 19)
  {
    hide ReadName;
    Letters.LetterName(QUERY, 12, 97);
  }

  /** A name-server record of class IN without TTL and data. */
  lemma EmptyBody(data: seq<byte>, p: nat)
    requires p + 10 <= |data| && U16At(data, p) == 2 && U16At(data, p + 2) == 1
    requires U32At(data, p + 4) == 0 && U16At(data, p + 8) == 0
    ensures ParseBody(data, [], p) == Done(RECORD, p + 10)
  {
    hide U16At, U32At, ReadName;
    assert data[p + 10..p + 10] == [];
  }

  lemma BodyIsRead()
    ensures ParseBody(QUERY, [], 20) == Done(RECORD, 30)
  {
    hide ParseBody;
    EmptyBody(QUERY, 20);
  }

  /** Both the record and the pointer behind it are read as the same record, with the cursor
      on the pointer. */
  lemma RecordIsRead()
    ensures ParseRecord(QUERY, 19) == Done(RECORD, 30) && ParseRecord(QUERY, 30) == Done(RECORD, 30)
  {
    hide ParseBody, ReadName;
    BodyIsRead();
    RootName(QUERY, 19);
    PointerToRoot(QUERY, 30, 19);
  }

  lemma {:induction false} RecordIsRepeated(n: nat, acc: seq<ResourceRecord>)
    ensures ParseAll(QUERY, 30, n, ParseRecord, acc) == Done(acc + Copies(n), 30)
  {
    hide ParseRecord;
    RecordIsRead();
    if n == 0 {
      assert acc + Copies(0) == acc;
    } else {
      RecordIsRepeated(n - 1, acc + [RECORD]);
      assert acc + [RECORD] + Copies(n - 1) == acc + Copies(n);
    }
  }

  lemma HeaderIsRead()
    ensures Headers.ParseHeader(QUERY, 0) == Done(Read().header, 12)
  {
    hide Copies;
    assert U16At(QUERY, 2) == 0 && U16At(QUERY, 6) == 0xFFFF;
  }

  lemma AnswersAreRead()
    ensures ParseAll(QUERY, 19, 0xFFFF, ParseRecord, []) == Done(Copies(0xFFFF), 30)
  {
    hide ParseRecord;
    RecordIsRead();
    RecordIsRepeated(0xFFFE, [RECORD]);
    assert [] + [RECORD] == [RECORD];
    assert [RECORD] + Copies(0xFFFE) == Copies(0xFFFF);
  }

  lemma QuestionsAreRead()
    ensures ParseAll(QUERY, 12, 1, ParseQuestion, []) == Done([QUESTION], 19)
  {
    hide ParseQuestion;
    QuestionIsRead();
    assert [] + [QUESTION] == [QUESTION];
  }

  /** 32 octets make 65535 answers. */
  lemma QueryIsRead()
    ensures |QUERY| == 32 && Decode(QUERY) == Ok(Read())
  {
    hide ParseAll, Copies, Headers.ParseHeader;
    HeaderIsRead();
    QuestionsAreRead();
    AnswersAreRead();
    NothingRead(30);
  }

  lemma NothingRead(pos: nat)
    ensures ParseAll(QUERY, pos, 0, ParseRecord, []) == Done([], pos)
  {
  }

  lemma {:induction false} CopiesAre11Octets(n: nat)
    ensures |EncodeAll(Copies(n), EncodeRecord)| == 11 * n
  {
    hide EncodeRecord;
    if n > 0 {
      assert Copies(n)[0] == RECORD && Copies(n)[1..] == Copies(n - 1);
      CopiesAre11Octets(n - 1);
      RecordIs11Octets();
    }
  }

  lemma RecordIs11Octets()
    ensures |EncodeRecord(RECORD)| == 11
  {
    hide Be16, Be32;
  }

  /** Written again, they take 720885 of more than 700000 octets. */
  lemma ReplyIsLong()
    ensures |Encode(Read())| > 700_000
  {
    hide EncodeAll, Copies, Headers.EncodeHeader;
    CopiesAre11Octets(0xFFFF);
    ReplySizes.EncodeLength(Read());
  }

  /** In address mode the blocked reply has one answer more than can be counted: its count is
      cut to zero, and the client does not read it back. */
  lemma BlockedReplyIsLost()
    ensures Decode(QUERY) == Ok(Read())
    ensures var b := Blocked(Read(), false);
      WithCounts(b).header.ancount == 0 && Decode(Encode(b)) != Ok(WithCounts(b))
  {
    hide Decode, Encode, CleanPacket;
    QueryIsRead();
    BlockedReplyIsRead(QUERY, false);
    assert |Blocked(Read(), false).answers| == 0x1_0000;
  }
}
