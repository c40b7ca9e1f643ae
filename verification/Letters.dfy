/** Names of one small letter, of which the concrete examples are made. */
module Letters {
  import opened Bytes
  import opened Wire
  import opened Names
  import opened Strings
  import opened Trie
  import opened FilterLaws
  import Utf8

  predicate Letter(b: byte) {
    97 <= b <= 122
  }

  lemma LetterIsValid(b: byte)
    requires Letter(b)
    ensures Utf8.Valid([b]) && Lower([b]) == [b]
  {
    assert Utf8.First([b]) == Utf8.Piece(1, true) && [b][1..] == [];
  }

  lemma LetterName(data: seq<byte>, pos: nat, b: byte)
    requires Letter(b) && pos + 3 <= |data| && data[pos] == 1 && data[pos + 1] == b && data[pos + 2] == 0
    ensures ReadName(data, pos) == Done([b], pos + 3)
  {
    hide Utf8.Valid, Lower;
    LetterIsValid(b);
    assert data[pos + 1..pos + 2] == [b] && Glue([], [b]) == [b];
    assert NameFrom(data, pos, 0, []) == NameFrom(data, pos + 2, 0, [b]);
  }

  /** A pointer beyond offset 255 is followed to the name that stands there. */
  lemma FarPointerIsFollowed(data: seq<byte>, b: byte)
    requires Letter(b) && |data| >= 271 && data[0] == 193 && data[1] == 12
    requires data[268] == 1 && data[269] == b && data[270] == 0
    ensures ReadName(data, 0) == Done([b], 271)
  {
    hide Utf8.Valid, Lower;
    LetterIsValid(b);
    assert data[269..270] == [b] && Glue([], [b]) == [b];
    assert NameFrom(data, 0, 0, []) == NameFrom(data, 268, 1, []);
    assert NameFrom(data, 268, 1, []) == NameFrom(data, 270, 1, [b]);
  }

  lemma LetterIsNormal(b: byte)
    requires Letter(b)
    ensures Trim([b]) == [b] && Normalize([b]) == [b]
  {
    TrimNothing([b]);
    assert TrimEndByte([b], DOT) == [b] && Lower([b]) == [b];
  }

  /** As a line of a block list, a letter blocks the host of that name. */
  lemma LetterBlocksItself(b: byte)
    requires Letter(b)
    ensures BlockTarget([b]) == Some([b]) && ExceptionTarget([b]) == None
  {
    LetterIsNormal(b);
    assert RuleBody([b]) == [b];
  }
}
