/** What the casts, the big-endian numbers and the lower-casing of the program mean. */
module Numbers {
  import opened Bytes

  // ----- The casts to fewer bits keep the remainder -----

  lemma {:induction false} Cut8IsRemainder(n: nat)
    ensures Cut8(n) == n % 0x100
  {
    if n >= 0x100 {
      Cut8IsRemainder(n - 0x100);
    }
  }

  lemma {:induction false} Cut16IsRemainder(n: nat)
    ensures Cut16(n) == n % 0x1_0000
  {
    if n >= 0x1_0000 {
      Cut16IsRemainder(n - 0x1_0000);
    }
  }

  // ----- Numbers on the wire, highest octet first -----

  lemma SixteenBits(data: seq<byte>, pos: nat, n: u16)
    requires pos + 2 <= |data|
    ensures var value := data[pos] as int * 0x100 + data[pos + 1] as int;
      U16At(data, pos) == value && (data[pos..pos + 2] == Be16(n) <==> value == n)
  {
    assert data[pos..pos + 2] == [data[pos], data[pos + 1]];
  }

  lemma ThirtyTwoBits(data: seq<byte>, pos: nat, n: u32)
    requires pos + 4 <= |data|
    ensures var value := data[pos] as int * 0x100_0000 + data[pos + 1] as int * 0x1_0000
                         + data[pos + 2] as int * 0x100 + data[pos + 3] as int;
      U32At(data, pos) == value && (data[pos..pos + 4] == Be32(n) <==> value == n)
  {
    var part := data[pos..pos + 4];
    assert part == [data[pos], data[pos + 1], data[pos + 2], data[pos + 3]];
    if U32At(data, pos) == n {
      OctetsOf32(n, data[pos], data[pos + 1], data[pos + 2], data[pos + 3]);
    }
    if part == Be32(n) {
      AtU32(data, pos, n);
    }
  }

  lemma OctetsOf32(n: u32, a: byte, b: byte, c: byte, d: byte)
    requires n == a as int * 0x100_0000 + b as int * 0x1_0000 + c as int * 0x100 + d as int
    ensures Be32(n) == [a, b, c, d]
  {
    assert n / 0x100_0000 == a;
    assert n / 0x1_0000 == a as int * 0x100 + b as int;
    assert n / 0x100 == a as int * 0x1_0000 + b as int * 0x100 + c as int;
  }

  // ----- Letters -----

  const CAPITALS := "ABCDEFGHIJKLMNOPQRSTUVWXYZ"
  const SMALL := "abcdefghijklmnopqrstuvwxyz"

  /** A capital letter becomes the small letter of the same place in the alphabet, and every
      other octet stays. */
  lemma LowersTheAlphabet(b: byte)
    ensures forall i | 0 <= i < 26 :: b == CAPITALS[i] as int ==> LowerByte(b) == SMALL[i] as int
    ensures (forall i | 0 <= i < 26 :: b != CAPITALS[i] as int) ==> LowerByte(b) == b
  {
    forall i | 0 <= i < 26 ensures CAPITALS[i] as int == 65 + i && SMALL[i] as int == 97 + i {
      AlphabetInOrder(i);
    }
    if 65 <= b <= 90 {
      AlphabetInOrder(b - 65);
    }
  }

  lemma AlphabetInOrder(i: nat)
    requires i < 26
    ensures CAPITALS[i] as int == 65 + i && SMALL[i] as int == 97 + i
  {
    assert i == 0 || i == 1 || i == 2 || i == 3 || i == 4 || i == 5 || i == 6 || i == 7 || i == 8 || i == 9 || i == 10
        || i == 11 || i == 12 || i == 13 || i == 14 || i == 15 || i == 16 || i == 17 || i == 18 || i == 19 || i == 20
        || i == 21 || i == 22 || i == 23 || i == 24 || i == 25;
  }
}
