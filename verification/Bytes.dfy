/** Octets, fixed-width unsigned integers, and the text operations of the
    standard library that the resolver uses.  A Rust `String` is modelled as the
    sequence of its UTF-8 octets. */
module Bytes {

  type byte = x: int | 0 <= x < 0x100
  type u16 = x: int | 0 <= x < 0x1_0000
  type u32 = x: int | 0 <= x < 0x1_0000_0000
  type Text = seq<byte>

  datatype Option<+T> = None | Some(value: T)

  const DOT: byte := 46

  /** ASCII lower-casing of one octet; octets of multi-octet characters are kept. */
  function LowerByte(b: byte): byte {
    if 65 <= b <= 90 then b + 32 else b
  }

  function Lower(s: Text): Text {
    seq(|s|, i requires 0 <= i < |s| => LowerByte(s[i]))
  }

  lemma LowerIdempotent(s: Text)
    ensures Lower(Lower(s)) == Lower(s)
  {
    assert forall i | 0 <= i < |s| :: Lower(Lower(s))[i] == Lower(s)[i];
  }

  lemma LowerConcat(a: Text, b: Text)
    ensures Lower(a + b) == Lower(a) + Lower(b)
  {
    assert forall i | 0 <= i < |a + b| :: Lower(a + b)[i] == (Lower(a) + Lower(b))[i];
  }

  lemma LowerSlice(s: Text, lo: nat, hi: nat)
    requires lo <= hi <= |s|
    ensures Lower(s[lo..hi]) == Lower(s)[lo..hi]
  {
    assert forall i | 0 <= i < hi - lo :: Lower(s[lo..hi])[i] == Lower(s)[lo..hi][i];
  }

  /** The first index of `b` in `s`, or `|s|` when there is none. */
  function IndexOf(s: Text, b: byte): (i: nat)
    ensures i <= |s| && (i < |s| ==> s[i] == b)
    ensures forall k | 0 <= k < i :: s[k] != b
  {
    if s == [] || s[0] == b then 0 else 1 + IndexOf(s[1..], b)
  }

  lemma IndexOfBeforeConcat(a: Text, b: byte, c: Text)
    ensures IndexOf(a + [b] + c, b) == IndexOf(a, b)
  {
    var i := IndexOf(a, b);
    assert (a + [b] + c)[i] == b;
  }

  predicate StartsWith(s: Text, prefix: Text) {
    |prefix| <= |s| && s[..|prefix|] == prefix
  }

  predicate EndsWith(s: Text, suffix: Text) {
    |suffix| <= |s| && s[|s| - |suffix|..] == suffix
  }

  // The casts `as u8` and `as u16`, which keep the low bits.

  function Cut8(n: nat): (r: byte)
    ensures r <= n && (n < 0x100 <==> r == n) && (n >= 0x100 ==> r + 0x100 <= n)
  {
    if n < 0x100 then n else Cut8(n - 0x100)
  }

  function Cut16(n: nat): (r: u16)
    ensures r <= n && (n < 0x1_0000 <==> r == n) && (n >= 0x1_0000 ==> r + 0x1_0000 <= n)
  {
    if n < 0x1_0000 then n else Cut16(n - 0x1_0000)
  }

  // Big-endian encodings, and their inverses on a message.

  function Be16(n: u16): (b: seq<byte>)
    ensures |b| == 2
  {
    [n / 256, n % 256]
  }

  function Be32(n: u32): (b: seq<byte>)
    ensures |b| == 4
  {
    [n / 0x100_0000, n / 0x1_0000 % 256, n / 256 % 256, n % 256]
  }

  function U16At(data: seq<byte>, pos: nat): u16
    requires pos + 2 <= |data|
  {
    (data[pos] as int) * 256 + data[pos + 1] as int
  }

  function U32At(data: seq<byte>, pos: nat): u32
    requires pos + 4 <= |data|
  {
    (U16At(data, pos) as int) * 0x1_0000 + U16At(data, pos + 2) as int
  }

  /** `part` is what `data` holds from `pos` on, whatever comes before and after. */
  ghost predicate At(data: seq<byte>, pos: nat, part: seq<byte>) {
    pos + |part| <= |data| && data[pos..pos + |part|] == part
  }

  lemma AtSplit(data: seq<byte>, pos: nat, a: seq<byte>, b: seq<byte>)
    requires At(data, pos, a + b)
    ensures At(data, pos, a) && At(data, pos + |a|, b)
  {
    var ab := data[pos..pos + |a + b|];
    assert a == ab[..|a|] && b == ab[|a|..];
    assert data[pos..pos + |a|] == ab[..|a|];
    assert data[pos + |a|..pos + |a| + |b|] == ab[|a|..];
  }

  lemma AtWhole(data: seq<byte>)
    ensures At(data, 0, data)
  {
    assert data[0..|data|] == data;
  }

  lemma AtOctet(data: seq<byte>, pos: nat, b: byte)
    requires At(data, pos, [b])
    ensures data[pos] == b
  {
    assert data[pos..pos + 1][0] == b;
  }

  lemma AtU16(data: seq<byte>, pos: nat, n: u16)
    requires At(data, pos, Be16(n))
    ensures U16At(data, pos) == n
  {
    assert data[pos..pos + 2][0] == n / 256 && data[pos..pos + 2][1] == n % 256;
  }

  lemma AtFrontU16(data: seq<byte>, pos: nat, n: u16, rest: seq<byte>)
    requires At(data, pos, Be16(n) + rest)
    ensures U16At(data, pos) == n && At(data, pos + 2, rest)
  {
    hide Be16;
    AtSplit(data, pos, Be16(n), rest);
    AtU16(data, pos, n);
  }

  lemma AtU32(data: seq<byte>, pos: nat, n: u32)
    requires At(data, pos, Be32(n))
    ensures U32At(data, pos) == n
  {
    var w := data[pos..pos + 4];
    assert w[0] == n / 0x100_0000 && w[1] == n / 0x1_0000 % 256 && w[2] == n / 256 % 256 && w[3] == n % 256;
    assert data[pos] == w[0] && data[pos + 1] == w[1] && data[pos + 2] == w[2] && data[pos + 3] == w[3];
    assert n / 256 / 256 == n / 0x1_0000;
    assert n / 0x1_0000 / 256 == n / 0x100_0000;
  }
}
