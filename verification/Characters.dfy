/** What UTF-8 is, independently of how it is decoded: the octets of each Unicode scalar
    value, and that valid strings are exactly the strings of such characters. */
module Characters {
  import opened Bytes
  import opened Utf8

  predicate Scalar(c: nat) {
    c < 0xD800 || 0xE000 <= c < 0x11_0000
  }

  predicate Tail(b: byte) {
    0x80 <= b < 0xC0
  }

  /** The number of octets that a scalar value is encoded in. */
  function Octets(c: nat): nat {
    if c < 0x80 then 1 else if c < 0x800 then 2 else if c < 0x1_0000 then 3 else 4
  }

  /** What an octet adds to the lowest of its kind. */
  function Over(b: byte, base: int): int {
    b as int - base
  }

  /** `s` is the encoding of the scalar value `c`, six bits to an octet. */
  predicate Encodes(s: Text, c: nat) {
    && Scalar(c) && |s| == Octets(c)
    && (forall i | 1 <= i < |s| :: Tail(s[i]))
    && match |s|
       case 1 => c == s[0]
       case 2 => 0xC0 <= s[0] < 0xE0 && c == Over(s[0], 0xC0) * 64 + Over(s[1], 0x80)
       case 3 => 0xE0 <= s[0] < 0xF0 && c == Over(s[0], 0xE0) * 4096 + Over(s[1], 0x80) * 64 + Over(s[2], 0x80)
       case _ =>
         0xF0 <= s[0] < 0xF8
         && c == Over(s[0], 0xF0) * 0x4_0000 + Over(s[1], 0x80) * 4096 + Over(s[2], 0x80) * 64 + Over(s[3], 0x80)
  }

  /** The scalar value of a whole first piece. */
  function Value(s: Text): int
    requires s != [] && First(s).whole
  {
    match First(s).len
    case 1 => s[0]
    case 2 => Over(s[0], 0xC0) * 64 + Over(s[1], 0x80)
    case 3 => Over(s[0], 0xE0) * 4096 + Over(s[1], 0x80) * 64 + Over(s[2], 0x80)
    case _ => Over(s[0], 0xF0) * 0x4_0000 + Over(s[1], 0x80) * 4096 + Over(s[2], 0x80) * 64 + Over(s[3], 0x80)
  }

  lemma WholeIsCharacter(s: Text)
    requires s != [] && First(s).whole
    ensures Value(s) >= 0 && Encodes(s[..First(s).len], Value(s))
  {
    var t := s[..First(s).len];
    assert forall i | 0 <= i < |t| :: t[i] == s[i];
  }

  lemma CharacterIsWhole(s: Text, k: nat, c: nat)
    requires k <= |s| && Encodes(s[..k], c)
    ensures First(s) == Piece(k, true)
  {
    var t := s[..k];
    assert forall i | 0 <= i < k :: t[i] == s[i];
  }

  /** `s` is the scalar values `cs`, one after another. */
  ghost predicate Spelled(s: Text, cs: seq<nat>)
    decreases |cs|
  {
    if cs == [] then s == []
    else
      var k := Octets(cs[0]);
      k <= |s| && Encodes(s[..k], cs[0]) && Spelled(s[k..], cs[1..])
  }

  lemma {:induction false} ValuesOf(s: Text) returns (cs: seq<nat>)
    requires Valid(s)
    ensures Spelled(s, cs)
  {
    if s == [] {
      cs := [];
    } else {
      var k := First(s).len;
      WholeIsCharacter(s);
      var rest := ValuesOf(s[k..]);
      cs := [Value(s)] + rest;
      assert cs[1..] == rest;
    }
  }

  lemma {:induction false} SpelledIsValid(s: Text, cs: seq<nat>)
    requires Spelled(s, cs)
    ensures Valid(s)
    decreases |cs|
  {
    if cs != [] {
      var k := Octets(cs[0]);
      CharacterIsWhole(s, k, cs[0]);
      SpelledIsValid(s[k..], cs[1..]);
    }
  }

  ghost predicate Spellable(s: Text) {
    exists cs: seq<nat> :: Spelled(s, cs)
  }

  /** A string is valid exactly when it spells some list of scalar values. */
  lemma ValidExactly(s: Text)
    ensures Valid(s) <==> Spellable(s)
  {
    if Valid(s) {
      var cs := ValuesOf(s);
      assert Spellable(s) by { assert Spelled(s, cs); }
    } else if Spellable(s) {
      var cs: seq<nat> :| Spelled(s, cs);
      SpelledIsValid(s, cs);
    }
  }

  /** The replacement is the character U+FFFD. */
  lemma ReplacementIs()
    ensures Encodes(REPLACEMENT, 0xFFFD)
  {
  }

  /** `t` is the front of the encoding of some scalar value. */
  ghost predicate Begins(t: Text) {
    exists c: nat, u: Text :: Encodes(t + u, c)
  }

  lemma TwoBegin(s: Text)
    requires |s| >= 2 && SecondFits(s) && Width(s[0]) >= 3
    ensures Begins(s[..2])
  {
    var t, a, b := s[..2], s[0], s[1];
    if Width(a) == 3 {
      var u: Text := [0x80];
      assert t + u == [a, b, 0x80];
      assert Encodes(t + u, Over(a, 0xE0) * 4096 + Over(b, 0x80) * 64);
    } else {
      var u: Text := [0x80, 0x80];
      assert t + u == [a, b, 0x80, 0x80];
      assert Encodes(t + u, Over(a, 0xF0) * 0x4_0000 + Over(b, 0x80) * 4096);
    }
  }

  lemma ThreeBegin(s: Text)
    requires |s| >= 3 && SecondFits(s) && Width(s[0]) == 4 && Continues(s, 2)
    ensures Begins(s[..3])
  {
    var t, u: Text := s[..3], [0x80];
    assert t + u == [s[0], s[1], s[2], 0x80];
    assert Encodes(t + u, Over(s[0], 0xF0) * 0x4_0000 + Over(s[1], 0x80) * 4096 + Over(s[2], 0x80) * 64);
  }

  lemma OneMoreDoesNotBegin(s: Text)
    requires s != [] && !First(s).whole && First(s).len < |s|
    ensures !Begins(s[..First(s).len + 1])
  {
    var k := First(s).len;
    var t := s[..k + 1];
    forall c: nat, u: Text | Encodes(t + u, c) ensures false {
      var w := t + u;
      assert forall i | 0 <= i <= k :: w[i] == s[i];
      assert w[..|w|] == w;
      CharacterIsWhole(w, |w|, c);
    }
  }

  /** What one replacement stands for: the longest front of the rest that begins a
      character, or one octet if there is none. */
  lemma InvalidPieceIsMaximal(s: Text)
    requires s != [] && !First(s).whole
    ensures var k := First(s).len;
      (k == 1 || Begins(s[..k])) && (k < |s| ==> !Begins(s[..k + 1]))
  {
    if First(s).len == 2 {
      TwoBegin(s);
    } else if First(s).len == 3 {
      ThreeBegin(s);
    }
    if First(s).len < |s| {
      OneMoreDoesNotBegin(s);
    }
  }
}
