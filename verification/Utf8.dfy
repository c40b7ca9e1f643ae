/** UTF-8 validity as `std::str::from_utf8` decides it, and the replacement
    decoding of `String::from_utf8_lossy` (one U+FFFD for each maximal invalid
    piece). */
module Utf8 {
  import opened Bytes

  /** The first piece of an octet string: a whole character or an invalid prefix. */
  datatype Piece = Piece(len: nat, whole: bool)

  const REPLACEMENT: Text := [0xEF, 0xBF, 0xBD]

  function Width(lead: byte): nat {
    if lead < 128 then 1
    else if 0xC2 <= lead <= 0xDF then 2
    else if 0xE0 <= lead <= 0xEF then 3
    else if 0xF0 <= lead <= 0xF4 then 4
    else 0
  }

  predicate Continues(s: Text, i: nat) {
    i < |s| && 128 <= s[i] < 192
  }

  /** The second octet is restricted further by some lead octets. */
  predicate SecondFits(s: Text)
    requires s != []
  {
    && Continues(s, 1)
    && (s[0] == 0xE0 ==> 0xA0 <= s[1])
    && (s[0] == 0xED ==> s[1] <= 0x9F)
    && (s[0] == 0xF0 ==> 0x90 <= s[1])
    && (s[0] == 0xF4 ==> s[1] <= 0x8F)
  }

  function First(s: Text): (p: Piece)
    requires s != []
    ensures 1 <= p.len <= |s| && p.len <= 4
  {
    var w := Width(s[0]);
    if w == 1 then Piece(1, true)
    else if w == 0 || !SecondFits(s) then Piece(1, false)
    else if w == 2 then Piece(2, true)
    else if !Continues(s, 2) then Piece(2, false)
    else if w == 3 then Piece(3, true)
    else if !Continues(s, 3) then Piece(3, false)
    else Piece(4, true)
  }

  predicate Valid(s: Text) {
    s == [] || (First(s).whole && Valid(s[First(s).len..]))
  }

  function Lossy(s: Text): Text {
    if s == [] then []
    else
      var p := First(s);
      (if p.whole then s[..p.len] else REPLACEMENT) + Lossy(s[p.len..])
  }

  /** A whole first character is recognised from its own octets alone. */
  lemma FirstIsLocal(s: Text, t: Text)
    requires s != [] && First(s).whole
    requires |t| >= First(s).len && t[..First(s).len] == s[..First(s).len]
    ensures First(t) == First(s)
  {
    var n := First(s).len;
    forall i | 0 <= i < n ensures t[i] == s[i] {
      assert t[..n][i] == s[..n][i];
    }
  }

  lemma {:induction false} ValidConcat(a: Text, b: Text)
    requires Valid(a) && Valid(b)
    ensures Valid(a + b)
  {
    if a == [] {
      assert a + b == b;
    } else {
      var n := First(a).len;
      assert (a + b)[..n] == a[..n];
      FirstIsLocal(a, a + b);
      assert (a + b)[n..] == a[n..] + b;
      ValidConcat(a[n..], b);
    }
  }

  lemma {:induction false} ValidLower(s: Text)
    ensures Valid(Lower(s)) <==> Valid(s)
  {
    if s == [] {
    } else {
      var n := First(s).len;
      assert First(Lower(s)) == First(s);
      LowerSlice(s, n, |s|);
      assert Lower(s)[n..] == Lower(s[n..]);
      ValidLower(s[n..]);
    }
  }

  /** An ASCII octet is never inside a character, so cutting there keeps both halves valid. */
  lemma {:induction false} ValidCut(a: Text, c: byte, b: Text)
    requires c < 128
    requires Valid(a + [c] + b)
    ensures Valid(a) && Valid(b)
  {
    var s := a + [c] + b;
    assert s[|a|] == c;
    var n := First(s).len;
    if a == [] {
      assert s[n..] == b;
    } else {
      assert n <= |a| by {
        assert forall i | 1 <= i < n :: Continues(s, i);
      }
      assert s[..n] == a[..n];
      FirstIsLocal(s, a);
      assert s[n..] == a[n..] + [c] + b;
      ValidCut(a[n..], c, b);
    }
  }

  /** Replacement decoding always yields a valid string. */
  lemma {:induction false} LossyIsValid(s: Text)
    ensures Valid(Lossy(s))
  {
    if s == [] {
    } else {
      var p := First(s);
      LossyIsValid(s[p.len..]);
      if p.whole {
        FirstIsLocal(s, s[..p.len]);
        assert s[..p.len][p.len..] == [];
        assert Valid(s[..p.len]);
        ValidConcat(s[..p.len], Lossy(s[p.len..]));
      } else {
        assert First(REPLACEMENT) == Piece(3, true) && REPLACEMENT[3..] == [];
        ValidConcat(REPLACEMENT, Lossy(s[p.len..]));
      }
    }
  }

  lemma {:induction false} LossyNeverShrinks(s: Text)
    ensures |Lossy(s)| >= |s|
  {
    if s == [] {
    } else {
      LossyNeverShrinks(s[First(s).len..]);
    }
  }

  /** Replacement decoding leaves a string alone exactly when it is valid already. */
  lemma {:induction false} LossyKeepsExactlyValid(s: Text)
    ensures Lossy(s) == s <==> Valid(s)
  {
    if s == [] {
    } else {
      var p := First(s);
      var rest := s[p.len..];
      LossyKeepsExactlyValid(rest);
      LossyNeverShrinks(rest);
      assert s == s[..p.len] + rest;
      if !p.whole && Lossy(s) == s {
        assert false;
      }
      if p.whole {
        assert Lossy(s)[p.len..] == Lossy(rest);
      }
    }
  }

  /** If replacement decoding only adds to the end of a string, it adds at most two octets. */
  lemma {:induction false} LossyExtension(s: Text)
    requires s <= Lossy(s)
    ensures |Lossy(s)| <= |s| + 2
  {
    if s == [] {
    } else {
      var p := First(s);
      var rest := s[p.len..];
      if p.whole {
        assert Lossy(s)[p.len..] == Lossy(rest);
        assert rest <= Lossy(rest) by {
          assert Lossy(s)[..|s|][p.len..] == Lossy(rest)[..|rest|];
        }
        LossyExtension(rest);
      } else {
        assert forall i | 0 <= i < |s| && i < 3 :: s[i] == Lossy(s)[i] == REPLACEMENT[i];
        assert |s| < 3 && rest == [];
      }
    }
  }
}
