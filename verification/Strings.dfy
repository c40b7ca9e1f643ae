/** The string methods of the standard library that the filter uses, on UTF-8 octets.
    White space is ASCII white space. */
module Strings {
  import opened Bytes

  const NEWLINE: byte := 10
  const RETURN: byte := 13
  const SPACE: byte := 32

  predicate IsSpace(b: byte) {
    9 <= b <= 13 || b == SPACE
  }

  /** `trim_start` */
  function TrimStart(s: Text): (r: Text)
    ensures |r| <= |s| && (r != [] ==> !IsSpace(r[0]) && r[|r| - 1] == s[|s| - 1])
  {
    if s != [] && IsSpace(s[0]) then TrimStart(s[1..]) else s
  }

  /** `trim_end` */
  function TrimEnd(s: Text): (r: Text)
    ensures |r| <= |s| && (r != [] ==> !IsSpace(r[|r| - 1]) && r[0] == s[0])
  {
    if s != [] && IsSpace(s[|s| - 1]) then TrimEnd(s[..|s| - 1]) else s
  }

  /** `trim` */
  function Trim(s: Text): Text {
    TrimEnd(TrimStart(s))
  }

  /** `trim_end_matches` of one character */
  function TrimEndByte(s: Text, b: byte): (r: Text)
    ensures r <= s && (r != [] ==> r[|r| - 1] != b)
  {
    if s != [] && s[|s| - 1] == b then TrimEndByte(s[..|s| - 1], b) else s
  }

  /** `trim_start_matches` of a string: the prefix is taken off as often as it is there. */
  function TrimStartMatches(s: Text, prefix: Text): (r: Text)
    requires prefix != []
    ensures !StartsWith(r, prefix)
  {
    if StartsWith(s, prefix) then TrimStartMatches(s[|prefix|..], prefix) else s
  }

  /** `split(b).next()` */
  function Before(s: Text, b: byte): Text {
    s[..IndexOf(s, b)]
  }

  function SpaceIndex(s: Text): (i: nat)
    ensures i <= |s| && (i < |s| ==> IsSpace(s[i]))
    ensures forall k | 0 <= k < i :: !IsSpace(s[k])
  {
    if s == [] || IsSpace(s[0]) then 0 else 1 + SpaceIndex(s[1..])
  }

  /** `split_whitespace().nth(1).unwrap_or("")` */
  function SecondWord(s: Text): Text {
    var t := TrimStart(s);
    var rest := TrimStart(t[SpaceIndex(t)..]);
    rest[..SpaceIndex(rest)]
  }

  /** `lines`: a line ends with a newline, which may have a carriage return before it;
      the last line may have no newline. */
  function Lines(s: Text): seq<Text>
    decreases |s|
  {
    if s == [] then []
    else
      var i := IndexOf(s, NEWLINE);
      if i == |s| then [s] else [StripReturn(s[..i])] + Lines(s[i + 1..])
  }

  function StripReturn(s: Text): Text {
    if s != [] && s[|s| - 1] == RETURN then s[..|s| - 1] else s
  }

  // ----- Trimming what needs no trimming -----

  lemma TrimNothing(s: Text)
    requires s == [] || (!IsSpace(s[0]) && !IsSpace(s[|s| - 1]))
    ensures Trim(s) == s
  {
  }

  lemma {:induction false} TrimStartOf(a: Text, b: Text)
    requires b != [] && !IsSpace(b[0])
    ensures TrimStart(a + b) == TrimStart(a) + b
  {
    var s := a + b;
    if a == [] {
      assert s == b;
    } else {
      assert s[0] == a[0];
      if IsSpace(a[0]) {
        TrimStartOf(a[1..], b);
        assert s[1..] == a[1..] + b;
      }
    }
  }

  lemma {:induction false} TrimEndOf(a: Text, b: Text)
    requires a != [] && !IsSpace(a[|a| - 1])
    ensures TrimEnd(a + b) == a + TrimEnd(b)
  {
    var s := a + b;
    if b == [] {
      assert s == a && a + TrimEnd(b) == a;
    } else {
      assert s[|s| - 1] == b[|b| - 1];
      if IsSpace(b[|b| - 1]) {
        TrimEndOf(a, b[..|b| - 1]);
        assert s[..|s| - 1] == a + b[..|b| - 1];
      }
    }
  }

  lemma {:induction false} TrimEndByteOf(a: Text, c: Text, b: byte)
    requires a != [] && a[|a| - 1] != b
    ensures TrimEndByte(a + c, b) == a + TrimEndByte(c, b)
  {
    if c == [] {
      assert a + c == a && a + TrimEndByte(c, b) == a;
    } else if c[|c| - 1] == b {
      TrimEndByteOf(a, c[..|c| - 1], b);
      assert (a + c)[..|a + c| - 1] == a + c[..|c| - 1];
    }
  }

  lemma {:induction false} TrimIsTrimmed(s: Text)
    ensures Trim(s) == [] || (!IsSpace(Trim(s)[0]) && !IsSpace(Trim(s)[|Trim(s)| - 1]))
  {
  }
}
