/** A record whose length field is cut and that is read back all the same. */
module LongNames {
  import opened Bytes
  import opened Wire
  import opened Names
  import opened NameRoundTrip
  import opened Records
  import opened RecordRoundTrip
  import Letters

  /** `a.a.….a`, with `n` dots. */
  function Dotted(n: nat): (s: Text)
    ensures |s| == 2 * n + 1 && s[|s| - 1] == 97
  {
    if n == 0 then [97] else [97, DOT] + Dotted(n - 1)
  }

  /** On the wire a name has one octet more for each label than between its dots, and the zero. */
  lemma {:induction false} SplitLength(s: Text)
    ensures |EncodeLabels(Split(s))| == |s| + 1
  {
    hide IndexOf;
    var i := IndexOf(s, DOT);
    if i == |s| {
      OneLabel(s);
      assert ([s] + [])[1..] == [];
    } else {
      SplitFromFirst(s, s[..i], s[i + 1..]);
      SplitLength(s[i + 1..]);
      assert ([s[..i]] + Split(s[i + 1..]))[1..] == Split(s[i + 1..]);
    }
  }

  lemma {:induction false} DottedLower(n: nat)
    ensures Lower(Dotted(n)) == Dotted(n)
  {
    if n == 0 {
      assert Lower([97]) == [97];
    } else {
      DottedLower(n - 1);
      LowerConcat([97, DOT], Dotted(n - 1));
      assert Lower([97, DOT]) == [97, DOT];
    }
  }

  lemma {:induction false} DottedLabels(n: nat)
    ensures GoodLabels(Split(Dotted(n)))
  {
    assert GoodLabel([97]) by { Letters.LetterIsValid(97); }
    hide GoodLabel, Split;
    if n == 0 {
      assert IndexOf([97], DOT) == 1;
      OneLabel([97]);
      assert ([[97]] + [])[1..] == [];
    } else {
      var s, rest := Dotted(n), Dotted(n - 1);
      assert s == [97] + [DOT] + rest && IndexOf([97], DOT) == 1;
      IndexOfBeforeConcat([97], DOT, rest);
      SplitFromFirst(s, [97], rest);
      DottedLabels(n - 1);
      assert ([[97]] + Split(rest))[1..] == Split(rest);
    }
  }

  lemma DottedIsExact(n: nat)
    ensures ExactName(Dotted(n)) && |EncodeName(Dotted(n))| == 2 * n + 3
  {
    hide GoodLabels, Split, EncodeLabels, Lower, Dotted;
    DottedLower(n);
    DottedLabels(n);
    SplitLength(Dotted(n));
    assert TrimDots(Dotted(n)) == Dotted(n);
  }

  /** An alias for a name of 65537 octets. */
  function LongAlias(): ResourceRecord {
    ResourceRecord([], CNAME, IN, 0, CNAMEData(Dotted(32767)))
  }

  lemma RootIsExact()
    ensures ExactName([]) && |EncodeName([])| == 1
  {
    assert Lower([]) == [];
  }

  lemma LongAliasIsGood()
    ensures GoodRecord(LongAlias()) && |EncodeRdata(LongAlias().rdata)| == 65537 && |EncodeName([])| == 1
  {
    hide Dotted, ExactName, EncodeName;
    DottedIsExact(32767);
    RootIsExact();
  }

  /** Its RDLENGTH says 1, and it is read back in every message. */
  lemma RdlengthCanBeCut(data: seq<byte>, pos: nat)
    requires At(data, pos, EncodeRecord(LongAlias()))
    ensures |EncodeRdata(LongAlias().rdata)| == 65537
    ensures pos + 11 <= |data| && U16At(data, pos + 9) == 1
    ensures ParseRecord(data, pos) == Done(LongAlias(), pos + |EncodeRecord(LongAlias())|)
  {
    hide EncodeRecord, EncodeBody, EncodeName, EncodeRdata, GoodRecord, ParseRecord, U16At;
    LongAliasIsGood();
    AtRecord(data, pos, LongAlias());
    AtFixed(data, pos + 1, LongAlias());
    CutOf65537();
    RecordSurvivesExactly(data, pos, LongAlias());
  }

  lemma CutOf65537()
    ensures Cut16(65537) == 1
  {
  }
}
