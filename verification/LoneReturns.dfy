/** What text mode does to the filter of a list: it cuts lines at lone carriage returns,
    and exactly when that changes the hosts of such lines do the pieces load another filter. */
module LoneReturns {
  import opened Bytes
  import opened Strings
  import opened Trie
  import opened FilterLaws
  import opened Chunks
  import Letters

  // ----- Line endings -----

  /** A line ends with a line feed, octet 10, which may have one carriage return, octet 13,
      before it that does not belong to the line; the last line may have no ending. */
  lemma LineEndings(w: Text, rest: Text)
    requires 10 !in w
    ensures w != [] ==> Lines(w) == [w] && ReadLines(w) == [w]
    ensures w == [] || w[|w| - 1] != 13 ==> Lines(w + [10] + rest) == [w] + Lines(rest)
    ensures Lines(w + [13] + [10] + rest) == [w] + Lines(rest)
    ensures ReadLines(w + [10] + rest) == [w + [10]] + ReadLines(rest)
  {
    hide Lines, ReadLines;
    EndsAtFeed(w, rest);
    EndsAtFeed(w + [13], rest);
    LinesFromFirst(w + [10] + rest, StripReturn(w), rest);
    LinesFromFirst(w + [13] + [10] + rest, w, rest);
    ReadLinesFromFirst(w + [10] + rest, w + [10], rest);
    if w != [] {
      assert IndexOf(w, NEWLINE) == |w|;
      OneLine(w);
      OneReadLine(w);
    }
  }

  lemma EndsAtFeed(w: Text, rest: Text)
    requires 10 !in w
    ensures var s := w + [10] + rest;
      IndexOf(s, NEWLINE) == |w| < |s| && s[..|w|] == w && s[..|w| + 1] == w + [10] && s[|w| + 1..] == rest
  {
    assert IndexOf(w, NEWLINE) == |w|;
    IndexOfBeforeConcat(w, 10, rest);
  }

  /** Text mode makes a line feed of a carriage return, with the line feed behind it if there
      is one, and keeps all other octets. */
  lemma TextMode(w: Text, rest: Text)
    requires 13 !in w
    ensures Translate(w + rest) == w + Translate(rest)
    ensures Translate([13] + ([10] + rest)) == [10] + Translate(rest)
    ensures rest == [] || rest[0] != 10 ==> Translate([13] + rest) == [10] + Translate(rest)
  {
    TranslateKeeps(w, rest);
    var s := [13] + ([10] + rest);
    assert s[0] == 13 && s[1] == 10 && s[2..] == rest;
    assert ([13] + rest)[1..] == rest;
  }

  // ----- The lines of the text are the pieces of the lines, but for empty ones -----

  /** The lines that text mode makes of each line. */
  function Pieces(lines: seq<Text>): seq<Text> {
    if lines == [] then [] else Lines(Translate(lines[0])) + Pieces(lines[1..])
  }

  ghost predicate SameButEmpty(a: seq<Text>, b: seq<Text>) {
    forall l | l != [] :: l in a <==> l in b
  }

  lemma {:induction false} TranslateConcat(a: Text, b: Text)
    requires a != [] && a[|a| - 1] == RETURN ==> b == [] || b[0] != NEWLINE
    ensures Translate(a + b) == Translate(a) + Translate(b)
    decreases |a|
  {
    if a == [] {
      assert a + b == b;
    } else {
      var s := a + b;
      assert s[0] == a[0] && s[1..] == a[1..] + b;
      assert |a| > 1 ==> s[1] == a[1] && s[2..] == a[2..] + b;
      assert |a| == 1 && b != [] ==> s[1] == b[0];
      if a[0] == RETURN && |a| > 1 && a[1] == NEWLINE {
        TranslateConcat(a[2..], b);
      } else {
        TranslateConcat(a[1..], b);
      }
    }
  }

  /** A newline between two texts parts their lines, with perhaps an empty one between them. */
  lemma {:induction false} LinesJoin(x: Text, y: Text)
    requires NoReturn(x)
    ensures SameButEmpty(Lines(x + ([NEWLINE] + y)), Lines(x) + Lines(y))
    decreases |x|
  {
    hide Lines, IndexOf, NoReturn, StripReturn;
    var s, j := x + ([NEWLINE] + y), IndexOf(x, NEWLINE);
    if j == |x| {
      CleanLine(x, y);
      if x == [] {
        NoLines();
      } else {
        OneLine(x);
      }
    } else {
      var w, rest := x[..j], x[j + 1..];
      NewlineFreePrefix(x);
      NoReturnParts(x, j);
      LinesJoin(rest, y);
      assert x == w + ([NEWLINE] + rest) by { CutAt(x, j); }
      CleanLine(w, rest);
      CleanLine(w, rest + ([NEWLINE] + y));
      assert s == w + ([NEWLINE] + (rest + ([NEWLINE] + y)));
    }
  }

  lemma NoReturnParts(x: Text, j: nat)
    requires j < |x| && NoReturn(x)
    ensures NoReturn(x[..j]) && NoReturn(x[j + 1..])
  {
    assert forall k | j < k < |x| :: x[k] == x[j + 1..][k - j - 1];
  }

  lemma PiecesFirst(w: Text, ending: Text, rest: Text)
    requires ending == [NEWLINE] || ending == [RETURN, NEWLINE]
    requires w != [] && w[|w| - 1] == RETURN ==> ending != [NEWLINE]
    ensures SameButEmpty(Lines(Translate(w + (ending + rest))), Lines(Translate(w)) + Lines(Translate(rest)))
  {
    hide Lines, Translate;
    assert (ending + rest)[0] == ending[0];
    TranslateConcat(w, ending + rest);
    TranslateEnding(ending, rest);
    TranslateHasNoReturn(w);
    LinesJoin(Translate(w), Translate(rest));
  }

  lemma StrippedEnd(line: Text)
    ensures var w := StripReturn(line); w == line && w != [] ==> w[|w| - 1] != RETURN
  {
  }

  lemma {:induction false} CutLinesArePieces(s: Text)
    ensures SameButEmpty(Lines(Translate(s)), Pieces(Lines(s)))
    decreases |s|
  {
    hide Lines, Translate, IndexOf, StripReturn;
    if s == [] {
      NoLines();
      assert Translate([]) == [] by { NothingTranslates(); }
    } else if IndexOf(s, NEWLINE) == |s| {
      OneLine(s);
      assert ([s] + [])[1..] == [];
    } else {
      var i := IndexOf(s, NEWLINE);
      var w, rest := StripReturn(s[..i]), s[i + 1..];
      var ending := if s[..i] == w then [NEWLINE] else [RETURN, NEWLINE];
      LinesFromFirst(s, w, rest);
      FirstLineParts(s, i, w, ending, rest);
      StrippedEnd(s[..i]);
      PiecesFirst(w, ending, rest);
      CutLinesArePieces(rest);
      assert ([w] + Lines(rest))[1..] == Lines(rest);
    }
  }

  lemma NothingTranslates()
    ensures Translate([]) == []
  {
  }

  lemma {:induction false} PieceOfLine(lines: seq<Text>, l: Text, x: Text)
    requires l in lines && x in Lines(Translate(l))
    ensures x in Pieces(lines)
  {
    hide Lines, Translate;
    assert lines == [lines[0]] + lines[1..];
    if lines[0] != l {
      PieceOfLine(lines[1..], l, x);
    }
  }

  lemma {:induction false} LineOfPiece(lines: seq<Text>, x: Text) returns (l: Text)
    requires x in Pieces(lines)
    ensures l in lines && x in Lines(Translate(l))
  {
    hide Lines, Translate;
    if x in Lines(Translate(lines[0])) {
      l := lines[0];
    } else {
      l := LineOfPiece(lines[1..], x);
      assert l in lines[1..] && lines == [lines[0]] + lines[1..];
    }
  }

  // ----- The hosts -----

  /** A line without a carriage return is its own and only piece. */
  lemma PlainPieces(s: Text, l: Text)
    requires l in Lines(s) && l != [] && NoReturn(l)
    ensures Lines(Translate(l)) == [l]
  {
    hide Lines, NoReturn;
    TranslateKeeps(l, []);
    assert l + [] == l && l + Translate([]) == l by { NothingTranslates(); }
    LineHasNoNewline(s, l);
    OneLine(l);
  }

  lemma {:induction false} LineHasNoNewline(s: Text, l: Text)
    requires l in Lines(s)
    ensures IndexOf(l, NEWLINE) == |l|
    decreases |s|
  {
    hide Lines, IndexOf, StripReturn;
    if s == [] {
      NoLines();
    } else if IndexOf(s, NEWLINE) == |s| {
      OneLine(s);
    } else {
      var i := IndexOf(s, NEWLINE);
      var w, rest := StripReturn(s[..i]), s[i + 1..];
      LinesFromFirst(s, w, rest);
      if l == w {
        StripReturnParts(s[..i]);
        NewlineFreePrefix(s);
        NewlineFree(s[..i], w);
      } else {
        LineHasNoNewline(rest, l);
      }
    }
  }

  /** Each line of the list that holds a carriage return names only hosts that lines of the
      text name too, and its pieces only hosts that lines of the list name. */
  ghost predicate CutsNoHost(content: Text, target: Text -> Option<Text>) {
    forall l | l in Lines(content) && !NoReturn(l) ::
      && Single(target(l)) <= HostsNamed(Lines(Translate(content)), target)
      && HostsNamed(Lines(Translate(l)), target) <= HostsNamed(Lines(content), target)
  }

  lemma SameHostsExactly(content: Text, target: Text -> Option<Text>)
    requires target([]) == None
    ensures HostsNamed(Lines(content), target) == HostsNamed(Lines(Translate(content)), target)
       <==> CutsNoHost(content, target)
  {
    hide Lines, Translate, NoReturn;
    var lines, cut := Lines(content), Lines(Translate(content));
    CutLinesArePieces(content);
    NothingTranslates();
    NoLines();
    forall l | l in lines ensures HostsNamed(Lines(Translate(l)), target) <= HostsNamed(cut, target) {
      forall x | x in Lines(Translate(l)) ensures x in Pieces(lines) {
        PieceOfLine(lines, l, x);
      }
    }
    if CutsNoHost(content, target) {
      forall l | l in lines && target(l).Some? ensures target(l).value in HostsNamed(cut, target) {
        if NoReturn(l) {
          PlainPieces(content, l);
          PieceOfLine(lines, l, l);
        }
      }
      forall x | x in cut && target(x).Some? ensures target(x).value in HostsNamed(lines, target) {
        var l := LineOfPiece(lines, x);
        if NoReturn(l) && l != [] {
          PlainPieces(content, l);
        }
      }
    }
  }

  lemma EmptyNamesNothing()
    ensures BlockTarget([]) == None && ExceptionTarget([]) == None
  {
    assert Trim([]) == [];
  }

  // ----- The filters -----

  /** The lines that text mode makes of the list name the same hosts as its own lines. */
  ghost predicate SameHosts(content: Text) {
    var lines, cut := Lines(content), Lines(Translate(content));
    && HostsNamed(lines, BlockTarget) == HostsNamed(cut, BlockTarget)
    && HostsNamed(lines, ExceptionTarget) == HostsNamed(cut, ExceptionTarget)
  }

  /** Main result on lone carriage returns: the pieces of a list load the filter of the list,
      whatever allow files there are, exactly when cutting its lines at carriage returns
      changes none of the hosts that these lines block or except. */
  lemma ChunksLoadTheListExactly(content: Text, maxBytes: int, chunks: seq<seq<Text>>, files: seq<Option<Text>>)
    requires Greedy(ReadLines(Translate(content)), maxBytes, chunks)
    requires forall f :: f in files <==> f in ChunkFiles(chunks)
    ensures CutsNoHost(content, BlockTarget) && CutsNoHost(content, ExceptionTarget)
       <==> forall allowFiles :: Loaded(files, allowFiles) == Loaded([Some(content)], allowFiles)
  {
    hide Loaded, Lines, Translate, ReadLines, HostsNamed, CutsNoHost, BlockTarget, ExceptionTarget, AllowTarget;
    EmptyNamesNothing();
    SameHostsExactly(content, BlockTarget);
    SameHostsExactly(content, ExceptionTarget);
    OneFile(content);
    OneFile(Translate(content));
    forall allowFiles
      ensures Loaded(files, allowFiles) == Loaded([Some(Translate(content))], allowFiles)
    {
      PiecesLoadTheText(content, maxBytes, chunks, files, allowFiles);
    }
    forall allowFiles
      ensures SameHosts(content) ==> Loaded(files, allowFiles) == Loaded([Some(content)], allowFiles)
    {
      LoadedIs([Some(content)], allowFiles);
      LoadedIs([Some(Translate(content))], allowFiles);
    }
    if Loaded(files, []) == Loaded([Some(content)], []) {
      LoadedIs([Some(content)], []);
      LoadedIs([Some(Translate(content))], []);
      NoAllowLines();
    }
  }

  lemma NoAllowLines()
    ensures forall s: set<Text> :: s + HostsNamed(AllLines([]), AllowTarget) == s
  {
    assert HostsNamed(AllLines([]), AllowTarget) == {};
  }

  /** A list whose pieces load another filter: a comment, a lone carriage return and a host.
      As one file it blocks nothing; its pieces block the host. */
  lemma LoneReturnChangesFilter(maxBytes: int, chunks: seq<seq<Text>>)
    requires Greedy(ReadLines(Translate([HASH, RETURN, 97])), maxBytes, chunks)
    ensures Loaded([Some([HASH, RETURN, 97])], []).block.exact == {}
    ensures Loaded(ChunkFiles(chunks), []).block.exact == {[97]}
  {
    hide Loaded, Greedy, ReadLines;
    var list: Text, text: Text := [HASH, RETURN, 97], [HASH, NEWLINE, 97];
    TextOfLoneReturn();
    ChunksLoadTheList(list, maxBytes, chunks, ChunkFiles(chunks), []);
    LoadedIs([Some(list)], []);
    LoadedIs([Some(text)], []);
    OneFile(list);
    OneFile(text);
    CommentAndHost();
  }

  lemma TextOfLoneReturn()
    ensures Translate([HASH, RETURN, 97]) == [HASH, NEWLINE, 97]
    ensures Lines([HASH, RETURN, 97]) == [[HASH, RETURN, 97]]
    ensures Lines([HASH, NEWLINE, 97]) == [[HASH], [97]]
  {
    var list: Text, text: Text := [HASH, RETURN, 97], [HASH, NEWLINE, 97];
    assert list[1..] == [RETURN, 97] && [RETURN, 97][1..] == [97] && [97][1..] == [];
    assert Translate([97]) == [97] && Translate([RETURN, 97]) == [NEWLINE, 97];
    assert IndexOf(list, NEWLINE) == 3 && IndexOf(text, NEWLINE) == 1;
    assert text[..1] == [HASH] && text[2..] == [97] && Lines([97]) == [[97]];
  }

  lemma CommentAndHost()
    ensures HostsNamed([[HASH, RETURN, 97]], BlockTarget) == {} && HostsNamed([[HASH], [97]], BlockTarget) == {[97]}
  {
    hide HostsNamed, BlockTarget;
    CommentBlocksNothing([HASH, RETURN, 97]);
    CommentBlocksNothing([HASH]);
    Letters.LetterBlocksItself(97);
    HostsNamedCons([[HASH, RETURN, 97]], BlockTarget);
    HostsNamedCons([[HASH], [97]], BlockTarget);
    HostsNamedCons([[97]], BlockTarget);
    assert [[HASH, RETURN, 97]][1..] == [] && [[HASH], [97]][1..] == [[97]] && [[97]][1..] == [];
    NoNames();
  }

  lemma NoNames()
    ensures HostsNamed([], BlockTarget) == {}
  {
  }

  lemma CommentBlocksNothing(line: Text)
    requires line != [] && line[0] == HASH && !IsSpace(line[|line| - 1])
    ensures BlockTarget(line) == None
  {
    TrimNothing(line);
  }

}
