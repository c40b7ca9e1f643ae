/** The splitter that cuts a downloaded list into small files on line boundaries, and why
    loading the pieces is loading the list. */
module Chunks {
  import opened Bytes
  import opened Strings
  import opened FilterLaws

  function Flatten(lines: seq<Text>): Text {
    if lines == [] then [] else lines[0] + Flatten(lines[1..])
  }

  function Concat(chunks: seq<seq<Text>>): seq<Text> {
    if chunks == [] then [] else chunks[0] + Concat(chunks[1..])
  }

  function Size(lines: seq<Text>): nat {
    if lines == [] then 0 else |lines[0]| + Size(lines[1..])
  }

  /** A chunk is closed by the first line that brings it to `maxBytes`. */
  predicate Minimal(chunk: seq<Text>, maxBytes: int) {
    chunk != [] && (|chunk| > 1 ==> Size(chunk[..|chunk| - 1]) < maxBytes)
  }

  /** All lines in order, in minimal chunks, all but the last of which are big enough. */
  predicate Greedy(lines: seq<Text>, maxBytes: int, chunks: seq<seq<Text>>) {
    && Concat(chunks) == lines
    && (forall i | 0 <= i < |chunks| :: Minimal(chunks[i], maxBytes))
    && (forall i | 0 <= i < |chunks| - 1 :: Size(chunks[i]) >= maxBytes)
  }

  lemma {:induction false} SizeConcat(a: seq<Text>, b: seq<Text>)
    ensures Size(a + b) == Size(a) + Size(b)
  {
    if a == [] {
      assert a + b == b;
    } else {
      SizeConcat(a[1..], b);
      assert (a + b)[1..] == a[1..] + b;
    }
  }

  lemma {:induction false} ConcatSnoc(chunks: seq<seq<Text>>, c: seq<Text>)
    ensures Concat(chunks + [c]) == Concat(chunks) + c
  {
    if chunks == [] {
      assert chunks + [c] == [c] && [c][1..] == [] && Concat([c]) == c + [];
    } else {
      ConcatSnoc(chunks[1..], c);
      assert (chunks + [c])[1..] == chunks[1..] + [c];
    }
  }

  /** The first `k` lines: closed chunks, and the chunk that is being filled. */
  ghost predicate Filled(lines: seq<Text>, k: nat, maxBytes: int, chunks: seq<seq<Text>>, cur: seq<Text>)
    requires k <= |lines|
  {
    && Concat(chunks) + cur == lines[..k]
    && (forall i | 0 <= i < |chunks| :: Minimal(chunks[i], maxBytes) && Size(chunks[i]) >= maxBytes)
    && (cur != [] ==> Minimal(cur, maxBytes) && Size(cur) < maxBytes)
  }

  lemma ChunkGrows(cur: seq<Text>, line: Text, maxBytes: int)
    requires cur != [] ==> Size(cur) < maxBytes
    ensures Minimal(cur + [line], maxBytes) && Size(cur + [line]) == Size(cur) + |line|
  {
    SizeConcat(cur, [line]);
    assert (cur + [line])[..|cur|] == cur && [line][1..] == [];
  }

  lemma LineFills(lines: seq<Text>, k: nat, maxBytes: int, chunks: seq<seq<Text>>, cur: seq<Text>)
    requires k < |lines| && Filled(lines, k, maxBytes, chunks, cur)
    ensures var cur' := cur + [lines[k]];
      && Size(cur') == Size(cur) + |lines[k]|
      && (if Size(cur') >= maxBytes then Filled(lines, k + 1, maxBytes, chunks + [cur'], [])
          else Filled(lines, k + 1, maxBytes, chunks, cur'))
  {
    hide Minimal, Size, Concat;
    ChunkGrows(cur, lines[k], maxBytes);
    ConcatSnoc(chunks, cur + [lines[k]]);
    assert lines[..k + 1] == lines[..k] + [lines[k]];
    assert Concat(chunks) + (cur + [lines[k]]) == lines[..k + 1];
    assert Concat(chunks + [cur + [lines[k]]]) + [] == lines[..k + 1];
  }

  lemma FilledIsGreedy(lines: seq<Text>, maxBytes: int, chunks: seq<seq<Text>>, cur: seq<Text>)
    requires Filled(lines, |lines|, maxBytes, chunks, cur)
    ensures Greedy(lines, maxBytes, if cur != [] then chunks + [cur] else chunks)
  {
    hide Minimal, Size, Concat;
    assert lines[..|lines|] == lines && Concat(chunks) + [] == Concat(chunks);
    ConcatSnoc(chunks, cur);
  }

  method SplitIntoChunks(lines: seq<Text>, maxBytes: int) returns (chunks: seq<seq<Text>>)
    ensures Greedy(lines, maxBytes, chunks)
  {
    assert Concat([]) == [] && Size([]) == 0;
    hide Minimal, Size, Concat, Greedy;
    chunks := [];
    var cur: seq<Text> := [];
    var n := 0;
    for k := 0 to |lines|
      invariant Filled(lines, k, maxBytes, chunks, cur) && n == Size(cur)
    {
      LineFills(lines, k, maxBytes, chunks, cur);
      cur := cur + [lines[k]];
      n := n + |lines[k]|;
      if n >= maxBytes {
        chunks := chunks + [cur];
        cur, n := [], 0;
      }
    }
    FilledIsGreedy(lines, maxBytes, chunks, cur);
    if cur != [] {
      chunks := chunks + [cur];
    }
  }

  lemma GreedyTail(lines: seq<Text>, maxBytes: int, chunks: seq<seq<Text>>)
    requires Greedy(lines, maxBytes, chunks) && chunks != []
    ensures chunks[0] <= lines && Greedy(lines[|chunks[0]|..], maxBytes, chunks[1..])
  {
    var rest := chunks[1..];
    assert forall i | 0 <= i < |rest| :: rest[i] == chunks[i + 1];
    assert lines[|chunks[0]|..] == Concat(rest);
  }

  /** The first chunk of one greedy split is no shorter than that of another. */
  lemma FirstChunkLength(lines: seq<Text>, maxBytes: int, a: seq<seq<Text>>, b: seq<seq<Text>>)
    requires Greedy(lines, maxBytes, a) && Greedy(lines, maxBytes, b) && a != [] && b != []
    ensures |a[0]| >= |b[0]|
  {
    GreedyTail(lines, maxBytes, a);
    GreedyTail(lines, maxBytes, b);
    if |a[0]| < |b[0]| {
      var front := b[0][..|b[0]| - 1];
      assert lines == a[0] + Concat(a[1..]);
      assert |a| > 1;
      assert Minimal(b[0], maxBytes) && Size(a[0]) >= maxBytes;
      assert front == a[0] + front[|a[0]|..] by {
        assert a[0] == lines[..|a[0]|] && b[0] == lines[..|b[0]|];
      }
      SizeConcat(a[0], front[|a[0]|..]);
      assert false;
    }
  }

  lemma GreedyEmpty(lines: seq<Text>, maxBytes: int, a: seq<seq<Text>>)
    requires Greedy(lines, maxBytes, a)
    ensures a == [] <==> lines == []
  {
    if a != [] {
      assert Minimal(a[0], maxBytes);
    }
  }

  /** There is only one greedy split, so the method's contract says all there is to say. */
  lemma {:induction false} GreedyIsUnique(lines: seq<Text>, maxBytes: int, a: seq<seq<Text>>, b: seq<seq<Text>>)
    requires Greedy(lines, maxBytes, a) && Greedy(lines, maxBytes, b)
    ensures a == b
    decreases |a|
  {
    GreedyEmpty(lines, maxBytes, a);
    GreedyEmpty(lines, maxBytes, b);
    if lines != [] {
      FirstChunkLength(lines, maxBytes, a, b);
      FirstChunkLength(lines, maxBytes, b, a);
      GreedyTail(lines, maxBytes, a);
      GreedyTail(lines, maxBytes, b);
      assert a[0] == lines[..|a[0]|] == b[0];
      GreedyIsUnique(lines[|a[0]|..], maxBytes, a[1..], b[1..]);
      assert a == [a[0]] + a[1..] && b == [b[0]] + b[1..];
    }
  }

  // ----- Part names -----

  /** `.part` */
  const PART: seq<nat> := [46, 112, 97, 114, 116]

  /** The file name of chunk `i`, as code points. */
  function PartName(prefix: seq<nat>, i: nat): seq<nat> {
    prefix + PART + [97 + i % 26] + (if i >= 26 then [97 + i / 26] else [])
  }

  /** The parts are named .parta to .partz, .partab to .partzb, .partac and so on. */
  lemma PartNamesAre(prefix: seq<nat>, letter: nat, round: nat)
    requires letter < 26
    ensures PartName(prefix, round * 26 + letter)
         == prefix + ['.' as int, 'p' as int, 'a' as int, 'r' as int, 't' as int] + ['a' as int + letter]
            + (if round == 0 then [] else ['a' as int + round])
  {
    var i := round * 26 + letter;
    assert i / 26 == round && i % 26 == letter;
  }

  lemma PartNamesDiffer(prefix: seq<nat>, i: nat, j: nat)
    requires i != j
    ensures PartName(prefix, i) != PartName(prefix, j)
  {
    var a, b, k := PartName(prefix, i), PartName(prefix, j), |prefix + PART|;
    assert i == i / 26 * 26 + i % 26 && j == j / 26 * 26 + j % 26;
    assert a[k] == 97 + i % 26 && b[k] == 97 + j % 26;
    assert i >= 26 ==> |a| == k + 2 && a[k + 1] == 97 + i / 26;
    assert j >= 26 ==> |b| == k + 2 && b[k + 1] == 97 + j / 26;
    assert i < 26 ==> |a| == k + 1;
    assert j < 26 ==> |b| == k + 1;
  }

  // ----- Reading and writing the files -----

  /** Reading text translates every line ending to a newline. */
  function Translate(s: Text): Text
    decreases |s|
  {
    if s == [] then []
    else if s[0] != RETURN then [s[0]] + Translate(s[1..])
    else if |s| > 1 && s[1] == NEWLINE then [NEWLINE] + Translate(s[2..])
    else [NEWLINE] + Translate(s[1..])
  }

  /** `readlines`: lines with the newlines that end them. */
  function ReadLines(s: Text): seq<Text>
    decreases |s|
  {
    if s == [] then []
    else
      var i := IndexOf(s, NEWLINE);
      if i == |s| then [s] else [s[..i + 1]] + ReadLines(s[i + 1..])
  }

  /** The lines of a file split in files of their own read as the file does. */
  function ChunkFiles(chunks: seq<seq<Text>>): seq<Option<Text>> {
    if chunks == [] then [] else [Some(Flatten(chunks[0]))] + ChunkFiles(chunks[1..])
  }

  predicate Closed(line: Text) {
    IndexOf(line, NEWLINE) == |line| - 1
  }

  /** Lines that end with their only newline, but for the last, which may have none. */
  predicate Proper(lines: seq<Text>) {
    lines == [] ||
    (&& lines[0] != [] && (Closed(lines[0]) || (|lines| == 1 && IndexOf(lines[0], NEWLINE) == |lines[0]|))
     && Proper(lines[1..]))
  }

  lemma ReadLinesFromFirst(s: Text, first: Text, rest: Text)
    requires var i := IndexOf(s, NEWLINE); i < |s| && first == s[..i + 1] && rest == s[i + 1..]
    ensures ReadLines(s) == [first] + ReadLines(rest)
  {
  }

  lemma OneReadLine(s: Text)
    requires s != [] && IndexOf(s, NEWLINE) == |s|
    ensures ReadLines(s) == [s] + []
  {
  }

  lemma NothingRead()
    ensures ReadLines([]) == []
  {
  }

  lemma FlattenCons(line: Text, rest: seq<Text>)
    ensures Flatten([line] + rest) == line + Flatten(rest)
  {
    assert ([line] + rest)[1..] == rest;
  }

  lemma {:induction false} ReadLinesFlatten(s: Text)
    ensures Flatten(ReadLines(s)) == s
    decreases |s|
  {
    hide IndexOf, ReadLines;
    if s == [] {
      NothingRead();
    } else {
      var i := IndexOf(s, NEWLINE);
      if i == |s| {
        OneReadLine(s);
        FlattenCons(s, []);
      } else {
        var first, rest := s[..i + 1], s[i + 1..];
        ReadLinesFromFirst(s, first, rest);
        ReadLinesFlatten(rest);
        FlattenCons(first, ReadLines(rest));
      }
    }
  }

  lemma ProperCons(line: Text, rest: seq<Text>)
    requires Proper(rest) && line != []
    requires Closed(line) || (rest == [] && IndexOf(line, NEWLINE) == |line|)
    ensures Proper([line] + rest)
  {
    hide Closed;
    assert ([line] + rest)[1..] == rest;
  }

  lemma {:induction false} ReadLinesProper(s: Text)
    ensures Flatten(ReadLines(s)) == s && Proper(ReadLines(s))
    decreases |s|
  {
    hide Proper, Closed, Flatten;
    ReadLinesFlatten(s);
    NothingProper();
    if s != [] {
      var i := IndexOf(s, NEWLINE);
      if i == |s| {
        ProperCons(s, []);
        assert [s] + [] == [s];
      } else {
        ReadLinesProper(s[i + 1..]);
        ClosedPrefix(s, i);
        ProperCons(s[..i + 1], ReadLines(s[i + 1..]));
      }
    }
  }

  lemma NothingProper()
    ensures Proper([])
  {
  }

  lemma ClosedPrefix(s: Text, i: nat)
    requires i == IndexOf(s, NEWLINE) < |s|
    ensures Closed(s[..i + 1])
  {
    var j := IndexOf(s[..i + 1], NEWLINE);
    assert s[..i + 1][i] == NEWLINE;
  }

  lemma LinesOfClosed(line: Text, rest: Text)
    requires Closed(line) && line != []
    ensures Lines(line + rest) == [StripReturn(line[..|line| - 1])] + Lines(rest)
  {
    var i := |line| - 1;
    var s := line + rest;
    assert s == line[..i] + [NEWLINE] + rest;
    assert IndexOf(line[..i], NEWLINE) == i;
    IndexOfBeforeConcat(line[..i], NEWLINE, rest);
    assert s[..i] == line[..i] && s[i + 1..] == rest;
  }

  lemma {:induction false} ProperSplit(a: seq<Text>, b: seq<Text>)
    requires Proper(a + b)
    ensures Proper(a) && Proper(b)
  {
    if a == [] {
      assert a + b == b;
    } else {
      assert (a + b)[0] == a[0] && (a + b)[1..] == a[1..] + b;
      ProperSplit(a[1..], b);
    }
  }

  lemma ProperRest(a: seq<Text>, b: seq<Text>)
    requires Proper(a + b) && a != [] && |a + b| > 1
    ensures Closed(a[0]) && a[0] != [] && Proper(a[1..] + b)
    ensures Flatten(a + b) == a[0] + Flatten(a[1..] + b)
  {
    hide Closed;
    assert (a + b)[0] == a[0] && (a + b)[1..] == a[1..] + b;
  }

  /** Proper lines that are not the last can be read in a file of their own. */
  lemma {:induction false} LinesOfProper(a: seq<Text>, b: seq<Text>)
    requires Proper(a + b)
    ensures Lines(Flatten(a + b)) == Lines(Flatten(a)) + Lines(Flatten(b))
  {
    hide Lines, Proper, Closed;
    if a == [] {
      NoLines();
      assert a + b == b && Flatten(a) == [];
    } else if |a + b| == 1 {
      NoLines();
      assert b == [] && a + b == a && Flatten(b) == [];
    } else {
      ProperRest(a, b);
      LinesOfProper(a[1..], b);
      LinesOfClosed(a[0], Flatten(a[1..] + b));
      LinesOfClosed(a[0], Flatten(a[1..]));
    }
  }

  lemma {:induction false} ChunkFileLines(chunks: seq<seq<Text>>)
    requires Proper(Concat(chunks))
    ensures AllLines(ChunkFiles(chunks)) == Lines(Flatten(Concat(chunks)))
  {
    hide Lines;
    if chunks == [] {
      assert Lines([]) == [] by { NoLines(); }
    } else {
      LinesOfProper(chunks[0], Concat(chunks[1..]));
      ProperSplit(chunks[0], Concat(chunks[1..]));
      ChunkFileLines(chunks[1..]);
      assert ChunkFiles(chunks)[1..] == ChunkFiles(chunks[1..]);
    }
  }

  lemma NoLines()
    ensures Lines([]) == []
  {
  }

  /** Every carriage return has a newline after it. */
  predicate NoLoneReturn(s: Text) {
    forall i | 0 <= i < |s| && s[i] == RETURN :: i + 1 < |s| && s[i + 1] == NEWLINE
  }

  predicate NoReturn(s: Text) {
    forall i | 0 <= i < |s| :: s[i] != RETURN
  }

  lemma {:induction false} TranslateKeeps(w: Text, t: Text)
    requires NoReturn(w)
    ensures Translate(w + t) == w + Translate(t)
  {
    if w == [] {
      assert w + t == t;
    } else {
      assert (w + t)[0] == w[0] && (w + t)[1..] == w[1..] + t;
      TranslateKeeps(w[1..], t);
    }
  }

  lemma {:induction false} TranslateHasNoReturn(s: Text)
    ensures NoReturn(Translate(s))
    decreases |s|
  {
    if s != [] {
      TranslateHasNoReturn(s[1..]);
      if |s| > 1 {
        TranslateHasNoReturn(s[2..]);
      }
    }
  }

  predicate NoReturns(lines: seq<Text>) {
    lines == [] || (NoReturn(lines[0]) && NoReturns(lines[1..]))
  }

  lemma {:induction false} LinesOfNoReturn(s: Text)
    requires NoReturn(s)
    ensures NoReturns(Lines(s))
    decreases |s|
  {
    if s != [] {
      var i := IndexOf(s, NEWLINE);
      if i < |s| {
        LinesOfNoReturn(s[i + 1..]);
        assert Lines(s)[1..] == Lines(s[i + 1..]);
      } else {
        assert Lines(s)[1..] == [];
      }
    }
  }

  lemma TranslateEnding(ending: Text, rest: Text)
    requires ending == [NEWLINE] || ending == [RETURN, NEWLINE]
    ensures Translate(ending + rest) == [NEWLINE] + Translate(rest)
  {
    if ending == [NEWLINE] {
      assert (ending + rest)[1..] == rest;
    } else {
      assert (ending + rest)[2..] == rest;
    }
  }

  lemma CleanLine(w: Text, rest: Text)
    requires NoReturn(w) && IndexOf(w, NEWLINE) == |w|
    ensures Lines(w + ([NEWLINE] + rest)) == [w] + Lines(rest)
  {
    hide Lines;
    IndexOfBeforeConcat(w, NEWLINE, []);
    var line := w + [NEWLINE];
    assert w + [NEWLINE] + [] == line;
    LinesOfClosed(line, rest);
    assert w + ([NEWLINE] + rest) == line + rest;
    assert line[..|line| - 1] == w && StripReturn(w) == w;
  }

  lemma LinesFromFirst(s: Text, w: Text, rest: Text)
    requires var i := IndexOf(s, NEWLINE); i < |s| && w == StripReturn(s[..i]) && rest == s[i + 1..]
    ensures Lines(s) == [w] + Lines(rest)
  {
  }

  lemma StripReturnParts(line: Text)
    ensures var w := StripReturn(line); w <= line && (line == w || line == w + [RETURN])
  {
  }

  lemma NewlineFree(line: Text, w: Text)
    requires IndexOf(line, NEWLINE) == |line| && w <= line
    ensures IndexOf(w, NEWLINE) == |w|
  {
    assert forall k | 0 <= k < |w| :: w[k] == line[k];
  }

  lemma NewlineFreePrefix(s: Text)
    ensures IndexOf(s[..IndexOf(s, NEWLINE)], NEWLINE) == IndexOf(s, NEWLINE)
  {
    var i := IndexOf(s, NEWLINE);
    assert forall k | 0 <= k < i :: s[..i][k] == s[k];
  }

  /** A first line, its ending and the rest make up the text. */
  lemma FirstLineParts(s: Text, i: nat, w: Text, ending: Text, rest: Text)
    requires i == IndexOf(s, NEWLINE) < |s| && w == StripReturn(s[..i]) && rest == s[i + 1..]
    requires ending == if s[..i] == w then [NEWLINE] else [RETURN, NEWLINE]
    ensures s == w + (ending + rest) && IndexOf(w, NEWLINE) == |w|
  {
    hide StripReturn, IndexOf;
    var line := s[..i];
    StripReturnParts(line);
    NewlineFreePrefix(s);
    NewlineFree(line, w);
    assert s == line + ([NEWLINE] + rest) by { CutAt(s, i); }
    if line != w {
      ReturnJoins(w, rest);
    }
  }

  lemma CutAt(s: Text, i: nat)
    requires i < |s|
    ensures s == s[..i] + ([s[i]] + s[i + 1..])
  {
  }

  lemma ReturnJoins(w: Text, rest: Text)
    ensures w + [RETURN] + ([NEWLINE] + rest) == w + ([RETURN, NEWLINE] + rest)
  {
  }

  /** The first line of a text, cut at its line ending. */
  lemma FirstLine(s: Text, i: nat, w: Text, rest: Text)
    requires i == IndexOf(s, NEWLINE) < |s| && w == StripReturn(s[..i]) && rest == s[i + 1..] && NoReturn(w)
    ensures Lines(s) == [w] + Lines(rest)
    ensures Lines(Translate(s)) == [w] + Lines(Translate(rest))
  {
    hide Lines, Translate, NoReturn, IndexOf, StripReturn;
    var ending := if s[..i] == w then [NEWLINE] else [RETURN, NEWLINE];
    LinesFromFirst(s, w, rest);
    FirstLineParts(s, i, w, ending, rest);
    TranslateFirstLine(w, ending, rest);
    CleanLine(w, Translate(rest));
  }

  lemma TranslateFirstLine(w: Text, ending: Text, rest: Text)
    requires NoReturn(w) && (ending == [NEWLINE] || ending == [RETURN, NEWLINE])
    ensures Translate(w + (ending + rest)) == w + ([NEWLINE] + Translate(rest))
  {
    hide Translate, NoReturn;
    TranslateKeeps(w, ending + rest);
    TranslateEnding(ending, rest);
  }

  lemma NoLoneInFirst(s: Text, i: nat)
    requires NoLoneReturn(s) && i == IndexOf(s, NEWLINE)
    ensures i == |s| ==> NoReturn(s)
    ensures i < |s| ==> NoReturn(StripReturn(s[..i])) && NoLoneReturn(s[i + 1..])
  {
    hide IndexOf;
    forall k | 0 <= k < i && s[k] == RETURN ensures k + 1 == i < |s| {
      assert k + 1 < |s| && s[k + 1] == NEWLINE;
    }
    if i < |s| {
      var rest := s[i + 1..];
      assert forall k | 0 <= k < |rest| :: rest[k] == s[i + 1 + k];
    }
  }

  lemma {:induction false} TranslateKeepsLines(s: Text)
    requires NoLoneReturn(s)
    ensures Lines(Translate(s)) == Lines(s)
    decreases |s|
  {
    hide NoLoneReturn, NoReturn, StripReturn;
    var i := IndexOf(s, NEWLINE);
    NoLoneInFirst(s, i);
    if i == |s| {
      TranslateKeeps(s, []);
      assert s + [] == s && Translate(s) == s + Translate([]) == s;
    } else {
      TranslateKeepsLines(s[i + 1..]);
      FirstLine(s, i, StripReturn(s[..i]), s[i + 1..]);
    }
  }

  lemma LineHasNoLone(s: Text, i: nat)
    requires i < |s| && s[i] == NEWLINE && NoReturn(StripReturn(s[..i])) && NoLoneReturn(s[i + 1..])
    ensures NoLoneReturn(s)
  {
    var w, rest := StripReturn(s[..i]), s[i + 1..];
    assert forall k | 0 <= k < |w| :: s[k] == w[k] != RETURN;
    assert forall k | i < k < |s| :: s[k] == rest[k - i - 1];
  }

  lemma NoReturnsCons(l: Text, rest: seq<Text>)
    requires NoReturns([l] + rest)
    ensures NoReturn(l) && NoReturns(rest)
  {
    hide NoReturn;
    assert ([l] + rest)[1..] == rest;
  }

  lemma OneLine(s: Text)
    requires s != [] && IndexOf(s, NEWLINE) == |s|
    ensures Lines(s) == [s] + []
  {
  }

  lemma {:induction false} LoneReturnShows(s: Text)
    requires NoReturns(Lines(s))
    ensures NoLoneReturn(s)
    decreases |s|
  {
    hide Lines, NoReturns, StripReturn, IndexOf;
    if s != [] {
      var i := IndexOf(s, NEWLINE);
      if i < |s| {
        var w, rest := StripReturn(s[..i]), s[i + 1..];
        LinesFromFirst(s, w, rest);
        NoReturnsCons(w, Lines(rest));
        LoneReturnShows(rest);
        LineHasNoLone(s, i);
      } else {
        OneLine(s);
        NoReturnsCons(s, []);
      }
    }
  }

  /** Reading the list in text mode keeps its lines exactly when no carriage return stands alone. */
  lemma TranslateExactly(s: Text)
    ensures Lines(Translate(s)) == Lines(s) <==> NoLoneReturn(s)
  {
    if NoLoneReturn(s) {
      TranslateKeepsLines(s);
    } else if Lines(Translate(s)) == Lines(s) {
      TranslateHasNoReturn(s);
      LinesOfNoReturn(Translate(s));
      LoneReturnShows(s);
    }
  }

  /** The list as one file, read in text mode. */
  lemma PiecesLoadTheText(
    content: Text, maxBytes: int, chunks: seq<seq<Text>>, files: seq<Option<Text>>, allowFiles: seq<Option<Text>>)
    requires Greedy(ReadLines(Translate(content)), maxBytes, chunks)
    requires forall f :: f in files <==> f in ChunkFiles(chunks)
    ensures Loaded(files, allowFiles) == Loaded([Some(Translate(content))], allowFiles)
  {
    hide Loaded, Lines, Translate, ReadLines;
    var text := Translate(content);
    ReadLinesProper(text);
    ChunkFileLines(chunks);
    OneFile(text);
    SameFilesSameLines(files, ChunkFiles(chunks));
    LoadingIsOrderFree(files, [Some(text)], allowFiles, allowFiles);
  }

  lemma OneFile(text: Text)
    ensures AllLines([Some(text)]) == Lines(text)
  {
    hide Lines;
    assert AllLines([Some(text)]) == Lines(text) + AllLines([Some(text)][1..]);
  }

  /** Main result on splitting: the pieces of any list, in any order and any number of times,
      load the same filter as the list read in text mode, and that is the filter of the list
      itself if no carriage return in it stands alone. */
  lemma ChunksLoadTheList(
    content: Text, maxBytes: int, chunks: seq<seq<Text>>, files: seq<Option<Text>>, allowFiles: seq<Option<Text>>)
    requires Greedy(ReadLines(Translate(content)), maxBytes, chunks)
    requires forall f :: f in files <==> f in ChunkFiles(chunks)
    ensures Loaded(files, allowFiles) == Loaded([Some(Translate(content))], allowFiles)
    ensures NoLoneReturn(content) ==> Loaded(files, allowFiles) == Loaded([Some(content)], allowFiles)
  {
    hide Loaded, Lines, Translate, ReadLines;
    PiecesLoadTheText(content, maxBytes, chunks, files, allowFiles);
    if NoLoneReturn(content) {
      TranslateExactly(content);
      OneFile(content);
      OneFile(Translate(content));
      LoadingIsOrderFree([Some(content)], [Some(Translate(content))], allowFiles, allowFiles);
    }
  }

  lemma {:induction false} LineOfFile(files: seq<Option<Text>>, f: Option<Text>, l: Text)
    requires f in files && f.Some? && l in Lines(f.value)
    ensures l in AllLines(files)
  {
    hide Lines;
    assert files == [files[0]] + files[1..];
    if files[0] != f {
      LineOfFile(files[1..], f, l);
    }
  }

  lemma {:induction false} FileOfLine(files: seq<Option<Text>>, l: Text) returns (f: Option<Text>)
    requires l in AllLines(files)
    ensures f in files && f.Some? && l in Lines(f.value)
  {
    hide Lines;
    if files[0].Some? && l in Lines(files[0].value) {
      f := files[0];
    } else {
      f := FileOfLine(files[1..], l);
      assert f in files[1..] && files == [files[0]] + files[1..];
    }
  }

  lemma SameFilesSameLines(a: seq<Option<Text>>, b: seq<Option<Text>>)
    requires forall f :: f in a <==> f in b
    ensures forall l :: l in AllLines(a) <==> l in AllLines(b)
  {
    hide Lines, AllLines;
    forall l ensures l in AllLines(a) <==> l in AllLines(b) {
      if l in AllLines(a) {
        var f := FileOfLine(a, l);
        LineOfFile(b, f, l);
      }
      if l in AllLines(b) {
        var f := FileOfLine(b, l);
        LineOfFile(a, f, l);
      }
    }
  }
}
