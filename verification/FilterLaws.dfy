/** What the filter decides, as a function of the set of rule lines it was given. */
module FilterLaws {
  import opened Bytes
  import opened Strings
  import opened Trie
  import opened Engine

  // ----- Loading -----

  /** The name that a block-list line blocks. */
  function BlockTarget(line: Text): Option<Text> {
    if IsException(line) || IsComment(Trim(line)) then None else RuleTarget(Trim(line))
  }

  /** The name that an exception in a block list allows. */
  function ExceptionTarget(line: Text): Option<Text> {
    if IsException(line) then RuleTarget(TrimStartMatches(Trim(line), EXCEPTION)) else None
  }

  /** The name that an allow-list line allows. */
  function AllowTarget(line: Text): Option<Text> {
    if IsComment(Trim(line)) then None else RuleTarget(TrimStartMatches(Trim(line), EXCEPTION))
  }

  function HostsNamed(lines: seq<Text>, target: Text -> Option<Text>): set<Text> {
    set l | l in lines && target(l).Some? :: target(l).value
  }

  function With(t: Trie, names: set<Text>): Trie {
    Trie(t.exact + names, t.wildcard + names)
  }

  function Single(o: Option<Text>): set<Text> {
    match o
    case None => {}
    case Some(n) => {n}
  }

  lemma HostsNamedCons(lines: seq<Text>, target: Text -> Option<Text>)
    requires lines != []
    ensures HostsNamed(lines, target) == Single(target(lines[0])) + HostsNamed(lines[1..], target)
  {
    assert lines == [lines[0]] + lines[1..];
    assert forall l :: l in lines <==> l == lines[0] || l in lines[1..];
  }

  lemma WithTwice(t: Trie, a: set<Text>, b: set<Text>)
    ensures With(With(t, a), b) == With(t, a + b)
  {
    assert t.exact + a + b == t.exact + (a + b) && t.wildcard + a + b == t.wildcard + (a + b);
  }

  lemma BlockLineIs(f: Filter, line: Text)
    ensures BlockLine(f, line)
         == Filter(With(f.allow, Single(ExceptionTarget(line))), With(f.block, Single(BlockTarget(line))))
  {
    hide RuleTarget, Trim, TrimStartMatches;
    assert f.allow.exact + {} == f.allow.exact && f.allow.wildcard + {} == f.allow.wildcard;
    assert f.block.exact + {} == f.block.exact && f.block.wildcard + {} == f.block.wildcard;
  }

  lemma AllowLineIs(f: Filter, line: Text)
    ensures AllowLine(f, line) == Filter(With(f.allow, Single(AllowTarget(line))), f.block)
  {
    hide RuleTarget, Trim, TrimStartMatches;
    assert f.allow.exact + {} == f.allow.exact && f.allow.wildcard + {} == f.allow.wildcard;
  }

  /** A loaded block list is the union of what its lines block and except. */
  lemma {:induction false} BlockLinesAre(f: Filter, lines: seq<Text>)
    ensures BlockLines(f, lines)
         == Filter(With(f.allow, HostsNamed(lines, ExceptionTarget)), With(f.block, HostsNamed(lines, BlockTarget)))
    decreases |lines|
  {
    hide BlockLine, ExceptionTarget, BlockTarget, With;
    if lines == [] {
      WithNothing(f.allow);
      WithNothing(f.block);
      assert HostsNamed(lines, ExceptionTarget) == {} && HostsNamed(lines, BlockTarget) == {};
    } else {
      var l, rest := lines[0], lines[1..];
      BlockLineIs(f, l);
      BlockLinesAre(BlockLine(f, l), rest);
      HostsNamedCons(lines, ExceptionTarget);
      HostsNamedCons(lines, BlockTarget);
      WithTwice(f.allow, Single(ExceptionTarget(l)), HostsNamed(rest, ExceptionTarget));
      WithTwice(f.block, Single(BlockTarget(l)), HostsNamed(rest, BlockTarget));
    }
  }

  lemma WithNothing(t: Trie)
    ensures With(t, {}) == t
  {
    assert t.exact + {} == t.exact && t.wildcard + {} == t.wildcard;
  }

  lemma {:induction false} AllowLinesAre(f: Filter, lines: seq<Text>)
    ensures AllowLines(f, lines) == Filter(With(f.allow, HostsNamed(lines, AllowTarget)), f.block)
    decreases |lines|
  {
    hide AllowLine, AllowTarget, With;
    if lines == [] {
      WithNothing(f.allow);
      assert HostsNamed(lines, AllowTarget) == {};
    } else {
      var l, rest := lines[0], lines[1..];
      AllowLineIs(f, l);
      AllowLinesAre(AllowLine(f, l), rest);
      HostsNamedCons(lines, AllowTarget);
      WithTwice(f.allow, Single(AllowTarget(l)), HostsNamed(rest, AllowTarget));
    }
  }

  /** The lines of all readable files, in order. */
  function AllLines(files: seq<Option<Text>>): seq<Text> {
    if files == [] then []
    else (if files[0].Some? then Lines(files[0].value) else []) + AllLines(files[1..])
  }

  lemma {:induction false} BlockLinesConcat(f: Filter, a: seq<Text>, b: seq<Text>)
    ensures BlockLines(f, a + b) == BlockLines(BlockLines(f, a), b)
    ensures BlockCount(a + b) == BlockCount(a) + BlockCount(b)
    decreases |a|
  {
    hide BlockLine, IsException, IsComment;
    if a == [] {
      assert a + b == b;
    } else {
      assert (a + b)[1..] == a[1..] + b && (a + b)[0] == a[0];
      BlockLinesConcat(BlockLine(f, a[0]), a[1..], b);
    }
  }

  lemma {:induction false} AllowLinesConcat(f: Filter, a: seq<Text>, b: seq<Text>)
    ensures AllowLines(f, a + b) == AllowLines(AllowLines(f, a), b)
    ensures AllowCount(a + b) == AllowCount(a) + AllowCount(b)
    decreases |a|
  {
    hide AllowLine, IsComment;
    if a == [] {
      assert a + b == b;
    } else {
      assert (a + b)[1..] == a[1..] + b && (a + b)[0] == a[0];
      AllowLinesConcat(AllowLine(f, a[0]), a[1..], b);
    }
  }

  /** Loading files one by one is loading all their lines. */
  lemma {:induction false} BlockFilesAreLines(f: Filter, files: seq<Option<Text>>)
    ensures LoadBlockFiles(f, files) == BlockLines(f, AllLines(files))
    decreases |files|
  {
    hide Lines;
    if files != [] {
      var lines := if files[0].Some? then Lines(files[0].value) else [];
      BlockLinesConcat(f, lines, AllLines(files[1..]));
      BlockFilesAreLines(BlockLines(f, lines), files[1..]);
    }
  }

  lemma {:induction false} AllowFilesAreLines(f: Filter, files: seq<Option<Text>>)
    ensures LoadAllowFiles(f, files) == AllowLines(f, AllLines(files))
    decreases |files|
  {
    hide Lines;
    if files != [] {
      var lines := if files[0].Some? then Lines(files[0].value) else [];
      AllowLinesConcat(f, lines, AllLines(files[1..]));
      AllowFilesAreLines(AllowLines(f, lines), files[1..]);
    }
  }

  /** The numbers of rules that the loaders report for the readable files. */
  function BlockCounts(files: seq<Option<Text>>): nat {
    if files == [] then 0
    else (if files[0].Some? then BlockCount(Lines(files[0].value)) else 0) + BlockCounts(files[1..])
  }

  function AllowCounts(files: seq<Option<Text>>): nat {
    if files == [] then 0
    else (if files[0].Some? then AllowCount(Lines(files[0].value)) else 0) + AllowCounts(files[1..])
  }

  /** The reported numbers add up: dividing the lines into files changes no total. */
  lemma {:induction false} CountsAddUp(files: seq<Option<Text>>)
    ensures BlockCounts(files) == BlockCount(AllLines(files))
    ensures AllowCounts(files) == AllowCount(AllLines(files))
  {
    hide Lines;
    if files != [] {
      var lines := if files[0].Some? then Lines(files[0].value) else [];
      CountsAddUp(files[1..]);
      BlockLinesConcat(NO_RULES, lines, AllLines(files[1..]));
      AllowLinesConcat(NO_RULES, lines, AllLines(files[1..]));
    }
  }

  function Loaded(blockFiles: seq<Option<Text>>, allowFiles: seq<Option<Text>>): Filter {
    LoadAllowFiles(LoadBlockFiles(NO_RULES, blockFiles), allowFiles)
  }

  /** The two name sets of a loaded filter. */
  lemma LoadedIs(blockFiles: seq<Option<Text>>, allowFiles: seq<Option<Text>>)
    ensures var allow := HostsNamed(AllLines(blockFiles), ExceptionTarget) + HostsNamed(AllLines(allowFiles), AllowTarget);
      var block := HostsNamed(AllLines(blockFiles), BlockTarget);
      Loaded(blockFiles, allowFiles) == Filter(Trie(allow, allow), Trie(block, block))
  {
    hide ExceptionTarget, AllowTarget, BlockTarget, HostsNamed, AllLines, BlockLines, AllowLines;
    BlockFilesAreLines(NO_RULES, blockFiles);
    BlockLinesAre(NO_RULES, AllLines(blockFiles));
    var f := LoadBlockFiles(NO_RULES, blockFiles);
    AllowFilesAreLines(f, allowFiles);
    AllowLinesAre(f, AllLines(allowFiles));
  }

  lemma NamesOfSameLines(a: seq<Text>, b: seq<Text>, target: Text -> Option<Text>)
    requires forall l :: l in a <==> l in b
    ensures HostsNamed(a, target) == HostsNamed(b, target)
  {
  }

  /** Main result on loading: the filter depends only on the set of block lines and the set
      of allow lines, not on their order, their repetition or their division into files. */
  lemma LoadingIsOrderFree(
    blockFiles: seq<Option<Text>>, blockFiles': seq<Option<Text>>,
    allowFiles: seq<Option<Text>>, allowFiles': seq<Option<Text>>)
    requires forall l :: l in AllLines(blockFiles) <==> l in AllLines(blockFiles')
    requires forall l :: l in AllLines(allowFiles) <==> l in AllLines(allowFiles')
    ensures Loaded(blockFiles, allowFiles) == Loaded(blockFiles', allowFiles')
  {
    hide ExceptionTarget, AllowTarget, BlockTarget, HostsNamed, AllLines, Loaded;
    LoadedIs(blockFiles, allowFiles);
    LoadedIs(blockFiles', allowFiles');
    NamesOfSameLines(AllLines(blockFiles), AllLines(blockFiles'), ExceptionTarget);
    NamesOfSameLines(AllLines(blockFiles), AllLines(blockFiles'), BlockTarget);
    NamesOfSameLines(AllLines(allowFiles), AllLines(allowFiles'), AllowTarget);
  }

  // ----- Deciding -----

  /** What makes the second normalisation change a name: white space in front of its trailing dots. */
  predicate SpaceBeforeDots(domain: Text) {
    var t := TrimEndByte(Trim(domain), DOT);
    t != [] && IsSpace(t[|t| - 1])
  }

  lemma SpaceAtEndGoes(n: Text)
    requires n != [] && IsSpace(n[|n| - 1])
    ensures |Normalize(n)| < |n|
  {
    hide TrimStart;
    assert |TrimEnd(TrimStart(n))| < |n|;
  }

  lemma NormalStays(n: Text)
    requires n != [] && !IsSpace(n[0]) && !IsSpace(n[|n| - 1]) && n[|n| - 1] != DOT && Lower(n) == n
    ensures Normalize(n) == n
  {
    TrimNothing(n);
  }

  /** Normalising twice is normalising once exactly when there is no white space in front of
      the trailing dots. */
  lemma NormalizeTwice(domain: Text)
    ensures Normalize(Normalize(domain)) == Normalize(domain) <==> !SpaceBeforeDots(domain)
  {
    hide Trim;
    TrimIsTrimmed(domain);
    var t := TrimEndByte(Trim(domain), DOT);
    var n := Normalize(domain);
    if t == [] {
      assert n == [] && Trim([]) == [] by { NothingNormalises(); }
    } else if IsSpace(t[|t| - 1]) {
      SpaceAtEndGoes(n);
    } else {
      assert n[0] == LowerByte(Trim(domain)[0]) && n[|n| - 1] == LowerByte(t[|t| - 1]);
      LowerIdempotent(t);
      NormalStays(n);
    }
  }

  lemma NothingNormalises()
    ensures Trim([]) == [] && Lower([]) == []
  {
  }

  /** A name on which the two differ: "a ." */
  lemma NormalizeTwiceDiffers()
    ensures Normalize([97, SPACE, DOT]) == [97, SPACE] && Normalize([97, SPACE]) == [97]
  {
    var s: Text := [97, SPACE, DOT];
    assert TrimStart(s) == s && TrimEnd(s) == s;
    assert s[..2] == [97, SPACE];
    assert TrimEndByte([97, SPACE], DOT) == [97, SPACE];
    assert TrimStart([97, SPACE]) == [97, SPACE] && [97, SPACE][..1] == [97];
    assert TrimEnd([97]) == [97] && TrimEndByte([97], DOT) == [97];
  }

  predicate CoveredBy(rules: set<Text>, n: Text) {
    exists r | r in rules :: Covers(r, n)
  }

  /** The verdict on a loaded filter: an allow rule that covers the name wins over block
      rules, and without either the name is allowed.  The name that the rules see is
      normalised twice. */
  lemma EvaluateExactly(f: Filter, domain: Text)
    requires f.allow.exact == f.allow.wildcard && f.block.exact == f.block.wildcard
    ensures var n, seen := Normalize(domain), Normalize(Normalize(domain));
      Evaluate(f, domain) == if CoveredBy(f.allow.exact, seen) then AllowListMatched(n)
                             else if CoveredBy(f.block.exact, seen) then Blocked(n)
                             else Allowed
  {
    MatchesExactly(f.allow, Normalize(domain));
    MatchesExactly(f.block, Normalize(domain));
  }

  lemma TrimBelow(sub: Text, n: Text)
    requires n != [] && !IsSpace(n[|n| - 1])
    ensures Trim(sub + [DOT] + n) == TrimStart(sub) + [DOT] + n
  {
    hide TrimStart;
    var tail := [DOT] + n;
    TrimStartOf(sub, tail);
    assert sub + [DOT] + n == sub + tail;
    var t := TrimStart(sub) + [DOT] + n;
    assert t == TrimStart(sub) + tail && t[|t| - 1] == n[|n| - 1];
    assert TrimEnd(t) == t;
  }

  lemma LowerBelow(a: Text, n: Text)
    ensures Lower(a + [DOT] + n) == Lower(a) + [DOT] + Lower(n)
  {
    LowerConcat(a + [DOT], n);
    LowerConcat(a, [DOT]);
    assert Lower([DOT]) == [DOT];
  }

  /** Normalising a name below a normalised one keeps the lower part. */
  lemma NormalizeBelow(sub: Text, n: Text)
    requires n != [] && Normalize(n) == n
    ensures Normalize(sub + [DOT] + n) == Lower(TrimStart(sub)) + [DOT] + n
  {
    hide Trim, TrimStart;
    NormalShape(n);
    TrimBelow(sub, n);
    var t := TrimStart(sub) + [DOT] + n;
    assert t[|t| - 1] == n[|n| - 1];
    assert TrimEndByte(t, DOT) == t;
    LowerBelow(TrimStart(sub), n);
  }

  lemma NormalShape(n: Text)
    requires n != [] && Normalize(n) == n
    ensures Lower(n) == n && n[|n| - 1] != DOT && !IsSpace(n[|n| - 1]) && !IsSpace(n[0])
  {
    TrimIsTrimmed(n);
    var t := TrimEndByte(Trim(n), DOT);
    assert |t| == |n| && |Trim(n)| == |n|;
    assert TrimStart(n) == n && Trim(n) == n && t == n;
  }

  lemma CoversBelow(r: Text, n: Text, front: Text)
    requires Covers(r, n)
    ensures Covers(r, front + [DOT] + n)
  {
    var s := front + [DOT] + n;
    if n == r {
      assert s[|s| - |r| - 1..] == [DOT] + r;
    } else {
      assert s[|s| - |r| - 1..] == n[|n| - |r| - 1..];
    }
  }

  /** Every name below a matching normalised name matches, whatever stands in front of the dot. */
  lemma MatchesBelow(t: Trie, n: Text, sub: Text)
    requires t.exact == t.wildcard && n != [] && Normalize(n) == n && Matches(t, n)
    ensures Matches(t, sub + [DOT] + n)
  {
    MatchesExactly(t, n);
    MatchesExactly(t, sub + [DOT] + n);
    var r :| r in t.exact && Covers(r, n);
    NormalizeBelow(sub, n);
    CoversBelow(r, n, Lower(TrimStart(sub)));
  }
}
