/** What a line of a rule file names, for every line, in terms of its octets: white space
    around it, comments, the syntaxes with their repeated prefixes, and plain names. */
module RuleLines {
  import opened Bytes
  import opened Strings
  import opened Trie
  import opened Engine
  import opened FilterLaws
  import opened RuleSyntax

  // ----- Trimming -----

  lemma WhiteSpace(b: byte)
    ensures IsSpace(b) <==> b == 9 || b == 10 || b == 11 || b == 12 || b == 13 || b == 32
  {
  }

  predicate AllSpaces(s: Text) {
    forall i | 0 <= i < |s| :: IsSpace(s[i])
  }

  predicate AllAre(s: Text, b: byte) {
    forall i | 0 <= i < |s| :: s[i] == b
  }

  /** No white space at either end. */
  predicate Bare(s: Text) {
    s == [] || (!IsSpace(s[0]) && !IsSpace(s[|s| - 1]))
  }

  lemma {:induction false} SpacesGo(s: Text)
    requires AllSpaces(s)
    ensures TrimStart(s) == [] && TrimEnd(s) == []
    decreases |s|
  {
    if s != [] {
      SpacesGo(s[1..]);
      SpacesGo(s[..|s| - 1]);
    }
  }

  lemma TrimExactly(a: Text, m: Text, b: Text)
    requires AllSpaces(a) && AllSpaces(b) && Bare(m)
    ensures Trim(a + m + b) == m
  {
    SpacesGo(a);
    SpacesGo(b);
    if m == [] {
      assert AllSpaces(a + m + b);
      SpacesGo(a + m + b);
      assert TrimEnd([]) == [];
    } else {
      assert a + m + b == a + (m + b);
      TrimStartOf(a, m + b);
      assert [] + (m + b) == m + b;
      TrimEndOf(m, b);
      assert m + [] == m;
    }
  }

  lemma {:induction false} BytesGo(s: Text, b: byte)
    requires AllAre(s, b)
    ensures TrimEndByte(s, b) == []
  {
    if s != [] {
      BytesGo(s[..|s| - 1], b);
    }
  }

  /** The normal form of a name: without the white space around it, without the dots at its
      end, and in lower case. */
  lemma NormalizeExactly(a: Text, m: Text, dots: Text, b: Text)
    requires AllSpaces(a) && AllSpaces(b) && AllAre(dots, 46)
    requires m != [] && !IsSpace(m[0]) && m[|m| - 1] != 46 && (dots == [] ==> !IsSpace(m[|m| - 1]))
    ensures Normalize(a + m + dots + b) == Lower(m)
  {
    hide Lower;
    assert (m + dots)[|m + dots| - 1] == if dots == [] then m[|m| - 1] else dots[|dots| - 1];
    assert a + m + dots + b == a + (m + dots) + b;
    TrimExactly(a, m + dots, b);
    TrimEndByteOf(m, dots, 46);
    BytesGo(dots, 46);
    assert m + [] == m;
  }

  // ----- What a rule names -----

  /** The host that a text names: its normal form, unless that is empty, starts with a slash,
      or holds a space or an equals sign. */
  function HostOf(s: Text): Option<Text> {
    var n := Normalize(s);
    if n == [] || n[0] == 47 || 32 in n || 61 in n then None else Some(n)
  }

  lemma TargetIsHostOfBody(m: Text)
    requires Bare(m)
    ensures RuleTarget(m) == if m == [] || m[0] == 35 || m[0] == 33 then None else HostOf(RuleBody(m))
  {
    hide Normalize, RuleBody, Trim;
    TrimNothing(m);
  }

  lemma SurroundingsGo(a: Text, m: Text, b: Text)
    requires AllSpaces(a) && AllSpaces(b) && Bare(m)
    ensures RuleTarget(a + m + b) == RuleTarget(m)
  {
    hide Normalize, RuleBody, Trim;
    TrimExactly(a, m, b);
    TrimNothing(m);
  }

  /** A rule in none of the other syntaxes names itself. */
  lemma PlainRule(m: Text)
    requires Bare(m) && m != [] && m[0] != 35 && m[0] != 33
    requires !StartsWith(m, [124, 124]) && !StartsWith(m, [42, 46])
    requires !StartsWith(m, [48, 46, 48, 46, 48, 46, 48, 32])
    requires !StartsWith(m, [49, 50, 55, 46, 48, 46, 48, 46, 49, 32])
    ensures RuleTarget(m) == HostOf(m)
  {
    hide Normalize, StartsWith;
    TargetIsHostOfBody(m);
  }

  function Times(n: nat, s: Text): Text {
    if n == 0 then [] else s + Times(n - 1, s)
  }

  lemma {:induction false} PrefixesGo(n: nat, prefix: Text, rest: Text)
    requires prefix != [] && !StartsWith(rest, prefix)
    ensures TrimStartMatches(Times(n, prefix) + rest, prefix) == rest
  {
    if n == 0 {
      assert [] + rest == rest;
    } else {
      var s, tail := Times(n, prefix) + rest, Times(n - 1, prefix) + rest;
      assert s == prefix + tail;
      assert s[..|prefix|] == prefix && s[|prefix|..] == tail;
      PrefixesGo(n - 1, prefix, rest);
    }
  }

  /** `||`, as often as it stands there, a host, `^`, as often as it stands there, and perhaps
      `$` with options: the rule names the host. */
  lemma BarsRuleNames(n: nat, host: Text, carets: Text, options: Text)
    requires !StartsWith(host, [124, 124]) && 36 !in host && (host == [] || host[|host| - 1] != 94)
    requires AllAre(carets, 94) && (options == [] || options[0] == 36)
    requires Bare(Times(n + 1, [124, 124]) + (host + carets + options))
    ensures RuleTarget(Times(n + 1, [124, 124]) + (host + carets + options)) == HostOf(host)
  {
    hide Normalize, HostOf, TrimStartMatches, TrimEndByte, Before, SecondWord;
    var rest := host + carets + options;
    var m := Times(n + 1, BARS) + rest;
    NoBarsAhead(host, carets, options);
    PrefixesGo(n + 1, BARS, rest);
    BeforeOptions(host, carets, options);
    CaretsGo(host, carets);
    assert m[..2] == BARS && m[0] == 124;
    assert StartsWith(m, BARS);
    TargetIsHostOfBody(m);
  }

  lemma NoBarsAhead(host: Text, carets: Text, options: Text)
    requires !StartsWith(host, [124, 124]) && AllAre(carets, 94) && (options == [] || options[0] == 36)
    ensures !StartsWith(host + carets + options, [124, 124])
  {
    var s := host + carets + options;
    assert |host| >= 2 ==> s[..2] == host[..2];
    assert |host| < |s| ==> s[|host|] == if carets != [] then carets[0] else options[0];
    assert |s| >= 2 ==> s[..2][0] == s[0] && s[..2][1] == s[1];
  }

  lemma BeforeOptions(host: Text, carets: Text, options: Text)
    requires 36 !in host && AllAre(carets, 94) && (options == [] || options[0] == 36)
    ensures Before(host + carets + options, 36) == host + carets
  {
    var s := host + carets;
    assert forall i | 0 <= i < |s| :: s[i] == if i < |host| then host[i] else carets[i - |host|];
    assert IndexOf(s, 36) == |s|;
    if options == [] {
      assert s + options == s;
    } else {
      assert s + options == s + [36] + options[1..];
      IndexOfBeforeConcat(s, 36, options[1..]);
    }
  }

  lemma CaretsGo(host: Text, carets: Text)
    requires AllAre(carets, 94) && (host == [] || host[|host| - 1] != 94)
    ensures TrimEndByte(host + carets, 94) == host
  {
    BytesGo(carets, 94);
    if host == [] {
      assert host + carets == carets;
    } else {
      TrimEndByteOf(host, carets, 94);
      assert host + [] == host;
    }
  }

  /** `*.`, as often as it stands there, and a host. */
  lemma WildcardRuleNames(n: nat, host: Text)
    requires !StartsWith(host, [42, 46]) && Bare(Times(n + 1, [42, 46]) + host)
    ensures RuleTarget(Times(n + 1, [42, 46]) + host) == HostOf(host)
  {
    hide Normalize, HostOf, TrimStartMatches, SecondWord;
    var m := Times(n + 1, STAR_DOT) + host;
    PrefixesGo(n + 1, STAR_DOT, host);
    assert m[..2] == STAR_DOT && m[0] == 42;
    NoPrefix(m, [], BARS);
    NoPrefix(m, [], ZERO_HOST);
    NoPrefix(m, [], LOOPBACK_HOST);
    assert m + [] == m;
    assert StartsWith(m, STAR_DOT);
    TargetIsHostOfBody(m);
  }

  /** A line of a hosts file: an address, a space and perhaps more white space, a word, and
      whatever is parted from it by white space, another word or a comment: the rule names the
      word. */
  lemma HostsRuleNames(address: Text, gap: Text, word: Text, more: Text)
    requires address == [48, 46, 48, 46, 48, 46, 48] || address == [49, 50, 55, 46, 48, 46, 48, 46, 49]
    requires AllSpaces(gap) && word != [] && (forall i | 0 <= i < |word| :: !IsSpace(word[i]))
    requires (more == [] || IsSpace(more[0])) && Bare(address + [32] + gap + word + more)
    ensures RuleTarget(address + [32] + gap + word + more) == HostOf(word)
  {
    hide Normalize, HostOf, SecondWord;
    var m := address + [32] + gap + word + more;
    WordBehindAddress(address, gap, word, more);
    assert m[..|address| + 1] == address + [32];
    assert m[0] == address[0];
    NoPrefix(m, [], BARS);
    assert m + [] == m;
    assert StartsWith(m, ZERO_HOST) || StartsWith(m, LOOPBACK_HOST);
    TargetIsHostOfBody(m);
  }

  lemma WordBehindAddress(address: Text, gap: Text, word: Text, more: Text)
    requires address != [] && (forall i | 0 <= i < |address| :: !IsSpace(address[i]))
    requires AllSpaces(gap) && word != [] && (forall i | 0 <= i < |word| :: !IsSpace(word[i]))
    requires more == [] || IsSpace(more[0])
    ensures SecondWord(address + [32] + gap + word + more) == word
  {
    hide TrimStart, SpaceIndex;
    var m, tail := address + [32] + gap + word + more, [32] + gap + (word + more);
    assert m == address + tail && m[0] == address[0];
    StartsBare(m);
    SpaceIndexOf(address, tail);
    assert m[|address|..] == tail;
    WordBehindGap([32] + gap, word, more);
  }

  lemma WordBehindGap(gap: Text, word: Text, more: Text)
    requires AllSpaces(gap) && word != [] && (forall i | 0 <= i < |word| :: !IsSpace(word[i]))
    requires more == [] || IsSpace(more[0])
    ensures TrimStart(gap + (word + more)) == word + more
    ensures (word + more)[..SpaceIndex(word + more)] == word
  {
    hide SpaceIndex;
    SpacesGo(gap);
    TrimStartOf(gap, word + more);
    StartsBare(word + more);
    assert [] + (word + more) == word + more;
    SpaceIndexOf(word, more);
    assert (word + more)[..|word|] == word;
  }

  lemma StartsBare(m: Text)
    requires m != [] && !IsSpace(m[0])
    ensures TrimStart(m) == m
  {
  }

  // ----- What a line does in which kind of list -----

  /** A trimmed line is a rule behind some number of exception marks: without any it blocks
      what the rule names, with some it excepts it, and in an allow list both allow it. */
  lemma LineTargets(line: Text, n: nat, rule: Text)
    requires Trim(line) == Times(n, [64, 64]) + rule && !StartsWith(rule, [64, 64])
    ensures BlockTarget(line) == if n == 0 then RuleTarget(rule) else None
    ensures ExceptionTarget(line) == if n == 0 then None else RuleTarget(rule)
    ensures AllowTarget(line) == RuleTarget(rule)
  {
    hide Trim, TrimStartMatches, RuleBody, Normalize;
    PrefixesGo(n, EXCEPTION, rule);
    if n == 0 {
      assert Trim(line) == rule;
      TrimIsTrimmed(line);
      CommentNamesNothing(rule);
    } else {
      var m := Trim(line);
      assert m == EXCEPTION + (Times(n - 1, EXCEPTION) + rule);
      assert m[..2] == EXCEPTION && m[0] == 64;
    }
  }

  lemma CommentNamesNothing(rule: Text)
    requires Bare(rule)
    ensures IsComment(Trim(rule)) <==> IsComment(rule)
    ensures IsComment(rule) ==> RuleTarget(rule) == None
  {
    TrimNothing(rule);
  }

  // ----- What is counted -----

  /** A loader counts each line that is not empty and no comment, whether or not it names a
      host; the block-list loader does not count exceptions. */
  lemma CountsExactly(line: Text)
    ensures var m := Trim(line);
      && AllowCount([line]) == (if m == [] || m[0] == 35 || m[0] == 33 then 0 else 1)
      && BlockCount([line]) == (if m == [] || m[0] == 35 || m[0] == 33 || [64, 64] <= m then 0 else 1)
  {
    hide Trim;
    assert AllowCount([line][1..]) == 0 && BlockCount([line][1..]) == 0;
  }

  // ----- What an allow file does -----

  lemma {:induction false} ExceptedTrims(n: nat, rule: Text)
    requires rule != [] && !IsSpace(rule[0])
    ensures Trim(Times(n, EXCEPTION) + rule) == Times(n, EXCEPTION) + Trim(rule)
  {
    hide TrimEnd;
    var front := Times(n, EXCEPTION);
    assert (front + rule)[0] == (if n == 0 then rule[0] else 64);
    StartsBare(front + rule);
    StartsBare(rule);
    if n > 0 {
      TimesEnds(n, EXCEPTION);
      TrimEndOf(front, rule);
    } else {
      assert front + rule == rule && front + Trim(rule) == Trim(rule);
    }
  }

  lemma {:induction false} TimesEnds(n: nat, s: Text)
    requires n > 0 && s != []
    ensures Times(n, s) != [] && Times(n, s)[|Times(n, s)| - 1] == s[|s| - 1] && Times(n, s)[0] == s[0]
  {
    if n > 1 {
      TimesEnds(n - 1, s);
    } else {
      assert Times(0, s) == [] && s + [] == s;
    }
  }

  /** In an allow file, a host in any syntax, with or without exception marks before it,
      allows the host. */
  lemma AllowedHost(n: nat, syntax: Syntax, d: Text)
    requires CleanHost(d)
    ensures AllowTarget(Times(n, EXCEPTION) + Write(syntax, d)) == Some(Normalize(d))
  {
    hide Normalize, RuleTarget, RuleBody, Trim, TrimStartMatches, CleanHost;
    var rule := Write(syntax, d);
    var line := Times(n, EXCEPTION) + rule;
    StartsWithNoSpace(syntax, d);
    ExceptedTrims(n, rule);
    WrittenBody(syntax, d);
    TargetOfBody(rule, Trim(rule), d);
    PrefixesGo(n, EXCEPTION, Trim(rule));
    if n > 0 {
      TimesEnds(n, EXCEPTION);
      assert Trim(line)[0] == 64;
    } else {
      assert Trim(line) == Trim(rule);
    }
  }

  lemma StartsWithNoSpace(syntax: Syntax, d: Text)
    requires CleanHost(d)
    ensures Write(syntax, d) != [] && !IsSpace(Write(syntax, d)[0])
  {
    assert HostByte(d[0]);
  }

  /** A host in an allow file, in any syntax, decides for itself and for every name below it,
      whatever else is loaded, and is counted. */
  lemma AllowLineWins(
    blockFiles: seq<Option<Text>>, allowFiles: seq<Option<Text>>, n: nat, syntax: Syntax, d: Text, sub: Text)
    requires CleanHost(d) && Times(n, EXCEPTION) + Write(syntax, d) in AllLines(allowFiles)
    ensures var f := Loaded(blockFiles, allowFiles);
      && Evaluate(f, d) == AllowListMatched(Normalize(d))
      && Evaluate(f, sub + [DOT] + Normalize(d)) == AllowListMatched(Normalize(sub + [DOT] + Normalize(d)))
    ensures AllowCount([Times(n, EXCEPTION) + Write(syntax, d)]) == 1
  {
    hide ExceptionTarget, AllowTarget, BlockTarget, AllLines, Loaded, Normalize, Write, CleanHost, Trim, Evaluate;
    LoadedIs(blockFiles, allowFiles);
    AllowedHost(n, syntax, d);
    assert Normalize(d) in HostsNamed(AllLines(allowFiles), AllowTarget);
    AllowedWins(Loaded(blockFiles, allowFiles), d, sub);
    CountedWhenAllowed(Times(n, EXCEPTION) + Write(syntax, d));
  }

  lemma CountedWhenAllowed(line: Text)
    requires AllowTarget(line).Some?
    ensures AllowCount([line]) == 1
  {
    hide Trim;
    assert AllowCount([line][1..]) == 0;
  }
}
