/** The rule syntaxes: six ways of writing that a host is blocked, which all have the same
    effect, and the exception that overrides them. */
module RuleSyntax {
  import opened Bytes
  import opened Strings
  import opened Trie
  import opened Engine
  import opened FilterLaws

  /** Letters, digits, `-`, `_` and dots. */
  predicate HostByte(b: byte) {
    97 <= b <= 122 || 65 <= b <= 90 || 48 <= b <= 57 || b == 45 || b == 95 || b == DOT
  }

  predicate AllHostBytes(d: Text) {
    forall i | 0 <= i < |d| :: HostByte(d[i])
  }

  /** A host name that is not only dots. */
  predicate CleanHost(d: Text) {
    AllHostBytes(d) && TrimEndByte(d, DOT) != []
  }

  lemma HostNormal(d: Text)
    requires CleanHost(d)
    ensures Trim(d) == d && Normalize(d) == Lower(TrimEndByte(d, DOT)) && HostShaped(Normalize(d))
  {
    hide Trim;
    assert HostByte(d[0]) && HostByte(d[|d| - 1]);
    TrimNothing(d);
    HostShapedPrefix(d, TrimEndByte(d, DOT));
  }

  lemma HostShapedPrefix(d: Text, t: Text)
    requires AllHostBytes(d) && t <= d && t != []
    ensures HostShaped(Lower(t))
  {
    assert forall i | 0 <= i < |t| :: HostByte(d[i]) && Lower(t)[i] == LowerByte(d[i]);
  }

  lemma TrimPrefixOnce(prefix: Text, x: Text)
    requires prefix != [] && !StartsWith(x, prefix)
    ensures TrimStartMatches(prefix + x, prefix) == x
  {
    assert (prefix + x)[..|prefix|] == prefix && (prefix + x)[|prefix|..] == x;
    assert TrimStartMatches(x, prefix) == x;
  }

  lemma NoPrefix(d: Text, tail: Text, prefix: Text)
    requires d != [] && prefix != [] && d[0] != prefix[0]
    ensures !StartsWith(d + tail, prefix)
  {
    if |prefix| <= |d + tail| {
      assert (d + tail)[..|prefix|][0] == d[0];
    }
  }

  lemma NoSpaceInHost(d: Text, prefix: Text, k: nat)
    requires AllHostBytes(d) && k < |prefix| && prefix[k] == SPACE
    ensures !StartsWith(d, prefix)
  {
    if |prefix| <= |d| {
      assert d[..|prefix|][k] == d[k];
    }
  }

  lemma {:induction false} SpaceIndexOf(w: Text, rest: Text)
    requires forall i | 0 <= i < |w| :: !IsSpace(w[i])
    requires rest == [] || IsSpace(rest[0])
    ensures SpaceIndex(w + rest) == |w|
  {
    if w == [] {
      assert w + rest == rest;
    } else {
      assert (w + rest)[1..] == w[1..] + rest;
      SpaceIndexOf(w[1..], rest);
    }
  }

  lemma SecondWordOf(w: Text, d: Text)
    requires w != [] && forall i | 0 <= i < |w| :: !IsSpace(w[i])
    requires d != [] && forall i | 0 <= i < |d| :: !IsSpace(d[i])
    ensures SecondWord(w + [SPACE] + d) == d
  {
    var s := w + [SPACE] + d;
    assert TrimStart(s) == s;
    assert s == w + ([SPACE] + d);
    SpaceIndexOf(w, [SPACE] + d);
    assert s[|w|..] == [SPACE] + d && ([SPACE] + d)[1..] == d;
    assert TrimStart([SPACE] + d) == d;
    SpaceIndexOf(d, []);
    assert d + [] == d && d[..|d|] == d;
  }

  // ----- What the body of each syntax is -----

  lemma PlainBody(d: Text)
    requires CleanHost(d)
    ensures RuleBody(d) == d
  {
    NoPrefix(d, [], BARS);
    NoPrefix(d, [], STAR_DOT);
    assert d + [] == d;
    NoSpaceInHost(d, ZERO_HOST, 7);
    NoSpaceInHost(d, LOOPBACK_HOST, 9);
  }

  lemma WildcardBody(d: Text)
    requires CleanHost(d)
    ensures RuleBody(STAR_DOT + d) == d
  {
    var s := STAR_DOT + d;
    NoPrefix(d, [], STAR_DOT);
    NoPrefix(STAR_DOT, d, BARS);
    NoPrefix(STAR_DOT, d, ZERO_HOST);
    NoPrefix(STAR_DOT, d, LOOPBACK_HOST);
    assert d + [] == d;
    assert s[..2] == STAR_DOT;
    TrimPrefixOnce(STAR_DOT, d);
  }

  /** A hosts-file line: an address of eight or ten octets with its space, then the host. */
  lemma HostsLineBody(address: Text, d: Text)
    requires CleanHost(d) && (address + [SPACE] == ZERO_HOST || address + [SPACE] == LOOPBACK_HOST)
    ensures RuleBody(address + [SPACE] + d) == d
  {
    hide SecondWord;
    var s := address + [SPACE] + d;
    assert forall i | 0 <= i < |d| :: HostByte(d[i]) && !IsSpace(d[i]);
    assert forall i | 0 <= i < |address| :: address[i] == (address + [SPACE])[i];
    SecondWordOf(address, d);
    NoPrefix(address + [SPACE], d, BARS);
    assert s[..|address| + 1] == address + [SPACE];
  }

  lemma HostsBody(d: Text)
    requires CleanHost(d)
    ensures RuleBody(ZERO_HOST + d) == d && RuleBody(LOOPBACK_HOST + d) == d
  {
    hide RuleBody;
    assert ZERO_HOST == ZERO_HOST[..7] + [SPACE] && LOOPBACK_HOST == LOOPBACK_HOST[..9] + [SPACE];
    HostsLineBody(ZERO_HOST[..7], d);
    HostsLineBody(LOOPBACK_HOST[..9], d);
  }

  lemma CaretGoes(d: Text)
    requires CleanHost(d)
    ensures TrimEndByte(d + [CARET], CARET) == d
  {
    assert HostByte(d[|d| - 1]);
    TrimEndByteOf(d, [CARET], CARET);
    assert [CARET][..0] == [] && TrimEndByte([CARET], CARET) == [];
  }

  lemma BarsRule(rest: Text)
    requires !StartsWith(rest, BARS)
    ensures RuleBody(BARS + rest) == TrimEndByte(Before(rest, DOLLAR), CARET)
  {
    hide Before, TrimEndByte, StartsWith, SecondWord;
    assert StartsWith(BARS + rest, BARS) by { BarsFirst(rest); }
    TrimPrefixOnce(BARS, rest);
  }

  lemma BarsFirst(rest: Text)
    ensures StartsWith(BARS + rest, BARS)
  {
    assert (BARS + rest)[..2] == BARS;
  }

  lemma BeforeDollar(d: Text, options: Text)
    requires CleanHost(d)
    ensures Before(d + [CARET], DOLLAR) == d + [CARET]
    ensures Before(d + [CARET] + [DOLLAR] + options, DOLLAR) == d + [CARET]
  {
    var host := d + [CARET];
    assert forall i | 0 <= i < |d| :: HostByte(d[i]) && host[i] == d[i];
    assert IndexOf(host, DOLLAR) == |host|;
    IndexOfBeforeConcat(host, DOLLAR, options);
  }

  lemma BarsBody(d: Text, options: Text)
    requires CleanHost(d)
    ensures RuleBody(BARS + d + [CARET]) == d
    ensures RuleBody(BARS + d + [CARET] + [DOLLAR] + options) == d
  {
    hide RuleBody, Before, TrimEndByte, StartsWith;
    assert HostByte(d[0]);
    var host, all := d + [CARET], d + [CARET] + [DOLLAR] + options;
    NoPrefix(d, [CARET], BARS);
    NoPrefix(d, [CARET] + [DOLLAR] + options, BARS);
    assert d + ([CARET] + [DOLLAR] + options) == all;
    assert BARS + d + [CARET] == BARS + host;
    assert BARS + d + [CARET] + [DOLLAR] + options == BARS + all;
    BarsRule(host);
    BarsRule(all);
    BeforeDollar(d, options);
    CaretGoes(d);
  }

  // ----- The lines -----

  /** A rule whose trimmed form is no comment and whose body is a clean host blocks that host. */
  lemma TargetOfBody(line: Text, trimmed: Text, d: Text)
    requires Trim(line) == trimmed && !IsComment(trimmed) && RuleBody(trimmed) == d && CleanHost(d)
    ensures RuleTarget(line) == Some(Normalize(d)) && RuleTarget(trimmed) == Some(Normalize(d))
  {
    HostNormal(d);
    TrimIsTrimmed(line);
    TrimNothing(trimmed);
  }

  /** The six ways of writing that `d` is blocked. */
  datatype Syntax = Plain | Wildcard | ZeroHosts | LoopbackHosts | AdGuard | AdGuardOptions(options: Text)

  function Write(syntax: Syntax, d: Text): Text {
    match syntax
    case Plain => d
    case Wildcard => STAR_DOT + d
    case ZeroHosts => ZERO_HOST + d
    case LoopbackHosts => LOOPBACK_HOST + d
    case AdGuard => BARS + d + [CARET]
    case AdGuardOptions(options) => BARS + d + [CARET] + [DOLLAR] + options
  }

  lemma WrittenBody(syntax: Syntax, d: Text)
    requires CleanHost(d)
    ensures RuleBody(Trim(Write(syntax, d))) == d && !IsComment(Trim(Write(syntax, d)))
    ensures !IsException(Write(syntax, d))
  {
    hide RuleBody, Trim;
    var line := Write(syntax, d);
    assert HostByte(d[0]) && HostByte(d[|d| - 1]);
    if syntax.AdGuardOptions? {
      TrimOptions(d, syntax.options);
      BarsBody(d, TrimEnd(syntax.options));
    } else {
      TrimNothing(line);
      PlainBody(d);
      WildcardBody(d);
      HostsBody(d);
      BarsBody(d, []);
    }
    assert Trim(line)[0] != 64;
    NoPrefix(Trim(line), [], EXCEPTION);
    assert Trim(line) + [] == Trim(line);
  }

  lemma TrimOptions(d: Text, options: Text)
    ensures Trim(BARS + d + [CARET] + [DOLLAR] + options) == BARS + d + [CARET] + [DOLLAR] + TrimEnd(options)
  {
    var front := BARS + d + [CARET] + [DOLLAR];
    assert (front + options)[0] == 124 && TrimStart(front + options) == front + options;
    TrimEndOf(front, options);
  }

  /** Main result on syntaxes: however it is written, the line blocks the normalised host
      and nothing else. */
  lemma SyntaxesAgree(syntax: Syntax, d: Text, f: Filter)
    requires CleanHost(d)
    ensures BlockLine(f, Write(syntax, d)) == f.(block := With(f.block, {Normalize(d)}))
  {
    hide RuleTarget, Write, With, BlockLine;
    var line := Write(syntax, d);
    WrittenBody(syntax, d);
    TargetOfBody(line, Trim(line), d);
    assert BlockTarget(line) == Some(Normalize(d)) && ExceptionTarget(line) == None;
    BlockLineIs(f, line);
    WithNothing(f.allow);
  }

  lemma ExceptionTrims(rule: Text)
    requires rule != [] && !IsSpace(rule[0])
    ensures Trim(EXCEPTION + rule) == EXCEPTION + Trim(rule)
  {
    hide TrimEnd;
    var line := EXCEPTION + rule;
    assert line[0] == 64 && TrimStart(line) == line && TrimStart(rule) == rule;
    TrimEndOf(EXCEPTION, rule);
  }

  lemma ExceptionIs(syntax: Syntax, d: Text)
    requires CleanHost(d)
    ensures ExceptionTarget(EXCEPTION + Write(syntax, d)) == Some(Normalize(d))
  {
    hide RuleTarget, RuleBody, Trim, TrimStartMatches, Normalize;
    var rule := Write(syntax, d);
    assert HostByte(d[0]) && !IsSpace(rule[0]);
    hide Write, CleanHost;
    ExceptionTrims(rule);
    WrittenBody(syntax, d);
    TargetOfBody(rule, Trim(rule), d);
    ExceptionStrips(Trim(rule));
    assert StartsWith(EXCEPTION + Trim(rule), EXCEPTION);
  }

  lemma ExceptionStrips(rule: Text)
    requires !StartsWith(rule, EXCEPTION)
    ensures TrimStartMatches(EXCEPTION + rule, EXCEPTION) == rule
  {
    hide TrimStartMatches, StartsWith;
    TrimPrefixOnce(EXCEPTION, rule);
  }

  lemma HostNormalTwice(d: Text)
    requires CleanHost(d)
    ensures Normalize(Normalize(d)) == Normalize(d) != []
  {
    HostNormal(d);
    var t := TrimEndByte(d, DOT);
    assert HostByte(d[|t| - 1]) && t[|t| - 1] == d[|t| - 1];
    NormalizeTwice(d);
  }

  /** An allow rule for a host decides for it and for every name below it. */
  lemma AllowedWins(f: Filter, d: Text, sub: Text)
    requires CleanHost(d) && Normalize(d) in f.allow.exact
    requires f.allow.exact == f.allow.wildcard && f.block.exact == f.block.wildcard
    ensures Evaluate(f, d) == AllowListMatched(Normalize(d))
    ensures Evaluate(f, sub + [DOT] + Normalize(d)) == AllowListMatched(Normalize(sub + [DOT] + Normalize(d)))
  {
    hide Normalize;
    var n := Normalize(d);
    HostNormalTwice(d);
    EvaluateExactly(f, d);
    assert Covers(n, n);
    EvaluateExactly(f, sub + [DOT] + n);
    NormalizeBelow(sub, n);
    NormalizeBelow(Lower(TrimStart(sub)), n);
    CoversBelow(n, n, Lower(TrimStart(Lower(TrimStart(sub)))));
  }

  /** An exception line anywhere in the block files, in any syntax, decides for its host and
      for every name below it, whatever else is loaded. */
  lemma ExceptionWins(
    blockFiles: seq<Option<Text>>, allowFiles: seq<Option<Text>>, syntax: Syntax, d: Text, sub: Text)
    requires CleanHost(d) && EXCEPTION + Write(syntax, d) in AllLines(blockFiles)
    ensures var f := Loaded(blockFiles, allowFiles);
      && Evaluate(f, d) == AllowListMatched(Normalize(d))
      && Evaluate(f, sub + [DOT] + Normalize(d)) == AllowListMatched(Normalize(sub + [DOT] + Normalize(d)))
  {
    hide ExceptionTarget, AllowTarget, BlockTarget, AllLines, Loaded, Normalize, Write, CleanHost, Evaluate;
    LoadedIs(blockFiles, allowFiles);
    ExceptionIs(syntax, d);
    assert Normalize(d) in HostsNamed(AllLines(blockFiles), ExceptionTarget);
    AllowedWins(Loaded(blockFiles, allowFiles), d, sub);
  }
}
