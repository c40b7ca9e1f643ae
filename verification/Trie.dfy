/** One rule list: rules of several syntaxes reduced to domain names, and the
    parent-domain scan over them. */
module Trie {
  import opened Bytes
  import opened Strings

  const HASH: byte := 35
  const BANG: byte := 33
  const DOLLAR: byte := 36
  const SLASH: byte := 47
  const EQUALS: byte := 61
  const CARET: byte := 94

  /** `||` */
  const BARS: Text := [124, 124]
  /** `*.` */
  const STAR_DOT: Text := [42, 46]
  /** `0.0.0.0 ` */
  const ZERO_HOST: Text := [48, 46, 48, 46, 48, 46, 48, 32]
  /** `127.0.0.1 ` */
  const LOOPBACK_HOST: Text := [49, 50, 55, 46, 48, 46, 48, 46, 49, 32]

  datatype Trie = Trie(exact: set<Text>, wildcard: set<Text>)

  const EMPTY: Trie := Trie({}, {})

  /** Lower-case, without white space around it and without dots at its end. */
  function Normalize(domain: Text): Text {
    Lower(TrimEndByte(Trim(domain), DOT))
  }

  predicate IsComment(trimmed: Text) {
    trimmed == [] || trimmed[0] == HASH || trimmed[0] == BANG
  }

  /** The domain part of a trimmed rule, by syntax. */
  function RuleBody(trimmed: Text): Text {
    if StartsWith(trimmed, BARS) then TrimEndByte(Before(TrimStartMatches(trimmed, BARS), DOLLAR), CARET)
    else if StartsWith(trimmed, ZERO_HOST) || StartsWith(trimmed, LOOPBACK_HOST) then SecondWord(trimmed)
    else if StartsWith(trimmed, STAR_DOT) then TrimStartMatches(trimmed, STAR_DOT)
    else trimmed
  }

  predicate HostShaped(n: Text) {
    n != [] && n[0] != SLASH && SPACE !in n && EQUALS !in n
  }

  /** What a rule line puts into both sets, if anything. */
  function RuleTarget(raw: Text): Option<Text> {
    var trimmed := Trim(raw);
    if IsComment(trimmed) then None
    else
      var n := Normalize(RuleBody(trimmed));
      if HostShaped(n) then Some(n) else None
  }

  function AddRule(t: Trie, raw: Text): Trie {
    match RuleTarget(raw)
    case None => t
    case Some(n) => Trie(t.exact + {n}, t.wildcard + {n})
  }

  /** The scan over the parent domains of `s`. */
  predicate ParentIn(s: Text, rules: set<Text>)
    decreases |s|
  {
    var i := IndexOf(s, DOT);
    i < |s| && (s[i + 1..] in rules || ParentIn(s[i + 1..], rules))
  }

  predicate Matches(t: Trie, domain: Text) {
    Normalize(domain) in t.exact || ParentIn(Normalize(domain), t.wildcard)
  }

  class DomainTrie {
    var exactMatches: set<Text>
    var wildcardMatches: set<Text>

    function View(): Trie
      reads this
    {
      Trie(exactMatches, wildcardMatches)
    }

    constructor ()
      ensures View() == EMPTY
    {
      exactMatches := {};
      wildcardMatches := {};
    }

    method InsertRule(rawRule: Text)
      modifies this
      ensures View() == AddRule(old(View()), rawRule)
    {
      var trimmed := Trim(rawRule);
      if trimmed == [] || trimmed[0] == HASH || trimmed[0] == BANG {
        return;
      }
      var rule := RuleBody(trimmed);
      var normalized := Normalize(rule);
      if normalized == [] {
        return;
      }
      if normalized[0] == SLASH || SPACE in normalized || EQUALS in normalized {
        return;
      }
      wildcardMatches := wildcardMatches + {normalized};
      exactMatches := exactMatches + {normalized};
    }

    method IsMatch(domain: Text) returns (found: bool)
      ensures found == Matches(View(), domain)
    {
      var normalized := Normalize(domain);
      if normalized in exactMatches {
        return true;
      }
      var current := normalized;
      var dot := IndexOf(current, DOT);
      while dot < |current|
        invariant dot == IndexOf(current, DOT)
        invariant ParentIn(current, wildcardMatches) == ParentIn(normalized, wildcardMatches)
        decreases |current|
      {
        current := current[dot + 1..];
        if current in wildcardMatches {
          return true;
        }
        dot := IndexOf(current, DOT);
      }
      return false;
    }
  }

  // ----- What the scan decides -----

  /** A rule covers a name that equals it or ends with a dot and it. */
  predicate Covers(rule: Text, n: Text) {
    n == rule || EndsWith(n, [DOT] + rule)
  }

  lemma {:induction false} ScanFindsSuffix(s: Text, rules: set<Text>)
    ensures ParentIn(s, rules) <==> exists r | r in rules :: EndsWith(s, [DOT] + r)
    decreases |s|
  {
    var i := IndexOf(s, DOT);
    if i < |s| {
      var rest := s[i + 1..];
      ScanFindsSuffix(rest, rules);
      assert s[i..] == [DOT] + rest;
      forall r | r in rules ensures EndsWith(s, [DOT] + r) <==> rest == r || EndsWith(rest, [DOT] + r) {
        SuffixPastDot(s, i, r);
      }
    } else {
      forall r | r in rules ensures !EndsWith(s, [DOT] + r) {
        NoDotNoSuffix(s, r);
      }
    }
  }

  lemma SuffixPastDot(s: Text, i: nat, r: Text)
    requires i == IndexOf(s, DOT) < |s|
    ensures EndsWith(s, [DOT] + r) <==> s[i + 1..] == r || EndsWith(s[i + 1..], [DOT] + r)
  {
    hide IndexOf;
    var rest := s[i + 1..];
    var p := |s| - |r| - 1;
    if p >= 0 && s[p..] == [DOT] + r {
      assert s[p] == s[p..][0] == DOT;
      assert p >= i;
    }
    if p > i {
      assert rest[|rest| - |r| - 1..] == s[p..];
    } else if p == i {
      assert s[p..][1..] == rest && ([DOT] + r)[1..] == r && s[p..] == [DOT] + rest;
    }
  }

  lemma NoDotNoSuffix(s: Text, r: Text)
    requires IndexOf(s, DOT) == |s|
    ensures !EndsWith(s, [DOT] + r)
  {
    if |r| < |s| {
      assert s[|s| - |r| - 1..][0] == s[|s| - |r| - 1] != DOT;
    }
  }

  /** Main result: on a list whose two sets agree, a name matches exactly when some rule
      covers its normal form. */
  lemma MatchesExactly(t: Trie, domain: Text)
    requires t.exact == t.wildcard
    ensures Matches(t, domain) <==> exists r | r in t.exact :: Covers(r, Normalize(domain))
  {
    ScanFindsSuffix(Normalize(domain), t.wildcard);
  }

  // ----- Rule lists -----

  function AddRules(t: Trie, lines: seq<Text>): Trie
    decreases |lines|
  {
    if lines == [] then t else AddRules(AddRule(t, lines[0]), lines[1..])
  }

  /** The names a list of rule lines stands for. */
  function Targets(lines: seq<Text>): set<Text> {
    set l | l in lines && RuleTarget(l).Some? :: RuleTarget(l).value
  }

  /** After every sequence of insertions both sets hold exactly the names of the rules. */
  lemma {:induction false} RulesAreTargets(t: Trie, lines: seq<Text>)
    ensures AddRules(t, lines) == Trie(t.exact + Targets(lines), t.wildcard + Targets(lines))
    decreases |lines|
  {
    hide RuleTarget;
    if lines == [] {
      assert Targets(lines) == {};
    } else {
      RulesAreTargets(AddRule(t, lines[0]), lines[1..]);
      TargetsCons(lines);
    }
  }

  lemma TargetsCons(lines: seq<Text>)
    requires lines != []
    ensures Targets(lines)
         == (if RuleTarget(lines[0]).Some? then {RuleTarget(lines[0]).value} else {}) + Targets(lines[1..])
  {
    hide RuleTarget;
    assert lines == [lines[0]] + lines[1..];
    assert forall l :: l in lines <==> l == lines[0] || l in lines[1..];
  }

  /** More rules match more names. */
  lemma MatchesIsMonotone(t: Trie, u: Trie, domain: Text)
    requires t.exact == t.wildcard <= u.exact == u.wildcard && Matches(t, domain)
    ensures Matches(u, domain)
  {
    MatchesExactly(t, domain);
    MatchesExactly(u, domain);
  }
}
