/** The filter: a block list that an allow list overrides, loaded from rule files. */
module Engine {
  import opened Bytes
  import opened Strings
  import opened Trie

  /** `@@` */
  const EXCEPTION: Text := [64, 64]

  datatype FilterResult = Allowed | AllowListMatched(name: Text) | Blocked(name: Text)

  datatype Filter = Filter(allow: Trie, block: Trie)

  const NO_RULES: Filter := Filter(EMPTY, EMPTY)

  function AddAllow(f: Filter, rule: Text): Filter {
    f.(allow := AddRule(f.allow, TrimStartMatches(rule, EXCEPTION)))
  }

  function AddBlock(f: Filter, rule: Text): Filter {
    f.(block := AddRule(f.block, rule))
  }

  predicate IsException(line: Text) {
    StartsWith(Trim(line), EXCEPTION)
  }

  /** One line of a block list: an exception goes to the allow list and is not counted. */
  function BlockLine(f: Filter, line: Text): Filter {
    if IsException(line) then AddAllow(f, Trim(line))
    else if IsComment(Trim(line)) then f
    else AddBlock(f, Trim(line))
  }

  function AllowLine(f: Filter, line: Text): Filter {
    if IsComment(Trim(line)) then f else AddAllow(f, Trim(line))
  }

  function BlockLines(f: Filter, lines: seq<Text>): Filter
    decreases |lines|
  {
    if lines == [] then f else BlockLines(BlockLine(f, lines[0]), lines[1..])
  }

  function AllowLines(f: Filter, lines: seq<Text>): Filter
    decreases |lines|
  {
    if lines == [] then f else AllowLines(AllowLine(f, lines[0]), lines[1..])
  }

  /** The number of lines that a loader reports. */
  function BlockCount(lines: seq<Text>): nat {
    if lines == [] then 0
    else (if IsException(lines[0]) || IsComment(Trim(lines[0])) then 0 else 1) + BlockCount(lines[1..])
  }

  function AllowCount(lines: seq<Text>): nat {
    if lines == [] then 0 else (if IsComment(Trim(lines[0])) then 0 else 1) + AllowCount(lines[1..])
  }

  /** The name is normalised here and once more by each list. */
  function Evaluate(f: Filter, domain: Text): FilterResult {
    var n := Normalize(domain);
    if Matches(f.allow, n) then AllowListMatched(n)
    else if Matches(f.block, n) then Blocked(n)
    else Allowed
  }

  /** The filter after the block files and then the allow files; an unreadable file is skipped. */
  function LoadBlockFiles(f: Filter, files: seq<Option<Text>>): Filter
    decreases |files|
  {
    if files == [] then f
    else LoadBlockFiles(if files[0].Some? then BlockLines(f, Lines(files[0].value)) else f, files[1..])
  }

  function LoadAllowFiles(f: Filter, files: seq<Option<Text>>): Filter
    decreases |files|
  {
    if files == [] then f
    else LoadAllowFiles(if files[0].Some? then AllowLines(f, Lines(files[0].value)) else f, files[1..])
  }

  class FilterEngine {
    const allowlist: DomainTrie
    const blocklist: DomainTrie

    ghost predicate Valid()
    {
      allowlist != blocklist
    }

    function View(): Filter
      reads allowlist, blocklist
    {
      Filter(allowlist.View(), blocklist.View())
    }

    constructor ()
      ensures Valid() && View() == NO_RULES && fresh(allowlist) && fresh(blocklist)
    {
      allowlist := new DomainTrie();
      blocklist := new DomainTrie();
    }

    method LoadAllowlistRule(rule: Text)
      requires Valid()
      modifies allowlist
      ensures View() == AddAllow(old(View()), rule)
    {
      var clean := TrimStartMatches(rule, EXCEPTION);
      allowlist.InsertRule(clean);
    }

    method LoadBlocklistRule(rule: Text)
      requires Valid()
      modifies blocklist
      ensures View() == AddBlock(old(View()), rule)
    {
      blocklist.InsertRule(rule);
    }

    method LoadBlocklistContent(content: Text) returns (count: nat)
      requires Valid()
      modifies allowlist, blocklist
      ensures View() == BlockLines(old(View()), Lines(content)) && count == BlockCount(Lines(content))
    {
      hide AddRule, Trim;
      count := 0;
      var lines := Lines(content);
      for i := 0 to |lines|
        invariant BlockLines(View(), lines[i..]) == BlockLines(old(View()), lines)
        invariant count + BlockCount(lines[i..]) == BlockCount(lines)
      {
        assert lines[i..][0] == lines[i] && lines[i..][1..] == lines[i + 1..];
        var trimmed := Trim(lines[i]);
        if StartsWith(trimmed, EXCEPTION) {
          LoadAllowlistRule(trimmed);
        } else if trimmed != [] && trimmed[0] != HASH && trimmed[0] != BANG {
          LoadBlocklistRule(trimmed);
          count := count + 1;
        }
      }
    }

    method LoadAllowlistContent(content: Text) returns (count: nat)
      requires Valid()
      modifies allowlist
      ensures View() == AllowLines(old(View()), Lines(content)) && count == AllowCount(Lines(content))
    {
      hide AddRule, Trim;
      count := 0;
      var lines := Lines(content);
      for i := 0 to |lines|
        invariant AllowLines(View(), lines[i..]) == AllowLines(old(View()), lines)
        invariant count + AllowCount(lines[i..]) == AllowCount(lines)
      {
        assert lines[i..][0] == lines[i] && lines[i..][1..] == lines[i + 1..];
        var trimmed := Trim(lines[i]);
        if trimmed != [] && trimmed[0] != HASH && trimmed[0] != BANG {
          LoadAllowlistRule(trimmed);
          count := count + 1;
        }
      }
    }

    method Decide(domain: Text) returns (r: FilterResult)
      ensures r == Evaluate(View(), domain)
    {
      var normalized := Normalize(domain);
      var allowed := allowlist.IsMatch(normalized);
      if allowed {
        return AllowListMatched(normalized);
      }
      var blocked := blocklist.IsMatch(normalized);
      if blocked {
        return Blocked(normalized);
      }
      return Allowed;
    }
  }

  /** The rule-file loading of the server. */
  method LoadRules(blockFiles: seq<Option<Text>>, allowFiles: seq<Option<Text>>) returns (engine: FilterEngine)
    ensures engine.Valid() && fresh(engine)
    ensures engine.View() == LoadAllowFiles(LoadBlockFiles(NO_RULES, blockFiles), allowFiles)
  {
    hide BlockLines, AllowLines, Lines;
    engine := new FilterEngine();
    for i := 0 to |blockFiles|
      invariant engine.Valid() && fresh(engine.allowlist) && fresh(engine.blocklist)
      invariant LoadBlockFiles(engine.View(), blockFiles[i..]) == LoadBlockFiles(NO_RULES, blockFiles)
    {
      assert blockFiles[i..][0] == blockFiles[i] && blockFiles[i..][1..] == blockFiles[i + 1..];
      if blockFiles[i].Some? {
        var n := engine.LoadBlocklistContent(blockFiles[i].value);
      }
    }
    for i := 0 to |allowFiles|
      invariant engine.Valid() && fresh(engine.allowlist) && fresh(engine.blocklist)
      invariant LoadAllowFiles(engine.View(), allowFiles[i..])
             == LoadAllowFiles(LoadBlockFiles(NO_RULES, blockFiles), allowFiles)
    {
      assert allowFiles[i..][0] == allowFiles[i] && allowFiles[i..][1..] == allowFiles[i + 1..];
      if allowFiles[i].Some? {
        var n := engine.LoadAllowlistContent(allowFiles[i].value);
      }
    }
  }
}
