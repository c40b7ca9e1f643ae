/** A query of two questions, the second of which is for a blocked name: the filter looks at
    the first one, and the whole query is sent upstream. */
module SecondQuestion {
  import opened Bytes
  import opened Wire
  import opened Names
  import opened Records
  import opened Sections
  import opened Packets
  import opened Strings
  import opened Trie
  import opened Engine
  import opened FilterLaws
  import opened Service
  import opened Interleaving
  import Chunks
  import Letters

  /** Questions for the addresses of `a` and of `b`. */
  const QUERY: seq<byte> :=
    [0, 0, 0, 0, 0, 2, 0, 0, 0, 0, 0, 0, 1, 97, 0, 0, 1, 0, 1, 1, 98, 0, 0, 1, 0, 1]

  const FIRST: Question := Question([97], A, IN)
  const SECOND: Question := Question([98], A, IN)

  /** A block list of the one line `b`. */
  function BlocksB(useNxdomain: bool): Policy {
    Policy(Loaded([Some([98])], []), useNxdomain)
  }

  lemma QuestionsAreRead()
    ensures ParseQuestion(QUERY, 12) == Done(FIRST, 19) && ParseQuestion(QUERY, 19) == Done(SECOND, 26)
  {
    hide ReadName;
    Letters.LetterName(QUERY, 12, 97);
    Letters.LetterName(QUERY, 19, 98);
  }

  lemma ListIsRead()
    ensures ParseAll(QUERY, 12, 2, ParseQuestion, []) == Done([FIRST, SECOND], 26)
  {
    hide ParseQuestion;
    QuestionsAreRead();
    assert [] + [FIRST] == [FIRST] && [FIRST] + [SECOND] == [FIRST, SECOND];
    assert ParseAll(QUERY, 26, 0, ParseQuestion, [FIRST, SECOND]) == Done([FIRST, SECOND], 26);
    assert ParseAll(QUERY, 19, 1, ParseQuestion, [FIRST]) == Done([FIRST, SECOND], 26);
  }

  lemma QueryIsRead()
    ensures Decode(QUERY).Ok? && Decode(QUERY).value.questions == [FIRST, SECOND]
  {
    hide ParseQuestion, ParseRecord;
    ListIsRead();
    assert U16At(QUERY, 4) == 2 && U16At(QUERY, 6) == 0 && U16At(QUERY, 8) == 0 && U16At(QUERY, 10) == 0;
  }

  lemma ListBlocksB()
    ensures Loaded([Some([98])], []) == Engine.Filter.Filter(EMPTY, Trie({[98]}, {[98]}))
  {
    hide BlockTarget, ExceptionTarget, AllLines, HostsNamed, Loaded;
    Chunks.OneFile([98]);
    OneLine();
    LoadedIs([Some([98])], []);
    Letters.LetterBlocksItself(98);
    HostsNamedCons([[98]], BlockTarget);
    HostsNamedCons([[98]], ExceptionTarget);
    assert [[98]][1..] == [];
    NoHosts();
  }

  lemma OneLine()
    ensures Lines([98]) == [[98]]
  {
    assert IndexOf([98], NEWLINE) == 1;
  }

  lemma NoHosts()
    ensures HostsNamed([], BlockTarget) == {} && HostsNamed([], ExceptionTarget) == {}
    ensures HostsNamed(AllLines([]), AllowTarget) == {}
  {
  }

  lemma VerdictsDiffer()
    ensures var f := Loaded([Some([98])], []); Evaluate(f, [97]) == Allowed && Evaluate(f, [98]) == Blocked([98])
  {
    hide Loaded, Evaluate, Normalize;
    ListBlocksB();
    var f := Loaded([Some([98])], []);
    EvaluateExactly(f, [97]);
    EvaluateExactly(f, [98]);
    Letters.LetterIsNormal(97);
    Letters.LetterIsNormal(98);
    assert Covers([98], [98]) && !Covers([98], [97]);
  }

  /** The query asks for a blocked name, and there is a run in which it is sent upstream. */
  lemma BlockedNameIsForwarded(useNxdomain: bool, capacity: nat, minSecs: nat, maxSecs: nat, now: nat)
    requires minSecs <= maxSecs
    ensures var policy, steps := BlocksB(useNxdomain), FirstSteps(QUERY, now);
      var s0 := Start(policy, capacity, minSecs, maxSecs, now);
      && Decode(QUERY).Ok? && AsksBlocked(policy, Decode(QUERY).value.questions)
      && CanRun(s0, steps) && 0 in After(s0, steps).tasks
      && After(s0, steps).tasks[0].query == QUERY && After(s0, steps).tasks[0].forwarded
  {
    hide Decode, Loaded, Evaluate, CanRun, After;
    QueryIsRead();
    VerdictsDiffer();
    assert IsBlocked(BlocksB(useNxdomain), Decode(QUERY).value.questions[1].name);
    AdmittedIsForwarded(BlocksB(useNxdomain), capacity, minSecs, maxSecs, now, QUERY);
  }
}
