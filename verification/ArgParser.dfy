/**
 The two entry points of the parser, Stats::add and Parser::parse, and what holds when the one
 is used to size the arrays for the other.
 */
module ArgParser {
  import opened Common
  import opened OptionSyntax
  import opened WordSyntax
  import opened ArgPass
  import opened OptionLists
  import opened OptionStore
  import opened Workhorse
  import opened Reordering

  // ---------------------------------------------------------------- Stats::add

  /** The size of an options array with a slot for every index of the table and a sentinel. */
  function OptionsMax(usage: Usage, start: nat): (m: nat)
    ensures m >= start && forall i :: 0 <= i < |usage| ==> usage[i].index + 2 <= m
    ensures m == start || exists i :: 0 <= i < |usage| && m == usage[i].index + 2
  {
    if usage == [] then start
    else
      var k := |usage| - 1;
      var m := OptionsMax(usage[..k], start);
      if usage[k].index + 2 > m then usage[k].index + 2 else m
  }

  method SizeOptions(usage: Usage, start: nat) returns (m: nat)
    ensures m == OptionsMax(usage, start)
  {
    m := start;
    var i := 0;
    while i < |usage|
      invariant 0 <= i <= |usage|
      invariant m == OptionsMax(usage[..i], start)
    {
      if usage[i].index + 1 >= m {
        m := usage[i].index + 1 + 1;
      }
      i := i + 1;
      assert usage[..i][..i - 1] == usage[..i - 1];
    }
    assert usage[..i] == usage;
  }

  /** Counts the options of the vector, which a GNU-mode pass reorders on the way. */
  method AddStats(stats: Stats, gnu: bool, table: Table, argc: int, argv: Vector)
    requires ProperArguments(argv, argc) && stats.bufferMax <= INT_MAX
    modifies stats, argv
    ensures var words := old(WordsOf(argv, argc));
            && stats.optionsMax == OptionsMax(table.usage, old(stats.optionsMax))
            && stats.bufferMax == Min(old(stats.bufferMax) + |Scan(gnu, ParserOf(table), words).options|, INT_MAX)
            && (argv != null ==> argv[..] == VectorAfter(gnu, ParserOf(table), old(argv[..]), words, INT_MAX - old(stats.bufferMax)))
  {
    hide Scan; hide Words; hide ParserOf; hide VectorAfter; hide ProperVector; hide Reported; hide OptionsMax;
    var optionsMax := SizeOptions(table.usage, stats.optionsMax);
    stats.optionsMax := optionsMax;
    var counter := new CountOptionsAction(stats);
    var action := Counting(counter);
    ghost var was, options := action.State(), Scan(gnu, ParserOf(table), WordsOf(argv, argc)).options;
    AcceptedLength(options, was.room);
    var ok := Pass(gnu, table, argc, argv, action, was);
    hide Accepted;
    assert counter.seen == [] + Accepted(options, was.room);
  }

  lemma AcceptedLength(options: seq<Parsed>, room: int)
    requires room >= 0
    ensures |Accepted(options, room)| == Min(|options|, room)
  {
  }

  lemma AcceptsAll(options: seq<Parsed>, room: int)
    requires Fits(|options|, room)
    ensures Accepted(options, room) == options
  {
  }

  // ---------------------------------------------------------------- Parser::parse

  /** `log'` is `log` and as many of the new options, in order, as fit `bufmax` slots. */
  ghost predicate FillsUpTo(bufmax: nat, log: seq<Parsed>, options: seq<Parsed>, log': seq<Parsed>) {
    && log <= log' <= log + options
    && (|log'| > |log| ==> |log'| <= bufmax) && (|log'| < |log| + |options| ==> |log'| >= bufmax)
  }

  lemma KeptFills(bufmax: int, log: seq<Parsed>, options: seq<Parsed>)
    ensures bufmax >= 0 ==> FillsUpTo(bufmax, log, options, log + Kept(bufmax, |log|, Accepted(options, -1)))
  {
    KeptMeans(bufmax, |log|, options);
    hide Kept;
  }

  /** Parses the vector into arrays that already hold the options `log`. */
  method Parse(parser: Parser, arrays: OptionArrays, bufmax: int, gnu: bool, table: Table, argc: int, argv: Vector, ghost log: seq<Parsed>)
    returns (ghost log': seq<Parsed>)
    requires ProperArguments(argv, argc)
    requires arrays.options != arrays.buffer && argv != arrays.options as object && argv != arrays.buffer as object
    requires Holds(arrays.Contents(), log)
    requires if bufmax < 0 then |log| < arrays.buffer.Length && |log| <= INT_MAX else bufmax <= arrays.buffer.Length && bufmax <= INT_MAX
    requires forall i :: 0 <= i < |table.usage| ==> table.usage[i].index < arrays.options.Length
    requires bufmax < 0 ==> |log| + |Scan(gnu, ParserOf(table), WordsOf(argv, argc)).options| <= arrays.buffer.Length
                            || INT_MAX <= arrays.buffer.Length
    modifies parser, arrays.options, arrays.buffer, argv
    ensures var words := old(WordsOf(argv, argc));
            var r := Scan(gnu, ParserOf(table), words);
            var room := if bufmax < 0 then INT_MAX - |log| else -1;
            && Holds(arrays.Contents(), log')
            && log' == log + Kept(bufmax, |log|, Accepted(r.options, room))
            && parser.opCount == Stored(bufmax, |log'|)
            && parser.err == !(r.ok && Fits(|r.options|, room))
            && (if !parser.err && Reported(argc, words, r) > 0
                then parser.nonopCount == Reported(argc, words, r) && parser.nonopVector == argv && parser.nonopStart == |r.front|
                else parser.nonopCount == old(parser.nonopCount) && parser.nonopVector == old(parser.nonopVector)
                     && parser.nonopStart == old(parser.nonopStart))
            && (argv != null ==> argv[..] == VectorAfter(gnu, ParserOf(table), old(argv[..]), words, room))
    ensures bufmax >= 0 ==> FillsUpTo(bufmax, log, Scan(gnu, ParserOf(table), old(WordsOf(argv, argc))).options, log')
  {
    hide Scan; hide Words; hide ParserOf; hide VectorAfter; hide ProperVector; hide Reported; hide Holds; hide Kept;
    hide Accepted; hide FillsUpTo;
    var store := new StoreOptionAction(parser, arrays, bufmax, log);
    var action := Storing(store);
    ghost var was, r := action.State(), Scan(gnu, ParserOf(table), WordsOf(argv, argc));
    var ok := Pass(gnu, table, argc, argv, action, was);
    assert was.seen + Accepted(r.options, was.room) == Accepted(r.options, was.room);
    parser.err := !ok;
    log' := store.log;
    KeptFills(bufmax, log, r.options);
  }

  // ---------------------------------------------------------------- what argc stands for

  /** `v` is a NULL-terminated vector of the words `words`. */
  ghost predicate Terminated(v: seq<Maybe<string>>, words: seq<string>) {
    |words| < |v| && v[..|words|] == Filled(words) && v[|words|].Nothing?
  }

  lemma {:induction false} TerminatedWords(v: seq<Maybe<string>>, words: seq<string>, argc: int)
    requires Terminated(v, words) && (argc < 0 || argc >= |words|)
    ensures Words(v, argc) == words
    decreases |words|
  {
    if words != [] {
      assert v[0] == v[..|words|][0] == Just(words[0]);
      assert v[1..][..|words| - 1] == v[..|words|][1..] == Filled(words[1..]);
      TerminatedWords(v[1..], words[1..], argc - 1);
    }
  }

  /** A failed pass, or one without non-options, leaves the count as it was. */
  function NonOptionCount(err: bool, before: int, reported: int): int {
    if !err && reported > 0 then reported else before
  }

  lemma {:induction false} TailInBack(gnu: bool, parse: WordParser, words: seq<string>)
    ensures |Scan(gnu, parse, words).tail| <= |Scan(gnu, parse, words).back|
  {
    if words != [] {
      if NonOption(words[0]) && gnu {
        TailInBack(gnu, parse, words[1..]);
      } else if OptionWord(words[0]) && parse(words[0], Next(words)).ok {
        TailInBack(gnu, parse, words[Used(parse, words)..]);
      }
    }
  }

  /**
   Passing argc as -1, as the exact number or as something larger makes no difference to the
   options, the vector and the outcome, which depend on the words alone. It makes none to the
   parser's count of non-options if and only if the pass fails, argc is not too large or the
   pass gets to the end. `room` is what the action has room for, `before` the count so far.
   */
  lemma ArgcMatters(gnu: bool, parse: WordParser, v: seq<Maybe<string>>, words: seq<string>, argc: int, room: int, before: int)
    requires Terminated(v, words) && (argc < 0 || argc >= |words|)
    ensures Words(v, argc) == Words(v, -1) == words
    ensures var r := Scan(gnu, parse, words);
            var err := !(r.ok && Fits(|r.options|, room));
            && Reported(-1, words, r) == |r.back|
            && (NonOptionCount(err, before, Reported(argc, words, r)) == NonOptionCount(err, before, Reported(-1, words, r))
                <==> err || argc <= |words| || Stop(gnu, parse, words) == |words|)
  {
    TerminatedWords(v, words, argc);
    TerminatedWords(v, words, -1);
    TailAtStop(gnu, parse, words);
    TailInBack(gnu, parse, words);
  }

  /** One non-option word, POSIX mode, argc one too large: two non-options are reported. */
  lemma TooLargeArgcCounts(parse: WordParser)
    ensures var words := ["file"]; Reported(2, words, Scan(false, parse, words)) == 2
  {
  }

  // ---------------------------------------------------------------- Stats, then Parser

  lemma WordsKept(v: seq<Maybe<string>>, argc: int, words: seq<string>, again: seq<string>)
    requires ProperVector(v, argc) && words == Words(v, argc) && |again| == |words|
    ensures Words(Filled(again) + v[|words|..], argc) == again
  {
    SplitVector(v, argc);
    FilledWords(again, v[|words|..], argc);
  }

  lemma {:induction false} FilledWords(words: seq<string>, beyond: seq<Maybe<string>>, argc: int)
    requires Bounded(words, beyond, argc)
    ensures Words(Filled(words) + beyond, argc) == words
    decreases |words|
  {
    var v := Filled(words) + beyond;
    if words != [] {
      assert v[1..] == Filled(words[1..]) + beyond;
      FilledWords(words[1..], beyond, argc - 1);
    }
  }

  lemma StillProper(v: seq<Maybe<string>>, w: seq<Maybe<string>>, argc: int)
    requires ProperVector(v, argc) && multiset(v) == multiset(w)
    ensures ProperVector(w, argc)
  {
    assert |v| == |multiset(v)| && |w| == |multiset(w)|;
    if !(0 <= argc <= |v|) {
      var i :| 0 <= i < |v| && v[i].Nothing?;
      assert Nothing in multiset(v);
      assert Nothing in multiset(w) && Nothing in w;
    }
  }

  /** The words that a pass leaves for the next one. */
  lemma LeavesWords(gnu: bool, parse: WordParser, v: seq<Maybe<string>>, argc: int, room: int)
    requires ProperVector(v, argc)
    ensures var after := VectorAfter(gnu, parse, v, Words(v, argc), room);
            ProperVector(after, argc) && Words(after, argc) == LeftWords(gnu, parse, Words(v, argc), room)
  {
    hide Left; hide Words;
    var words := Words(v, argc);
    PassPermutes(gnu, parse, v, argc, room);
    StillProper(v, VectorAfter(gnu, parse, v, words, room), argc);
    LeftPermutes(gnu, parse, words, room);
    WordsKept(v, argc, words, LeftWords(gnu, parse, words, room));
  }

  lemma LeavesNothing(gnu: bool, parse: WordParser, room: int)
    ensures LeftWords(gnu, parse, [], room) == []
  {
  }

  /** The words a counting pass leaves. */
  ghost function Recounted(gnu: bool, table: Table, words: seq<string>): seq<string> {
    LeftWords(gnu, ParserOf(table), words, INT_MAX - 1)
  }

  lemma PosixLeavesWords(table: Table, words: seq<string>)
    ensures Recounted(false, table, words) == words
  {
    LeftPermutes(false, ParserOf(table), words, INT_MAX - 1);
  }

  /** One slot of the buffer stays free in the parse that follows. */
  ghost predicate SentinelFree(gnu: bool, again: bool, table: Table, words: seq<string>) {
    var parse := ParserOf(table);
    |Scan(gnu, parse, words).options| < INT_MAX || Spoils(parse, RefusedAt(gnu, parse, words, INT_MAX - 1), again)
  }

  /**
   With steady checks the counted slots suffice for a second pass over what the first one left.
   One stays free if and only if there are fewer options than an int counts, or the option
   refused for that reason got a non-option between itself and its argument that it rejects,
   or the second pass is not in GNU mode and stops at such a non-option.
   */
  lemma SizedRight(gnu: bool, again: bool, table: Table, words: seq<string>)
    requires Steady(table.usage) && (again ==> gnu)
    ensures var r, s := Scan(gnu, ParserOf(table), words), Scan(again, ParserOf(table), Recounted(gnu, table, words));
            var size, log := Min(1 + |r.options|, INT_MAX), Accepted(s.options, INT_MAX);
            && (|s.options| <= size || INT_MAX <= size) && |log| <= size
            && (|log| < size <==> SentinelFree(gnu, again, table, words))
  {
    hide Scan; hide ParserOf; hide Steady; hide Left; hide Spoils; hide RefusedAt;
    var r, s := Scan(gnu, ParserOf(table), words), Scan(again, ParserOf(table), Recounted(gnu, table, words));
    AcceptedLength(s.options, INT_MAX);
    hide Accepted;
    if |r.options| < INT_MAX {
      LeftFits(gnu, ParserOf(table), words, INT_MAX - 1);
      SecondPass(gnu, again, table, words);
    } else {
      RefusedTwice(gnu, again, table, words, INT_MAX - 1);
    }
  }

  /** And it finds what the first one found. */
  lemma SameAgain(gnu: bool, again: bool, table: Table, words: seq<string>)
    requires Steady(table.usage) && (again ==> gnu) && |Scan(gnu, ParserOf(table), words).options| < INT_MAX
    ensures var r, s := Scan(gnu, ParserOf(table), words), Scan(again, ParserOf(table), Recounted(gnu, table, words));
            && Accepted(s.options, INT_MAX) == s.options && Fits(|s.options|, INT_MAX)
            && (r.ok ==> SameParse(s, r)) && (!r.ok && again == gnu ==> s.options == r.options && !s.ok)
  {
    hide Scan; hide ParserOf; hide Steady; hide Left;
    LeftFits(gnu, ParserOf(table), words, INT_MAX - 1);
    SecondPass(gnu, again, table, words);
  }

  // ---------------------------------------------------------------- more options than an int counts

  /** Flags in front of a vector add to its options and change nothing else. */
  lemma {:induction false} RepeatedBefore(gnu: bool, parse: WordParser, w: string, n: nat, rest: seq<string>, room: nat)
    requires OptionWord(w) && forall next :: Leaves(parse, w, next) && |parse(w, next).options| == 1
    ensures var words := seq(n, _ => w) + rest;
            && |Scan(gnu, parse, words).options| == n + |Scan(gnu, parse, rest).options|
            && (|Scan(gnu, parse, rest).options| > room ==> RefusedAt(gnu, parse, words, n + room) == RefusedAt(gnu, parse, rest, room))
  {
    hide Scan; hide RefusedAt;
    RepeatedCons(w, n, rest);
    if n > 0 {
      RepeatedBefore(gnu, parse, w, n - 1, rest, room);
      FlagBefore(gnu, parse, w, seq(n - 1, _ => w) + rest, n - 1 + room);
    }
  }

  lemma RepeatedCons(w: string, n: nat, rest: seq<string>)
    ensures seq(n, _ => w) + rest == if n == 0 then rest else [w] + (seq(n - 1, _ => w) + rest)
  {
  }

  lemma FlagBefore(gnu: bool, parse: WordParser, w: string, rest: seq<string>, room: nat)
    requires OptionWord(w) && forall next :: Leaves(parse, w, next) && |parse(w, next).options| == 1
    ensures |Scan(gnu, parse, [w] + rest).options| == 1 + |Scan(gnu, parse, rest).options|
    ensures |Scan(gnu, parse, rest).options| > room ==> RefusedAt(gnu, parse, [w] + rest, 1 + room) == RefusedAt(gnu, parse, rest, room)
  {
    var words := [w] + rest;
    assert words[1..] == rest;
    assert Leaves(parse, w, Next(words));
    ScanOption(gnu, parse, words);
    hide Scan;
  }

  /** A table with a flag `f`, and an option `x` that insists on the argument "arg". */
  function NarrowTable(): Table {
    Table([Descriptor(0, 0, "f", "", NoArg), Descriptor(1, 0, "x", "", RequiredArg((text: string) => text == "arg"))], false, 0)
  }

  lemma NarrowSteady()
    ensures Steady(NarrowTable().usage)
  {
    StockChecksSteady((text: string) => text == "arg");
  }

  lemma FlagWord(next: Maybe<string>)
    ensures Word(NarrowTable(), "-f", next) == WordResult([Parsed(0, 0, "f", Nothing)], false, true)
  {
    var usage := NarrowTable().usage;
    assert ShortLookup(usage, 'f') == 0 && "-f"[1..] == "f";
    assert Group(usage, "-f", 2, next) == WordResult([], false, true);
  }

  lemma NarrowWord(text: string)
    ensures Word(NarrowTable(), "-x", Just(text))
            == if text == "arg" then WordResult([Parsed(1, 1, "x", Just(text))], true, true) else WordResult([], false, false)
  {
    var usage := NarrowTable().usage;
    assert usage[0].shortopt == "f" && usage[1].shortopt == "x";
    assert ShortLookup(usage, 'x') == 1 && "-x"[1..] == "x";
  }

  lemma Flags(gnu: bool, n: nat, rest: seq<string>, room: nat)
    ensures var parse, words := ParserOf(NarrowTable()), seq(n, _ => "-f") + rest;
            && |Scan(gnu, parse, words).options| == n + |Scan(gnu, parse, rest).options|
            && (|Scan(gnu, parse, rest).options| > room ==> RefusedAt(gnu, parse, words, n + room) == RefusedAt(gnu, parse, rest, room))
  {
    hide Word;
    var parse := ParserOf(NarrowTable());
    forall next
      ensures Leaves(parse, "-f", next) && |parse("-f", next).options| == 1
    {
      FlagWord(next);
    }
    RepeatedBefore(gnu, parse, "-f", n, rest, room);
  }

  /** A flag given 2^31 - 1 times: the counted slots are all used, and none is left for the sentinel. */
  lemma SentinelCanBeUsed(gnu: bool, again: bool)
    requires again ==> gnu
    ensures Steady(NarrowTable().usage) && !SentinelFree(gnu, again, NarrowTable(), seq(INT_MAX - 1, _ => "-f") + ["-f"])
  {
    hide Word; hide SentinelFree;
    var parse := ParserOf(NarrowTable());
    NarrowSteady();
    FlagWord(Nothing);
    OneFlag(gnu, parse);
    Flags(gnu, INT_MAX - 1, ["-f"], 0);
    NotFree(gnu, again, NarrowTable(), seq(INT_MAX - 1, _ => "-f") + ["-f"]);
  }

  lemma OneFlag(gnu: bool, parse: WordParser)
    requires |parse("-f", Nothing).options| == 1 && parse("-f", Nothing).ok
    ensures |Scan(gnu, parse, ["-f"]).options| == 1 && RefusedAt(gnu, parse, ["-f"], 0).kept == []
  {
    ScanOption(gnu, parse, ["-f"]);
    ScanNothing(gnu, parse);
    assert ["-f"][1..] == [];
  }

  lemma NotFree(gnu: bool, again: bool, table: Table, words: seq<string>)
    requires |Scan(gnu, ParserOf(table), words).options| >= INT_MAX && RefusedAt(gnu, ParserOf(table), words, INT_MAX - 1).kept == []
    ensures !SentinelFree(gnu, again, table, words)
  {
  }

  /** As many options, the last of which is refused to the counting pass: moved away from its argument, it stops the second one early. */
  lemma SentinelCanStayFree(again: bool)
    ensures var words := seq(INT_MAX - 1, _ => "-f") + ["file", "-x", "arg"];
            && Steady(NarrowTable().usage) && |Scan(true, ParserOf(NarrowTable()), words).options| == INT_MAX
            && SentinelFree(true, again, NarrowTable(), words)
  {
    hide Word;
    var parse, rest := ParserOf(NarrowTable()), ["file", "-x", "arg"];
    NarrowSteady();
    NarrowWord("arg");
    NarrowWord("file");
    RefusedExample(parse);
    Flags(true, INT_MAX - 1, rest, 0);
    hide Scan; hide RefusedAt;
  }

  lemma RefusedExample(parse: WordParser)
    requires var m := parse("-x", Just("arg")); m.ok && m.took && |m.options| == 1
    ensures var rest := ["file", "-x", "arg"];
            |Scan(true, parse, rest).options| == 1 && RefusedAt(true, parse, rest, 0) == Refusal("-x", Just("arg"), 0, ["file"])
  {
    var rest, tail := ["file", "-x", "arg"], ["-x", "arg"];
    assert rest[1..] == tail && rest == ["file"] + tail && tail[2..] == [];
    ScanNonOption(parse, "file", tail);
    ScanOption(true, parse, tail);
    ScanNothing(true, parse);
    assert Next(tail) == Just("arg");
  }

  /**
   What a program does: count, allocate, parse. No step leaves its arrays, the sentinel slot
   stays free exactly as far as SentinelFree says, and the second pass finds what the first
   one counted, even if only that one was in GNU mode.
   */
  method CountAndParse(gnu: bool, again: bool, table: Table, argc: int, argv: Vector)
    returns (parser: Parser, arrays: OptionArrays, ghost log: seq<Parsed>)
    requires ProperArguments(argv, argc) && Steady(table.usage) && (again ==> gnu)
    modifies argv
    ensures fresh(arrays.options) && fresh(arrays.buffer) && Holds(arrays.Contents(), log) && parser.opCount == |log|
    ensures var words := old(WordsOf(argv, argc));
            && arrays.options.Length == OptionsMax(table.usage, 1)
            && arrays.buffer.Length == Min(1 + |Scan(gnu, ParserOf(table), words).options|, INT_MAX) && |log| <= arrays.buffer.Length
            && (|log| < arrays.buffer.Length <==> SentinelFree(gnu, again, table, words))
    ensures var words := old(WordsOf(argv, argc));
            var r, left := Scan(gnu, ParserOf(table), words), Recounted(gnu, table, words);
            var s := Scan(again, ParserOf(table), left);
            && log == Accepted(s.options, INT_MAX) && parser.err == !(s.ok && Fits(|s.options|, INT_MAX))
            && parser.nonopCount == NonOptionCount(parser.err, 0, Reported(argc, left, s))
            && (r.ok && |r.options| < INT_MAX ==> log == r.options && !parser.err && SameParse(s, r))
            && (!r.ok && |r.options| < INT_MAX && again == gnu ==> log == r.options && parser.err)
    ensures argv != null ==> multiset(argv[..]) == old(multiset(argv[..])) && (!gnu ==> argv[..] == old(argv[..]))
  {
    hide Scan; hide Words; hide ParserOf; hide ProperVector; hide Holds; hide Steady; hide VectorAfter; hide SentinelFree;
    hide Accepted; hide Reported; hide OptionsMax; hide NonOptionCount; hide Recounted;
    ghost var words := WordsOf(argv, argc);
    SizedRight(gnu, again, table, words);
    if |Scan(gnu, ParserOf(table), words).options| < INT_MAX {
      SameAgain(gnu, again, table, words);
    }
    var stats := Count(gnu, table, argc, argv);
    arrays := new OptionArrays(stats.optionsMax, stats.bufferMax);
    parser := new Parser();
    log := ParseMore(parser, arrays, again, table, argc, argv, []);
    NothingBefore(log);
  }

  method Count(gnu: bool, table: Table, argc: int, argv: Vector) returns (stats: Stats)
    requires ProperArguments(argv, argc)
    modifies argv
    ensures fresh(stats) && stats.optionsMax == OptionsMax(table.usage, 1)
    ensures stats.bufferMax == Min(1 + |Scan(gnu, ParserOf(table), old(WordsOf(argv, argc))).options|, INT_MAX)
    ensures ProperArguments(argv, argc) && WordsOf(argv, argc) == Recounted(gnu, table, old(WordsOf(argv, argc)))
    ensures argv != null ==> multiset(argv[..]) == old(multiset(argv[..])) && (!gnu ==> argv[..] == old(argv[..]))
  {
    hide Scan; hide Words; hide ParserOf; hide ProperVector; hide VectorAfter; hide OptionsMax; hide LeftWords;
    stats := new Stats();
    AddStats(stats, gnu, table, argc, argv);
    Counted(gnu, table, argc, if argv == null then [] else old(argv[..]), if argv == null then [] else argv[..], argv == null, INT_MAX - 1);
  }

  /** What counting has done to the vector. */
  lemma Counted(gnu: bool, table: Table, argc: int, v: seq<Maybe<string>>, after: seq<Maybe<string>>, none: bool, room: int)
    requires !none ==> ProperVector(v, argc) && after == VectorAfter(gnu, ParserOf(table), v, Words(v, argc), room)
    ensures !none ==> ProperVector(after, argc) && Words(after, argc) == LeftWords(gnu, ParserOf(table), Words(v, argc), room)
    ensures !none ==> multiset(after) == multiset(v) && (!gnu ==> after == v)
    ensures none ==> LeftWords(gnu, ParserOf(table), [], room) == []
  {
    hide VectorAfter; hide Words;
    if none {
      LeavesNothing(gnu, ParserOf(table), room);
    } else {
      LeavesWords(gnu, ParserOf(table), v, argc, room);
      PassPermutes(gnu, ParserOf(table), v, argc, room);
    }
  }

  /** Parsing into arrays that are "large enough" and hold the options `log`. */
  method ParseMore(parser: Parser, arrays: OptionArrays, gnu: bool, table: Table, argc: int, argv: Vector, ghost log: seq<Parsed>)
    returns (ghost log': seq<Parsed>)
    requires ProperArguments(argv, argc)
    requires arrays.options != arrays.buffer && argv != arrays.options as object && argv != arrays.buffer as object
    requires Holds(arrays.Contents(), log) && |log| < arrays.buffer.Length && |log| <= INT_MAX
    requires forall i :: 0 <= i < |table.usage| ==> table.usage[i].index < arrays.options.Length
    requires |log| + |Scan(gnu, ParserOf(table), WordsOf(argv, argc)).options| <= arrays.buffer.Length || INT_MAX <= arrays.buffer.Length
    modifies parser, arrays.options, arrays.buffer, argv
    ensures var words := old(WordsOf(argv, argc));
            var r, room := Scan(gnu, ParserOf(table), words), INT_MAX - |log|;
            && Holds(arrays.Contents(), log') && log' == log + Accepted(r.options, room)
            && parser.opCount == |log'| && parser.err == !(r.ok && Fits(|r.options|, room))
            && parser.nonopCount == NonOptionCount(parser.err, old(parser.nonopCount), Reported(argc, words, r))
    ensures argv != null ==> multiset(argv[..]) == old(multiset(argv[..])) && (!gnu ==> argv[..] == old(argv[..]))
  {
    hide Scan; hide Words; hide ParserOf; hide VectorAfter; hide ProperVector; hide Reported; hide Holds; hide Accepted;
    if argv != null {
      PassPermutes(gnu, ParserOf(table), argv[..], argc, INT_MAX - |log|);
    }
    log' := Parse(parser, arrays, -1, gnu, table, argc, argv, log);
  }

  // ---------------------------------------------------------------- two vectors

  /** A counting pass with room for all options leaves words that parse alike. */
  lemma SameWithRoom(gnu: bool, again: bool, table: Table, words: seq<string>, room: int)
    requires Steady(table.usage) && (again ==> gnu) && Fits(|Scan(gnu, ParserOf(table), words).options|, room)
    ensures var r, s := Scan(gnu, ParserOf(table), words), Scan(again, ParserOf(table), LeftWords(gnu, ParserOf(table), words, room));
            && s.options <= r.options && (r.ok ==> SameParse(s, r))
            && (!r.ok && again == gnu ==> s.options == r.options && !s.ok)
  {
    hide Scan; hide ParserOf; hide Steady; hide Left;
    LeftFits(gnu, ParserOf(table), words, room);
    SecondPass(gnu, again, table, words);
  }

  /** Counts one vector, and says what a parse of it will find. */
  method CountMore(stats: Stats, gnu: bool, ghost again: bool, table: Table, argc: int, argv: Vector)
    requires ProperArguments(argv, argc) && Steady(table.usage) && (again ==> gnu)
    requires stats.bufferMax + |Scan(gnu, ParserOf(table), WordsOf(argv, argc)).options| <= INT_MAX
    modifies stats, argv
    ensures ProperArguments(argv, argc) && stats.optionsMax == OptionsMax(table.usage, old(stats.optionsMax))
    ensures var r, s := Scan(gnu, ParserOf(table), old(WordsOf(argv, argc))), Scan(again, ParserOf(table), WordsOf(argv, argc));
            && stats.bufferMax == old(stats.bufferMax) + |r.options|
            && s.options <= r.options && (r.ok ==> SameParse(s, r))
            && (!r.ok && again == gnu ==> s.options == r.options && !s.ok)
    ensures argv != null ==> multiset(argv[..]) == old(multiset(argv[..])) && (!gnu ==> argv[..] == old(argv[..]))
  {
    hide Scan; hide Words; hide ParserOf; hide ProperVector; hide Steady; hide VectorAfter; hide OptionsMax; hide LeftWords;
    ghost var words, room := WordsOf(argv, argc), INT_MAX - stats.bufferMax;
    AddStats(stats, gnu, table, argc, argv);
    Counted(gnu, table, argc, if argv == null then [] else old(argv[..]), if argv == null then [] else argv[..], argv == null, room);
    SameWithRoom(gnu, again, table, words, room);
  }

  /** Sizing the options array again for the same table changes nothing. */
  lemma SizedTwice(usage: Usage, start: nat)
    ensures OptionsMax(usage, OptionsMax(usage, start)) == OptionsMax(usage, start)
  {
  }

  /** Parses two vectors one after the other into new arrays that have room for the options of both. */
  method ParseBoth(parser: Parser, arrays: OptionArrays, gnu: bool, table: Table, argc1: int, argv1: Vector, argc2: int, argv2: Vector)
    returns (ghost log1: seq<Parsed>, ghost log2: seq<Parsed>)
    requires ProperArguments(argv1, argc1) && ProperArguments(argv2, argc2) && (argv1 != argv2 || argv1 == null)
    requires arrays.options != arrays.buffer && Holds(arrays.Contents(), [])
    requires argv1 != arrays.options as object && argv1 != arrays.buffer as object
    requires argv2 != arrays.options as object && argv2 != arrays.buffer as object
    requires forall i :: 0 <= i < |table.usage| ==> table.usage[i].index < arrays.options.Length
    requires var n1, n2 := |Scan(gnu, ParserOf(table), WordsOf(argv1, argc1)).options|, |Scan(gnu, ParserOf(table), WordsOf(argv2, argc2)).options|;
             n1 + n2 < arrays.buffer.Length && n1 + n2 < INT_MAX
    modifies parser, arrays.options, arrays.buffer, argv1, argv2
    ensures Holds(arrays.Contents(), log1 + log2) && parser.opCount == |log1| + |log2|
    ensures var s2 := Scan(gnu, ParserOf(table), old(WordsOf(argv2, argc2)));
            log1 == Scan(gnu, ParserOf(table), old(WordsOf(argv1, argc1))).options && log2 == s2.options && parser.err == !s2.ok
    ensures argv1 != null ==> multiset(argv1[..]) == old(multiset(argv1[..])) && (!gnu ==> argv1[..] == old(argv1[..]))
    ensures argv2 != null ==> multiset(argv2[..]) == old(multiset(argv2[..])) && (!gnu ==> argv2[..] == old(argv2[..]))
  {
    hide Scan; hide Words; hide ParserOf; hide ProperVector; hide Holds; hide Reported; hide NonOptionCount; hide Accepted;
    log1 := ParseMore(parser, arrays, gnu, table, argc1, argv1, []);
    AcceptsAll(Scan(gnu, ParserOf(table), old(WordsOf(argv1, argc1))).options, INT_MAX);
    NothingBefore(log1);
    log2 := Scan(gnu, ParserOf(table), WordsOf(argv2, argc2)).options;
    AcceptsAll(log2, INT_MAX - |log1|);
    ghost var log := ParseMore(parser, arrays, gnu, table, argc2, argv2, log1);
  }

  /**
   Two vectors, say default options and then the real ones, counted into the same Stats and
   parsed into the same arrays. No step leaves the arrays, which end up with the options of
   the first vector and then those of the second, and the sentinel slot stays free.
   */
  method CountAndParseBoth(gnu: bool, again: bool, table: Table, argc1: int, argv1: Vector, argc2: int, argv2: Vector)
    returns (parser: Parser, arrays: OptionArrays, ghost log1: seq<Parsed>, ghost log2: seq<Parsed>)
    requires ProperArguments(argv1, argc1) && ProperArguments(argv2, argc2) && Steady(table.usage) && (again ==> gnu)
    requires argv1 != argv2 || argv1 == null
    requires |Scan(gnu, ParserOf(table), WordsOf(argv1, argc1)).options| + |Scan(gnu, ParserOf(table), WordsOf(argv2, argc2)).options| < INT_MAX
    modifies argv1, argv2
    ensures fresh(arrays.options) && fresh(arrays.buffer) && Holds(arrays.Contents(), log1 + log2)
    ensures parser.opCount == |log1| + |log2| < arrays.buffer.Length
    ensures var r1, r2 := Scan(gnu, ParserOf(table), old(WordsOf(argv1, argc1))), Scan(gnu, ParserOf(table), old(WordsOf(argv2, argc2)));
            && arrays.options.Length == OptionsMax(table.usage, 1) && arrays.buffer.Length == 1 + |r1.options| + |r2.options|
            && log1 <= r1.options && log2 <= r2.options
            && (r1.ok || again == gnu ==> log1 == r1.options) && (r2.ok || again == gnu ==> log2 == r2.options && parser.err == !r2.ok)
    ensures argv1 != null ==> multiset(argv1[..]) == old(multiset(argv1[..])) && (!gnu ==> argv1[..] == old(argv1[..]))
    ensures argv2 != null ==> multiset(argv2[..]) == old(multiset(argv2[..])) && (!gnu ==> argv2[..] == old(argv2[..]))
  {
    hide Scan; hide Words; hide ParserOf; hide ProperVector; hide Holds; hide Steady; hide OptionsMax;
    var stats := new Stats();
    CountMore(stats, gnu, again, table, argc1, argv1);
    CountMore(stats, gnu, again, table, argc2, argv2);
    SizedTwice(table.usage, 1);
    arrays := new OptionArrays(stats.optionsMax, stats.bufferMax);
    parser := new Parser();
    log1, log2 := ParseBoth(parser, arrays, again, table, argc1, argv1, argc2, argv2);
  }
}
