/**
 Different spellings of the same options: a group of short options may be split, and an
 argument may be attached or separate. Rewriting one such word anywhere the pass gets to
 leaves the parse as it was.
 */
module Rewriting {
  import opened Common
  import opened OptionSyntax
  import opened WordSyntax
  import opened ArgPass
  import opened Reordering

  // ---------------------------------------------------------------- the same parse

  /** What a program sees of an option: not the characters that happen to follow its name. */
  function Show(o: Parsed): (shown: Parsed)
    ensures shown.desc == o.desc && shown.index == o.index && shown.arg == o.arg && shown.name <= o.name
    ensures o.name != "" ==> shown.name != ""
  {
    if o.name == "" then o else o.(name := o.name[..NameLength(o.name)])
  }

  ghost predicate SameOptions(s: seq<Parsed>, t: seq<Parsed>) {
    |s| == |t| && forall i :: 0 <= i < |s| ==> Show(s[i]) == Show(t[i])
  }

  ghost predicate Equivalent(r: ScanResult, s: ScanResult) {
    r.ok == s.ok && SameOptions(r.options, s.options) && (r.ok ==> r.back == s.back)
  }

  // ---------------------------------------------------------------- rewriting in context

  /** Whether the pass gets to a word does not depend on the word. */
  lemma {:induction false} ReachesEither(gnu: bool, parse: WordParser, before: seq<string>, x: seq<string>, y: seq<string>)
    requires Coherent(parse) && StandsStill(parse) && x != [] && y != []
    ensures Reaches(gnu, parse, before + x, |before|) <==> Reaches(gnu, parse, before + y, |before|)
    decreases |before|
  {
    if before != [] {
      BehindHead(before, x, 1);
      BehindHead(before, y, 1);
      ReachesEither(gnu, parse, before[1..], x, y);
      if OptionWord(before[0]) {
        OptionReachesEither(gnu, parse, before, x, y);
      }
    }
  }

  lemma BehindHead<T>(before: seq<T>, x: seq<T>, n: nat)
    requires n <= |before|
    ensures (before + x)[n..] == before[n..] + x && (n > 0 ==> (before + x)[0] == before[0])
  {
  }

  lemma OptionReachesEither(gnu: bool, parse: WordParser, before: seq<string>, x: seq<string>, y: seq<string>)
    requires Coherent(parse) && StandsStill(parse) && x != [] && y != [] && before != [] && OptionWord(before[0])
    ensures Reaches(gnu, parse, before + x, |before|) <==> Reaches(gnu, parse, before + y, |before|)
    decreases |before|, 0
  {
    var m, n := Used(parse, before + x), Used(parse, before + y);
    SameUse(parse, before, x, y);
    SameUse(parse, before, y, x);
    if m <= |before| {
      BehindHead(before, x, m);
      BehindHead(before, y, m);
      ReachesEither(gnu, parse, before[m..], x, y);
    }
  }

  lemma SameUse(parse: WordParser, before: seq<string>, x: seq<string>, y: seq<string>)
    requires Coherent(parse) && StandsStill(parse) && x != [] && y != [] && before != [] && OptionWord(before[0])
    ensures parse(before[0], Next(before + x)).ok && Used(parse, before + x) <= |before| ==>
              parse(before[0], Next(before + y)).ok && Used(parse, before + y) == Used(parse, before + x)
  {
    if parse(before[0], Next(before + x)).ok && Used(parse, before + x) <= |before| {
      SameHead(parse, before, x, y);
    }
  }

  lemma {:induction false} InContext(gnu: bool, parse: WordParser, before: seq<string>, x: seq<string>, y: seq<string>)
    requires Coherent(parse) && StandsStill(parse)
    requires x != [] && y != []
    requires Reaches(gnu, parse, before + x, |before|)
    requires Equivalent(Scan(gnu, parse, x), Scan(gnu, parse, y))
    ensures Equivalent(Scan(gnu, parse, before + x), Scan(gnu, parse, before + y))
    decreases |before|
  {
    var wx, wy := before + x, before + y;
    if before == [] {
      assert wx == x && wy == y;
    } else if NonOption(wx[0]) {
      assert wx[1..] == before[1..] + x && wy[1..] == before[1..] + y;
      InContext(gnu, parse, before[1..], x, y);
    } else {
      OptionInContext(gnu, parse, before, x, y);
    }
  }

  lemma OptionInContext(gnu: bool, parse: WordParser, before: seq<string>, x: seq<string>, y: seq<string>)
    requires Coherent(parse) && StandsStill(parse)
    requires x != [] && y != []
    requires before != [] && OptionWord(before[0]) && Reaches(gnu, parse, before + x, |before|)
    requires Equivalent(Scan(gnu, parse, x), Scan(gnu, parse, y))
    ensures Equivalent(Scan(gnu, parse, before + x), Scan(gnu, parse, before + y))
    decreases |before|, 0
  {
    hide Scan;
    var wx, wy := before + x, before + y;
    var n := Used(parse, wx);
    assert wx[n..] == before[n..] + x && wy[n..] == before[n..] + y;
    InContext(gnu, parse, before[n..], x, y);
    SameHead(parse, before, x, y);
    ScanOption(gnu, parse, wx);
    ScanOption(gnu, parse, wy);
    SamePrepend(parse(before[0], Next(wx)).options, Scan(gnu, parse, wx[n..]).options, Scan(gnu, parse, wy[n..]).options);
  }

  lemma SamePrepend(s: seq<Parsed>, t: seq<Parsed>, u: seq<Parsed>)
    requires SameOptions(t, u)
    ensures SameOptions(s + t, s + u)
  {
  }

  lemma SameHead(parse: WordParser, before: seq<string>, x: seq<string>, y: seq<string>)
    requires Coherent(parse) && StandsStill(parse)
    requires before != [] && x != [] && y != [] && OptionWord(before[0])
    requires parse(before[0], Next(before + x)).ok && Used(parse, before + x) <= |before|
    ensures parse(before[0], Next(before + y)) == parse(before[0], Next(before + x))
    ensures Used(parse, before + y) == Used(parse, before + x)
  {
    var w, a, b := before[0], Next(before + x), Next(before + y);
    if |before| == 1 {
      assert Compare(w, a, a) && Compare(w, a, b);
    } else {
      assert a == b;
    }
  }

  // ---------------------------------------------------------------- splitting a group of short options

  /** A short option character that never takes an argument. */
  ghost predicate Flag(usage: Usage, c: char) {
    var d := if ShortLookup(usage, c) < |usage| then ShortLookup(usage, c) else DummyLookup(usage);
    d < |usage| ==> forall name: string, arg: Maybe<string> :: usage[d].check(name, arg) == ArgNone
  }

  lemma {:induction false} GroupOfSuffix(usage: Usage, w: string, p: nat, v: string, q: nat, next: Maybe<string>)
    requires p <= |w| && q <= |v| && w[p..] == v[q..]
    ensures Group(usage, w, p, next) == Group(usage, v, q, next)
    decreases |w| - p
  {
    assert |w| - p == |w[p..]| == |v| - q;
    if p < |w| {
      assert w[p] == w[p..][0] == v[q..][0] == v[q];
      assert w[p + 1..] == w[p..][1..] == v[q..][1..] == v[q + 1..];
      GroupOfSuffix(usage, w, p + 1, v, q + 1, next);
    }
  }

  /** Checking a flag gives at most an option without argument, whatever follows the character. */
  function FlagOptions(usage: Usage, c: char, name: string): seq<Parsed> {
    var d := if ShortLookup(usage, c) < |usage| then ShortLookup(usage, c) else DummyLookup(usage);
    if d == |usage| then [] else [Parsed(d, usage[d].index, name, Nothing)]
  }

  lemma FlagGroup(usage: Usage, w: string, p: nat, next: Maybe<string>)
    requires p < |w| && Flag(usage, w[p])
    ensures Group(usage, w, p, next) == Group(usage, w, p + 1, next).Prepend(FlagOptions(usage, w[p], w[p..]))
  {
  }

  lemma ShortWord(table: Table, w: string, next: Maybe<string>)
    requires !table.singleMinus && |w| >= 2 && w[0] == '-' && w[1] != '-'
    ensures OptionWord(w) && Word(table, w, next) == Group(table.usage, w, 1, next)
  {
  }

  lemma FlagVisible(usage: Usage, c: char, rest: string, more: seq<Parsed>)
    requires c != '-'
    ensures SameOptions(FlagOptions(usage, c, [c] + rest) + more, FlagOptions(usage, c, [c]) + more)
  {
    assert ([c] + rest)[..1] == [c] == [c][..1];
  }

  lemma SplitGroup(usage: Usage, c: char, rest: string, next: Maybe<string>)
    requires Flag(usage, c)
    ensures Group(usage, ['-', c] + rest, 1, next) == Group(usage, ['-'] + rest, 1, next).Prepend(FlagOptions(usage, c, [c] + rest))
  {
    hide Group; hide Flag; hide FlagOptions;
    var w, t := ['-', c] + rest, ['-'] + rest;
    assert w[2..] == rest == t[1..] && w[1..] == [c] + rest;
    FlagGroup(usage, w, 1, next);
    GroupOfSuffix(usage, w, 2, t, 1, next);
  }

  /** `-Xrest` parses like `-X` and `-rest` together when X takes no argument. */
  lemma SplitWord(table: Table, c: char, rest: string, next: Maybe<string>)
    requires Splittable(table, c, rest)
    ensures var whole, flag, tail := Word(table, ['-', c] + rest, next), Word(table, ['-', c], Just(['-'] + rest)), Word(table, ['-'] + rest, next);
            && flag.ok && !flag.took
            && whole.ok == tail.ok && whole.took == tail.took
            && SameOptions(whole.options, flag.options + tail.options)
  {
    var usage := table.usage;
    var f, t := ['-', c], ['-'] + rest;
    ShortWord(table, ['-', c] + rest, next);
    ShortWord(table, f, Just(t));
    ShortWord(table, t, next);
    SplitGroup(usage, c, rest, next);
    FlagGroup(usage, f, 1, Just(t));
    assert f[1..] == [c] && FlagOptions(usage, c, [c]) + [] == FlagOptions(usage, c, [c]);
    FlagVisible(usage, c, rest, Group(usage, t, 1, next).options);
  }

  ghost predicate Splittable(table: Table, c: char, rest: string) {
    !table.singleMinus && c != '-' && rest != "" && rest[0] != '-' && Flag(table.usage, c)
  }

  lemma SplitHere(gnu: bool, table: Table, c: char, rest: string, after: seq<string>)
    requires Splittable(table, c, rest)
    ensures var parse := ParserOf(table);
            Equivalent(Scan(gnu, parse, [['-', c] + rest] + after), Scan(gnu, parse, [['-', c], ['-'] + rest] + after))
  {
    var parse := ParserOf(table);
    var w, f, t := ['-', c] + rest, ['-', c], ['-'] + rest;
    var x, y, z := [w] + after, [f, t] + after, [t] + after;
    assert Next(x) == Next(z) && Next(y) == Just(t);
    SplitWord(table, c, rest, Next(x));
    assert x[1..] == z[1..] == after && y[1..] == z;
    ScanSplit(gnu, parse, x, y, z);
  }

  lemma ScanSplit(gnu: bool, parse: WordParser, x: seq<string>, y: seq<string>, z: seq<string>)
    requires x != [] && y != [] && z != [] && x[1..] == z[1..] && y[1..] == z && Next(x) == Next(z)
    requires OptionWord(x[0]) && OptionWord(y[0]) && OptionWord(z[0])
    requires Leaves(parse, y[0], Next(y))
    requires parse(x[0], Next(x)).ok == parse(z[0], Next(z)).ok && parse(x[0], Next(x)).took == parse(z[0], Next(z)).took
    requires SameOptions(parse(x[0], Next(x)).options, parse(y[0], Next(y)).options + parse(z[0], Next(z)).options)
    ensures Equivalent(Scan(gnu, parse, x), Scan(gnu, parse, y))
  {
    var ox, oy, oz := parse(x[0], Next(x)).options, parse(y[0], Next(y)).options, parse(z[0], Next(z)).options;
    ReplaceHead(gnu, parse, x, z);
    ScanOption(gnu, parse, y);
    var rest := if parse(x[0], Next(x)).ok then Scan(gnu, parse, x[Used(parse, x)..]).options else [];
    SameAppend(ox, oy, oz, rest);
  }

  /** Two vectors that differ in their first word only, when these parse alike but for their options. */
  lemma ReplaceHead(gnu: bool, parse: WordParser, x: seq<string>, z: seq<string>)
    requires x != [] && z != [] && x[1..] == z[1..] && Next(x) == Next(z)
    requires OptionWord(x[0]) && OptionWord(z[0])
    requires parse(x[0], Next(x)).ok == parse(z[0], Next(z)).ok && parse(x[0], Next(x)).took == parse(z[0], Next(z)).took
    ensures var rest := if parse(x[0], Next(x)).ok then Scan(gnu, parse, x[Used(parse, x)..]).options else [];
            var r, s := Scan(gnu, parse, x), Scan(gnu, parse, z);
            && r.ok == s.ok && (r.ok ==> r.back == s.back)
            && r.options == parse(x[0], Next(x)).options + rest && s.options == parse(z[0], Next(z)).options + rest
  {
    if parse(x[0], Next(x)).ok {
      var n := Used(parse, x);
      assert x[n..] == x[1..][n - 1..] == z[1..][n - 1..] == z[n..];
      ScanOption(gnu, parse, x);
      ScanOption(gnu, parse, z);
    }
  }

  lemma SameAppend(s: seq<Parsed>, t: seq<Parsed>, u: seq<Parsed>, rest: seq<Parsed>)
    requires SameOptions(s, t + u)
    ensures SameOptions(s + rest, t + (u + rest))
  {
    assert t + (u + rest) == t + u + rest;
  }

  lemma SteadyReaches(gnu: bool, table: Table, before: seq<string>, x: seq<string>, y: seq<string>)
    requires Steady(table.usage) && x != [] && y != []
    ensures var parse := ParserOf(table); Reaches(gnu, parse, before + x, |before|) <==> Reaches(gnu, parse, before + y, |before|)
  {
    ParserCoherent(table);
    SteadyStandsStill(table);
    ReachesEither(gnu, ParserOf(table), before, x, y);
  }

  /** Replacing words anywhere the pass gets to keeps the parse if it does so there. */
  lemma Replacing(gnu: bool, table: Table, before: seq<string>, x: seq<string>, y: seq<string>)
    requires Steady(table.usage) && x != [] && y != []
    requires var parse := ParserOf(table); Reaches(gnu, parse, before + x, |before|) || Reaches(gnu, parse, before + y, |before|)
    requires Equivalent(Scan(gnu, ParserOf(table), x), Scan(gnu, ParserOf(table), y))
    ensures Equivalent(Scan(gnu, ParserOf(table), before + x), Scan(gnu, ParserOf(table), before + y))
  {
    ParserCoherent(table);
    SteadyStandsStill(table);
    SteadyReaches(gnu, table, before, x, y);
    InContext(gnu, ParserOf(table), before, x, y);
  }

  /** Splitting a flag off a group of short options, or joining it to one, anywhere keeps the parse. */
  lemma SplittingKeepsTheParse(gnu: bool, table: Table, before: seq<string>, c: char, rest: string, after: seq<string>)
    requires Steady(table.usage) && Splittable(table, c, rest)
    requires var parse := ParserOf(table);
             || Reaches(gnu, parse, before + ([['-', c] + rest] + after), |before|)
             || Reaches(gnu, parse, before + ([['-', c], ['-'] + rest] + after), |before|)
    ensures var parse := ParserOf(table);
            Equivalent(Scan(gnu, parse, before + ([['-', c] + rest] + after)),
                       Scan(gnu, parse, before + ([['-', c], ['-'] + rest] + after)))
  {
    hide Scan; hide Reaches;
    SplitHere(gnu, table, c, rest, after);
    Replacing(gnu, table, before, [['-', c] + rest] + after, [['-', c], ['-'] + rest] + after);
  }

  // ---------------------------------------------------------------- attached and separate arguments

  /** The check needs an argument and judges it by its text alone. */
  ghost predicate Insists(check: CheckArg) {
    && (forall name: string, text: string :: check(name, Just(text)) == ArgOk || check(name, Just(text)) == ArgIllegal)
    && (forall m: string, n: string, text: string :: check(m, Just(text)) == check(n, Just(text)))
  }

  lemma RequiredInsists(p: string -> bool)
    ensures Insists(RequiredArg(p))
  {
  }

  /** The option stored for index `idx` insists on an argument. */
  ghost predicate TakesArgument(usage: Usage, idx: nat) {
    var d := if idx < |usage| then idx else DummyLookup(usage);
    d < |usage| && Insists(usage[d].check)
  }

  ghost predicate Spelling(parse: WordParser, joined: string, word: string, text: string) {
    && OptionWord(joined) && OptionWord(word)
    && (forall next :: parse(joined, next).ok == parse(word, Just(text)).ok && !parse(joined, next).took
                       && SameOptions(parse(joined, next).options, parse(word, Just(text)).options))
    && (parse(word, Just(text)).ok ==> parse(word, Just(text)).took)
  }

  lemma ShortSpelling(table: Table, c: char, text: string)
    requires !table.singleMinus && c != '-' && text != "" && TakesArgument(table.usage, ShortLookup(table.usage, c))
    ensures Spelling(ParserOf(table), ['-', c] + text, ['-', c], text)
  {
    var usage := table.usage;
    var joined, word := ['-', c] + text, ['-', c];
    assert joined[2..] == text && joined[1..] == [c] + text && word[1..] == [c];
    assert ([c] + text)[..1] == [c] == [c][..1];
    var d := if ShortLookup(usage, c) < |usage| then ShortLookup(usage, c) else DummyLookup(usage);
    assert usage[d].check([c], Just(text)) == usage[d].check([c] + text, Just(text));
  }

  lemma SeparateHere(gnu: bool, parse: WordParser, joined: string, word: string, text: string, after: seq<string>)
    requires Spelling(parse, joined, word, text)
    ensures Equivalent(Scan(gnu, parse, [joined] + after), Scan(gnu, parse, [word, text] + after))
  {
    var x, y := [joined] + after, [word, text] + after;
    assert x[1..] == after && y[2..] == after && Next(y) == Just(text);
    if parse(word, Just(text)).ok {
      ScanOption(gnu, parse, x);
      ScanOption(gnu, parse, y);
    }
  }

  /** `-Xfoo` and `-X foo` are interchangeable wherever the pass reads one of them as an option that requires an argument. */
  lemma ShortArgumentSeparates(gnu: bool, table: Table, before: seq<string>, c: char, text: string, after: seq<string>)
    requires Steady(table.usage) && !table.singleMinus && c != '-' && text != "" && TakesArgument(table.usage, ShortLookup(table.usage, c))
    requires var parse := ParserOf(table);
             || Reaches(gnu, parse, before + ([['-', c] + text] + after), |before|)
             || Reaches(gnu, parse, before + ([['-', c], text] + after), |before|)
    ensures var parse := ParserOf(table);
            Equivalent(Scan(gnu, parse, before + ([['-', c] + text] + after)), Scan(gnu, parse, before + ([['-', c], text] + after)))
  {
    ShortSpelling(table, c, text);
    hide Scan; hide Reaches; hide Spelling;
    SeparateHere(gnu, ParserOf(table), ['-', c] + text, ['-', c], text, after);
    Replacing(gnu, table, before, [['-', c] + text] + after, [['-', c], text] + after);
  }

  // ---------------------------------------------------------------- a group of any number of options

  /** Every character of the group is a flag that can stand in a word of its own. */
  ghost predicate Flags(table: Table, flags: string) {
    !table.singleMinus && forall i :: 0 <= i < |flags| ==> flags[i] != '-' && Flag(table.usage, flags[i])
  }

  /** Each flag as a word of its own. */
  function Singles(flags: string): seq<string> {
    if flags == "" then [] else [['-', flags[0]]] + Singles(flags[1..])
  }

  lemma EquivalentThrough(r: ScanResult, s: ScanResult, t: ScanResult)
    requires Equivalent(r, s) && Equivalent(s, t)
    ensures Equivalent(r, t)
  {
  }

  /** A flag before two vectors that parse alike. */
  lemma FlagFirst(gnu: bool, table: Table, c: char, x: seq<string>, y: seq<string>)
    requires !table.singleMinus && c != '-' && Flag(table.usage, c)
    requires Equivalent(Scan(gnu, ParserOf(table), x), Scan(gnu, ParserOf(table), y))
    ensures Equivalent(Scan(gnu, ParserOf(table), [['-', c]] + x), Scan(gnu, ParserOf(table), [['-', c]] + y))
  {
    hide Flag; hide Word; hide Group; hide Scan;
    var parse, f := ParserOf(table), ['-', c];
    var fx, fy := [f] + x, [f] + y;
    FlagAlone(table, c, Next(fx));
    FlagAlone(table, c, Next(fy));
    assert fx[1..] == x && fy[1..] == y;
    ScanOption(gnu, parse, fx);
    ScanOption(gnu, parse, fy);
    SamePrepend(FlagOptions(table.usage, c, [c]), Scan(gnu, parse, x).options, Scan(gnu, parse, y).options);
  }

  lemma FlagAlone(table: Table, c: char, next: Maybe<string>)
    requires !table.singleMinus && c != '-' && Flag(table.usage, c)
    ensures OptionWord(['-', c]) && Word(table, ['-', c], next) == WordResult(FlagOptions(table.usage, c, [c]), false, true)
  {
    var w := ['-', c];
    ShortWord(table, w, next);
    FlagGroup(table.usage, w, 1, next);
    assert w[1..] == [c];
    NothingBefore(FlagOptions(table.usage, c, [c]));
  }

  lemma {:induction false} FlagsFirst(gnu: bool, table: Table, flags: string, x: seq<string>, y: seq<string>)
    requires Flags(table, flags)
    requires Equivalent(Scan(gnu, ParserOf(table), x), Scan(gnu, ParserOf(table), y))
    ensures Equivalent(Scan(gnu, ParserOf(table), Singles(flags) + x), Scan(gnu, ParserOf(table), Singles(flags) + y))
  {
    hide Flag; hide Equivalent; hide Scan;
    if flags == "" {
      NothingBefore(x);
      NothingBefore(y);
    } else {
      FlagsFirst(gnu, table, flags[1..], x, y);
      FlagFirst(gnu, table, flags[0], Singles(flags[1..]) + x, Singles(flags[1..]) + y);
      Regroup([['-', flags[0]]], Singles(flags[1..]), x);
      Regroup([['-', flags[0]]], Singles(flags[1..]), y);
    }
  }

  lemma {:induction false} GroupHere(gnu: bool, table: Table, flags: string, tail: string, after: seq<string>)
    requires Flags(table, flags) && tail != "" && tail[0] != '-'
    ensures var parse := ParserOf(table);
            Equivalent(Scan(gnu, parse, [['-'] + flags + tail] + after), Scan(gnu, parse, Singles(flags) + ([['-'] + tail] + after)))
  {
    hide Flag; hide Equivalent; hide Scan;
    var parse, last := ParserOf(table), [['-'] + tail] + after;
    if flags == "" {
      assert ['-'] + flags + tail == ['-'] + tail;
      NothingBefore(last);
      ScanAsItself(gnu, table, last);
    } else {
      var c, rest := flags[0], flags[1..] + tail;
      assert ['-'] + flags + tail == ['-', c] + rest && ['-'] + flags[1..] + tail == ['-'] + rest;
      SplitHere(gnu, table, c, rest, after);
      GroupHere(gnu, table, flags[1..], tail, after);
      FlagFirst(gnu, table, c, [['-'] + rest] + after, Singles(flags[1..]) + last);
      Regroup([['-', c]], Singles(flags[1..]), last);
      assert [['-', c], ['-'] + rest] + after == [['-', c]] + ([['-'] + rest] + after);
      EquivalentThrough(Scan(gnu, parse, [['-', c] + rest] + after), Scan(gnu, parse, [['-', c], ['-'] + rest] + after),
                        Scan(gnu, parse, Singles(flags) + last));
    }
  }

  lemma ScanAsItself(gnu: bool, table: Table, words: seq<string>)
    ensures Equivalent(Scan(gnu, ParserOf(table), words), Scan(gnu, ParserOf(table), words))
  {
    hide Scan;
  }

  /** `-ABCfoo` is `-A -B -C -foo` when A, B and C are flags, wherever the pass gets to one of the two. */
  lemma GroupSplits(gnu: bool, table: Table, before: seq<string>, flags: string, tail: string, after: seq<string>)
    requires Steady(table.usage) && Flags(table, flags) && tail != "" && tail[0] != '-'
    requires var parse := ParserOf(table);
             || Reaches(gnu, parse, before + ([['-'] + flags + tail] + after), |before|)
             || Reaches(gnu, parse, before + (Singles(flags) + ([['-'] + tail] + after)), |before|)
    ensures var parse := ParserOf(table);
            Equivalent(Scan(gnu, parse, before + ([['-'] + flags + tail] + after)),
                       Scan(gnu, parse, before + (Singles(flags) + ([['-'] + tail] + after))))
  {
    hide Scan; hide Reaches; hide Equivalent; hide Flag;
    GroupHere(gnu, table, flags, tail, after);
    Replacing(gnu, table, before, [['-'] + flags + tail] + after, Singles(flags) + ([['-'] + tail] + after));
  }

  /** The last option of a group may take an argument: `-ABCXfoo` and `-ABCX foo` are `-A -B -C -X foo`. */
  lemma GroupedArgument(gnu: bool, table: Table, before: seq<string>, flags: string, c: char, text: string, after: seq<string>)
    requires Steady(table.usage) && Flags(table, flags) && c != '-' && TakesArgument(table.usage, ShortLookup(table.usage, c))
    requires var parse := ParserOf(table);
             || Reaches(gnu, parse, before + (Singles(flags) + ([['-', c], text] + after)), |before|)
             || Reaches(gnu, parse, before + ([['-'] + flags + [c], text] + after), |before|)
             || Reaches(gnu, parse, before + ([['-'] + flags + ([c] + text)] + after), |before|)
    ensures var parse := ParserOf(table);
            var apart := Scan(gnu, parse, before + (Singles(flags) + ([['-', c], text] + after)));
            && Equivalent(Scan(gnu, parse, before + ([['-'] + flags + [c], text] + after)), apart)
            && (text != "" ==> Equivalent(Scan(gnu, parse, before + ([['-'] + flags + ([c] + text)] + after)), apart))
  {
    hide Scan; hide Reaches; hide Equivalent; hide Flag; hide TakesArgument;
    var apart := Singles(flags) + ([['-', c], text] + after);
    SteadyReaches(gnu, table, before, [['-'] + flags + [c], text] + after, apart);
    SteadyReaches(gnu, table, before, [['-'] + flags + ([c] + text)] + after, apart);
    LastSeparate(gnu, table, flags, c, text, after);
    Replacing(gnu, table, before, [['-'] + flags + [c], text] + after, apart);
    if text != "" {
      LastAttached(gnu, table, flags, c, text, after);
      Replacing(gnu, table, before, [['-'] + flags + ([c] + text)] + after, apart);
    }
  }

  lemma LastSeparate(gnu: bool, table: Table, flags: string, c: char, text: string, after: seq<string>)
    requires Flags(table, flags) && c != '-'
    ensures var parse := ParserOf(table);
            Equivalent(Scan(gnu, parse, [['-'] + flags + [c], text] + after), Scan(gnu, parse, Singles(flags) + ([['-', c], text] + after)))
  {
    hide Scan; hide Equivalent; hide Flag;
    GroupHere(gnu, table, flags, [c], [text] + after);
    Regroup([['-'] + flags + [c]], [text], after);
    assert [['-'] + flags + [c]] + [text] == [['-'] + flags + [c], text];
    assert ['-'] + [c] == ['-', c] && [['-', c]] + ([text] + after) == [['-', c], text] + after;
  }

  lemma LastAttached(gnu: bool, table: Table, flags: string, c: char, text: string, after: seq<string>)
    requires Flags(table, flags) && c != '-' && text != "" && TakesArgument(table.usage, ShortLookup(table.usage, c))
    ensures var parse := ParserOf(table);
            Equivalent(Scan(gnu, parse, [['-'] + flags + ([c] + text)] + after), Scan(gnu, parse, Singles(flags) + ([['-', c], text] + after)))
  {
    ShortSpelling(table, c, text);
    hide Scan; hide Equivalent; hide Flag; hide Spelling; hide TakesArgument;
    var parse := ParserOf(table);
    GroupHere(gnu, table, flags, [c] + text, after);
    assert ['-'] + ([c] + text) == ['-', c] + text;
    SeparateHere(gnu, parse, ['-', c] + text, ['-', c], text, after);
    FlagsFirst(gnu, table, flags, [['-', c] + text] + after, [['-', c], text] + after);
    EquivalentThrough(Scan(gnu, parse, [['-'] + flags + ([c] + text)] + after),
                      Scan(gnu, parse, Singles(flags) + ([['-', c] + text] + after)),
                      Scan(gnu, parse, Singles(flags) + ([['-', c], text] + after)));
  }
}
