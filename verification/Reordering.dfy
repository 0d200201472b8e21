/**
 A GNU-mode pass reorders the vector. The documentation promises that the gnu flag then has no
 further effect on it. Here is exactly for which usage tables that holds.
 */
module Reordering {
  import opened Common
  import opened OptionSyntax
  import opened WordSyntax
  import opened ArgPass

  // ---------------------------------------------------------------- the exact condition

  /** Some vector beginning with `u` parses. */
  ghost predicate Parseable(parse: WordParser, u: string) {
    exists rest: seq<string> :: Scan(true, parse, [u] + rest).ok
  }

  /** An option word that leaves a missing or non-option candidate alone leaves every non-option alone. */
  ghost predicate IndifferentToNonOptions(parse: WordParser) {
    forall w: string, a: Maybe<string>, b: string {:trigger Compare(w, a, Just(b))} ::
      OptionWord(w) && (a.Just? ==> NonOption(a.value)) && NonOption(b) && Leaves(parse, w, a) ==> Leaves(parse, w, Just(b))
  }

  /** An option word that leaves a non-option alone leaves alone every word that can start an option. */
  ghost predicate IndifferentToOptions(parse: WordParser) {
    forall w: string, a: string, u: string {:trigger Compare(w, Just(a), Just(u))} ::
      OptionWord(w) && NonOption(a) && Leaves(parse, w, Just(a)) && !NonOption(u) && Parseable(parse, u)
      ==> Leaves(parse, w, Just(u))
  }

  ghost predicate Indifferent(parse: WordParser) {
    IndifferentToNonOptions(parse) && IndifferentToOptions(parse)
  }

  // ---------------------------------------------------------------- passing over the reordered vector

  ghost predicate AllNonOptions(words: seq<string>) {
    forall i :: 0 <= i < |words| ==> NonOption(words[i])
  }

  ghost predicate SameParse(r: ScanResult, s: ScanResult) {
    r.options == s.options && r.front == s.front && r.back == s.back && r.ok == s.ok
  }

  lemma ScanNothing(gnu: bool, parse: WordParser)
    ensures Scan(gnu, parse, []) == ScanResult([], [], [], true, [])
  {
  }

  lemma ScanNonOption(parse: WordParser, w: string, rest: seq<string>)
    requires NonOption(w)
    ensures var r := Scan(true, parse, rest); Scan(true, parse, [w] + rest) == r.(back := [w] + r.back)
  {
    assert ([w] + rest)[1..] == rest;
  }

  lemma {:induction false} ScanNonOptions(parse: WordParser, pre: seq<string>, rest: seq<string>)
    requires AllNonOptions(pre)
    ensures var r := Scan(true, parse, rest);
            Scan(true, parse, pre + rest) == r.(back := pre + r.back)
  {
    hide Scan;
    var r := Scan(true, parse, rest);
    if pre == [] {
      assert pre + rest == rest && pre + r.back == r.back;
    } else {
      ScanNonOptions(parse, pre[1..], rest);
      ScanNonOption(parse, pre[0], pre[1..] + rest);
      assert pre + rest == [pre[0]] + (pre[1..] + rest);
      assert pre + r.back == [pre[0]] + (pre[1..] + r.back);
    }
  }

  /** The first word of the front starts an option that parses in its place. */
  lemma {:induction false} FrontHead(parse: WordParser, words: seq<string>)
    requires Scan(true, parse, words).ok && Scan(true, parse, words).front != []
    ensures var u := Scan(true, parse, words).front[0];
            && !NonOption(u) && Parseable(parse, u)
            && (words != [] && !NonOption(words[0]) ==> u == words[0])
  {
    if NonOption(words[0]) {
      FrontHead(parse, words[1..]);
    } else {
      assert [words[0]] + words[1..] == words;
    }
  }

  /** With no front, every word is a non-option. */
  lemma {:induction false} NoFront(parse: WordParser, words: seq<string>)
    requires Scan(true, parse, words).ok && Scan(true, parse, words).front == []
    ensures Scan(true, parse, words).back == words && AllNonOptions(words)
  {
    if words != [] {
      NoFront(parse, words[1..]);
    }
  }

  lemma LeavesAgree(parse: WordParser, w: string, a: Maybe<string>, b: Maybe<string>)
    requires Coherent(parse) && Leaves(parse, w, a) && Leaves(parse, w, b)
    ensures parse(w, a) == parse(w, b)
  {
    assert Compare(w, a, b);
  }

  lemma StillLeaves(parse: WordParser, w: string, rest: seq<string>, b: string)
    requires Indifferent(parse) && OptionWord(w) && Leaves(parse, w, Next([w] + rest))
    requires rest != [] && !NonOption(rest[0]) ==> b == rest[0]
    requires NonOption(b) || (rest != [] && Parseable(parse, b))
    ensures Leaves(parse, w, Just(b))
  {
    var a := if rest == [] then Nothing else Just(rest[0]);
    assert Next([w] + rest) == a && Compare(w, a, Just(b));
  }

  /** An option word still leaves its new neighbour alone after what follows it was reordered. */
  lemma NeighbourLeft(parse: WordParser, w: string, rest: seq<string>, pre: seq<string>)
    requires Coherent(parse) && Indifferent(parse) && AllNonOptions(pre)
    requires OptionWord(w) && Leaves(parse, w, Next([w] + rest)) && Scan(true, parse, rest).ok
    ensures var r := Scan(true, parse, rest);
            parse(w, Next([w] + (r.front + pre + r.back))) == parse(w, Next([w] + rest))
  {
    ScanNothing(true, parse);
    hide Scan;
    var r := Scan(true, parse, rest);
    var moved := r.front + pre + r.back;
    if moved != [] {
      if r.front != [] {
        FrontHead(parse, rest);
        assert moved[0] == r.front[0];
      } else {
        NoFront(parse, rest);
        assert moved == pre + rest;
      }
      StillLeaves(parse, w, rest, moved[0]);
      assert Next([w] + moved) == Just(moved[0]);
      LeavesAgree(parse, w, Next([w] + rest), Just(moved[0]));
    } else {
      ScanPermutes(true, parse, rest);
      assert rest == [];
    }
  }

  lemma {:induction false} Rescan(gnu: bool, parse: WordParser, words: seq<string>, pre: seq<string>)
    requires Coherent(parse) && Indifferent(parse) && AllNonOptions(pre) && Scan(true, parse, words).ok
    ensures var r := Scan(true, parse, words);
            SameParse(Scan(gnu, parse, r.front + pre + r.back), r.(back := pre + r.back))
    decreases |words|
  {
    if words == [] {
      RescanBase(gnu, parse, pre);
    } else if NonOption(words[0]) {
      Rescan(gnu, parse, words[1..], pre + [words[0]]);
      var r := Scan(true, parse, words[1..]);
      KeptBack(r.front, pre, words[0], r.back);
    } else if words[0] == TERMINATOR {
      var v := [TERMINATOR] + pre + words[1..];
      assert v[1..] == pre + words[1..];
    } else {
      RescanOption(gnu, parse, words, pre);
    }
  }

  lemma RescanBase(gnu: bool, parse: WordParser, pre: seq<string>)
    requires AllNonOptions(pre)
    ensures SameParse(Scan(gnu, parse, [] + pre + []), ScanResult([], [], pre + [], true, []))
  {
    assert [] + pre + [] == pre + [];
    if gnu {
      ScanNonOptions(parse, pre, []);
    }
  }

  /** A non-option kept back joins the end of those kept back before it. */
  lemma KeptBack(front: seq<string>, pre: seq<string>, w: string, back: seq<string>)
    ensures front + (pre + [w]) + back == front + pre + ([w] + back)
    ensures pre + [w] + back == pre + ([w] + back)
  {
    Regroup(pre, [w], back);
    Regroup(front, pre + [w], back);
    Regroup(front, pre, [w] + back);
  }

  lemma RescanOption(gnu: bool, parse: WordParser, words: seq<string>, pre: seq<string>)
    requires Coherent(parse) && Indifferent(parse) && AllNonOptions(pre) && Scan(true, parse, words).ok
    requires words != [] && OptionWord(words[0])
    ensures var r := Scan(true, parse, words);
            SameParse(Scan(gnu, parse, r.front + pre + r.back), r.(back := pre + r.back))
    decreases |words|, 0
  {
    hide Scan;
    ScanOptionHead(parse, words);
    hide Coherent; hide Indifferent; hide AllNonOptions;
    var n := Used(parse, words);
    var r1 := Scan(true, parse, words[n..]);
    var v1 := r1.front + pre + r1.back;
    Rescan(gnu, parse, words[n..], pre);
    FrontGroups(words[..n], r1.front, pre, r1.back);
    HeadStays(words, n, v1);
    FirstReadsSame(parse, words, pre);
    ScanOption(gnu, parse, words[..n] + v1);
  }

  lemma ScanOptionHead(parse: WordParser, words: seq<string>)
    requires words != [] && OptionWord(words[0]) && Scan(true, parse, words).ok
    ensures parse(words[0], Next(words)).ok
    ensures var n := Used(parse, words);
            var r := Scan(true, parse, words[n..]);
            Scan(true, parse, words) == r.(options := parse(words[0], Next(words)).options + r.options, front := words[..n] + r.front)
  {
    ScanOption(true, parse, words);
  }

  lemma HeadStays<T>(words: seq<T>, n: nat, rest: seq<T>)
    requires 1 <= n <= |words|
    ensures var v := words[..n] + rest; v[n..] == rest && v[..n] == words[..n] && v[0] == words[0] && (n > 1 ==> v[1] == words[1])
  {
  }

  /** The first option word reads the same in front of what a pass made of the rest. */
  lemma FirstReadsSame(parse: WordParser, words: seq<string>, pre: seq<string>)
    requires Coherent(parse) && Indifferent(parse) && AllNonOptions(pre)
    requires words != [] && OptionWord(words[0]) && parse(words[0], Next(words)).ok && Scan(true, parse, words[Used(parse, words)..]).ok
    ensures var n := Used(parse, words);
            var r := Scan(true, parse, words[n..]);
            var v := words[..n] + (r.front + pre + r.back);
            parse(v[0], Next(v)) == parse(words[0], Next(words)) && Used(parse, v) == n
  {
    hide Scan;
    var n := Used(parse, words);
    var r := Scan(true, parse, words[n..]);
    HeadStays(words, n, r.front + pre + r.back);
    assert Compare(words[0], Nothing, Next(words));
    if n == 1 {
      assert words == [words[0]] + words[1..] && words[..1] == [words[0]];
      NeighbourLeft(parse, words[0], words[1..], pre);
    }
  }

  // ---------------------------------------------------------------- the documented promise

  /** After a successful GNU-mode pass a POSIX-mode pass finds the same options, arguments and non-options. */
  ghost predicate ReorderingIsFinal(parse: WordParser) {
    forall words: seq<string> {:trigger Scan(true, parse, words)} ::
      var r := Scan(true, parse, words);
      r.ok ==> SameParse(Scan(false, parse, r.front + r.back), r)
  }

  /** Two passes of which one takes the word that the other left alone do not give the same options. */
  lemma HeadsDiffer(gnu: bool, parse: WordParser, w: string, s: seq<string>, t: seq<string>)
    requires Coherent(parse) && OptionWord(w)
    requires Leaves(parse, w, Next([w] + s)) && !Leaves(parse, w, Next([w] + t))
    requires Scan(gnu, parse, [w] + t).ok
    ensures Scan(gnu, parse, [w] + t).options != Scan(true, parse, [w] + s).options
  {
    var x, y := [w] + s, [w] + t;
    var k := |parse(w, Next(x)).options| - 1;
    assert Compare(w, Next(x), Next(y));
    assert Diverge(parse(w, Next(x)).options, parse(w, Next(y)).options);
    assert Scan(true, parse, x).options[k] == parse(w, Next(x)).options[k];
    assert Scan(gnu, parse, y).options[k] == parse(w, Next(y)).options[k];
  }

  /** A word that leaves `a` but not the non-option `b` gives a vector whose reordering changes the parse. */
  lemma NonOptionRefutes(parse: WordParser, w: string, a: Maybe<string>, b: string)
    requires Coherent(parse) && OptionWord(w) && (a.Just? ==> NonOption(a.value)) && NonOption(b)
    requires Leaves(parse, w, a) && !Leaves(parse, w, Just(b))
    ensures !ReorderingIsFinal(parse)
  {
    ScanNothing(true, parse);
    hide Scan;
    var rest := if a.Just? then [a.value] else [];
    ScanNonOptions(parse, rest, []);
    assert rest + [] == rest && Next([w] + rest) == a;
    ScanLeavingHead(parse, w, rest);
    var words := [b] + ([w] + rest);
    ScanNonOptions(parse, [b], [w] + rest);
    var r := Scan(true, parse, words);
    assert r.front + r.back == [w] + ([b] + rest);
    if Scan(false, parse, [w] + ([b] + rest)).ok {
      HeadsDiffer(false, parse, w, rest, [b] + rest);
    }
  }

  lemma ScanLeavingHead(parse: WordParser, w: string, rest: seq<string>)
    requires OptionWord(w) && Leaves(parse, w, Next([w] + rest))
    ensures var r := Scan(true, parse, rest);
            Scan(true, parse, [w] + rest) == r.(options := parse(w, Next([w] + rest)).options + r.options, front := [w] + r.front)
  {
    assert ([w] + rest)[1..] == rest && ([w] + rest)[..1] == [w];
  }

  /** So does one that leaves the non-option `a` but not the option word or terminator `u`. */
  lemma OptionRefutes(parse: WordParser, w: string, a: string, u: string)
    requires Coherent(parse) && OptionWord(w) && NonOption(a) && !NonOption(u) && Parseable(parse, u)
    requires Leaves(parse, w, Just(a)) && !Leaves(parse, w, Just(u))
    ensures !ReorderingIsFinal(parse)
  {
    hide Scan;
    var rest: seq<string> :| Scan(true, parse, [u] + rest).ok;
    var tail := [u] + rest;
    OptionMoves(parse, w, a, tail);
    var r := Scan(true, parse, [w] + ([a] + tail));
    var v := Scan(true, parse, tail).front + r.back;
    assert Next([w] + ([a] + tail)) == Just(a) && Next([w] + v) == Just(u);
    if Scan(false, parse, [w] + v).ok {
      HeadsDiffer(false, parse, w, [a] + tail, v);
    }
  }

  lemma OptionMoves(parse: WordParser, w: string, a: string, tail: seq<string>)
    requires OptionWord(w) && NonOption(a) && Leaves(parse, w, Just(a))
    requires tail != [] && !NonOption(tail[0]) && Scan(true, parse, tail).ok
    ensures var r := Scan(true, parse, [w] + ([a] + tail));
            var v := Scan(true, parse, tail).front + r.back;
            r.ok && v != [] && v[0] == tail[0] && r.front + r.back == [w] + v
  {
    var r1 := Scan(true, parse, tail);
    var rest := [a] + tail;
    ScanNonOptions(parse, [a], tail);
    assert Next([w] + rest) == Just(a);
    ScanLeavingHead(parse, w, rest);
    FrontOfOption(parse, tail);
    var r := Scan(true, parse, [w] + rest);
    assert r.front == [w] + r1.front;
    Regroup([w], r1.front, r.back);
  }

  lemma FrontOfOption(parse: WordParser, words: seq<string>)
    requires words != [] && !NonOption(words[0]) && Scan(true, parse, words).ok
    ensures var front := Scan(true, parse, words).front; front != [] && front[0] == words[0]
  {
  }

  lemma IndifferenceSuffices(parse: WordParser)
    requires Coherent(parse) && Indifferent(parse)
    ensures ReorderingIsFinal(parse)
  {
    forall words: seq<string> | Scan(true, parse, words).ok
      ensures var r := Scan(true, parse, words); SameParse(Scan(false, parse, r.front + r.back), r)
    {
      RescanAll(parse, words);
    }
  }

  lemma RescanAll(parse: WordParser, words: seq<string>)
    requires Coherent(parse) && Indifferent(parse) && Scan(true, parse, words).ok
    ensures var r := Scan(true, parse, words); SameParse(Scan(false, parse, r.front + r.back), r)
  {
    var r := Scan(true, parse, words);
    Rescan(false, parse, words, []);
    assert r.front + [] == r.front && [] + r.back == r.back;
  }

  lemma IndifferenceNeeded(parse: WordParser)
    requires Coherent(parse) && ReorderingIsFinal(parse)
    ensures Indifferent(parse)
  {
    forall w: string, a: Maybe<string>, b: string |
      OptionWord(w) && (a.Just? ==> NonOption(a.value)) && NonOption(b) && Leaves(parse, w, a)
      ensures Leaves(parse, w, Just(b))
    {
      if !Leaves(parse, w, Just(b)) {
        NonOptionRefutes(parse, w, a, b);
      }
    }
    forall w: string, a: string, u: string |
      OptionWord(w) && NonOption(a) && Leaves(parse, w, Just(a)) && !NonOption(u) && Parseable(parse, u)
      ensures Leaves(parse, w, Just(u))
    {
      if !Leaves(parse, w, Just(u)) {
        OptionRefutes(parse, w, a, u);
      }
    }
  }

  /** The promise holds for a usage table if and only if its option words are indifferent to what they leave alone. */
  lemma ReorderingIsFinalIff(table: Table)
    ensures ReorderingIsFinal(ParserOf(table)) <==> Indifferent(ParserOf(table))
  {
    var parse := ParserOf(table);
    ParserCoherent(table);
    if Indifferent(parse) {
      IndifferenceSuffices(parse);
    } else if ReorderingIsFinal(parse) {
      IndifferenceNeeded(parse);
    }
  }

  // ---------------------------------------------------------------- tables for which it holds

  /** The check passes the option without this candidate becoming its argument. */
  ghost predicate Declines(check: CheckArg, name: string, arg: Maybe<string>) {
    var status := check(name, arg);
    status == ArgNone || status == ArgIgnore || (status == ArgOk && arg.Nothing?)
  }

  /** A check that declines one separate (or missing) argument declines them all. */
  ghost predicate SteadyCheck(check: CheckArg) {
    forall name: string, a: Maybe<string>, b: Maybe<string> ::
      Bare(name) && Declines(check, name, a) ==> Declines(check, name, b)
  }

  ghost predicate Steady(usage: Usage) {
    forall i :: 0 <= i < |usage| ==> SteadyCheck(usage[i].check)
  }

  ghost predicate StandsStill(parse: WordParser) {
    forall w: string, a: Maybe<string>, b: Maybe<string> {:trigger Compare(w, a, b)} ::
      OptionWord(w) && Leaves(parse, w, a) ==> Leaves(parse, w, b)
  }

  /** The two stock checks and every check of the kind the discovery server uses are steady. */
  lemma StockChecksSteady(p: string -> bool)
    ensures SteadyCheck(NoArg) && SteadyCheck(OptionalArg) && SteadyCheck(RequiredArg(p))
  {
  }

  lemma CheckSteady(usage: Usage, idx: nat, name: string, a: Maybe<string>, b: Maybe<string>)
    requires Steady(usage) && Bare(name)
    requires var s := Check(usage, idx, name, Detached(a)); s.Performed? ==> !(s.accepted && a.Just?)
    requires !Check(usage, idx, name, Detached(a)).Fatal?
    ensures var s := Check(usage, idx, name, Detached(b)); !s.Fatal? && (s.Performed? ==> !(s.accepted && b.Just?))
  {
    var d := if idx < |usage| then idx else DummyLookup(usage);
    if d < |usage| {
      assert SteadyCheck(usage[d].check);
      assert Declines(usage[d].check, name, Detached(a).Arg());
      assert Declines(usage[d].check, name, Detached(b).Arg());
    }
  }

  lemma {:induction false} GroupSteady(usage: Usage, w: string, p: nat, a: Maybe<string>, b: Maybe<string>)
    requires Steady(usage) && p <= |w|
    requires Group(usage, w, p, a).ok && !Group(usage, w, p, a).took
    ensures Group(usage, w, p, b).ok && !Group(usage, w, p, b).took
    decreases |w| - p
  {
    if p + 1 == |w| {
      assert Bare(w[p..]);
      CheckSteady(usage, ShortLookup(usage, w[p]), w[p..], a, b);
    } else if p < |w| {
      var step := Check(usage, ShortLookup(usage, w[p]), w[p..], Attached(w[p + 1..]));
      if step.Dropped? || (step.Performed? && !step.accepted) {
        GroupSteady(usage, w, p + 1, a, b);
      }
    }
  }

  lemma LongSteady(usage: Usage, idx: nat, w: string, from: nat, a: Maybe<string>, b: Maybe<string>)
    requires Steady(usage) && 1 <= from <= |w| && w[0] == '-' && (from == 2 ==> w[1] == '-') && from <= 2
    requires var m := LongWord(usage, idx, w, LongCandidate(w[from..], a)); m.ok && !m.took
    ensures var m := LongWord(usage, idx, w, LongCandidate(w[from..], b)); m.ok && !m.took
  {
    var name := w[from..];
    var eq := FindFrom(name, 0, c => c == '=');
    if eq == |name| {
      forall i | 1 <= i < |w|
        ensures w[i] != '='
      {
        assert i >= from ==> w[i] == name[i - from];
      }
      assert Bare(w);
      CheckSteady(usage, idx, w, a, b);
    }
  }

  lemma SteadyStandsStill(table: Table)
    requires Steady(table.usage)
    ensures StandsStill(ParserOf(table))
  {
    var parse := ParserOf(table);
    var usage := table.usage;
    forall w: string, a: Maybe<string>, b: Maybe<string> | OptionWord(w) && Leaves(parse, w, a)
      ensures Leaves(parse, w, b)
    {
      if w[1] == '-' {
        LongSteady(usage, LongLookup(usage, w[2..], table.minAbbr), w, 2, a, b);
      } else if table.singleMinus && LongLookup(usage, w[1..], table.minAbbr) < |usage| {
        LongSteady(usage, LongLookup(usage, w[1..], table.minAbbr), w, 1, a, b);
      } else {
        GroupSteady(usage, w, 1, a, b);
      }
    }
  }

  lemma StandsStillIndifferent(parse: WordParser)
    requires StandsStill(parse)
    ensures Indifferent(parse)
  {
    forall w: string, a: Maybe<string>, b: string {:trigger Leaves(parse, w, a), Leaves(parse, w, Just(b))}
      | OptionWord(w) && Leaves(parse, w, a)
      ensures Leaves(parse, w, Just(b))
    {
      assert Compare(w, a, Just(b));
    }
    forall w: string, a: string, u: string {:trigger Leaves(parse, w, Just(a)), Leaves(parse, w, Just(u))}
      | OptionWord(w) && Leaves(parse, w, Just(a))
      ensures Leaves(parse, w, Just(u))
    {
      assert Compare(w, Just(a), Just(u));
    }
  }

  /** With steady checks the documented promise holds. */
  lemma SteadyIsFinal(table: Table)
    requires Steady(table.usage)
    ensures ReorderingIsFinal(ParserOf(table))
  {
    SteadyStandsStill(table);
    StandsStillIndifferent(ParserOf(table));
    ReorderingIsFinalIff(table);
  }

  /** A table with one option, whose argument is optional but accepted even when it is separate. */
  function GreedyTable(): Table {
    Table([Descriptor(0, 0, "x", "", (name: string, arg: Maybe<string>) => if arg.Just? then ArgOk else ArgIgnore)], false, 0)
  }

  lemma GreedyWord(next: Maybe<string>)
    ensures Word(GreedyTable(), "-x", next) == WordResult([Parsed(0, 0, "x", next)], next.Just?, true)
  {
    var usage := GreedyTable().usage;
    assert ShortLookup(usage, 'x') == 0 && "-x"[1..] == "x";
    assert Group(usage, "-x", 2, next) == WordResult([], false, true);
  }

  /** With that table the promise fails: `file -x` becomes `-x file`, in which the option has an argument and nothing is left. */
  lemma ReorderingCanChangeTheParse()
    ensures var parse := ParserOf(GreedyTable());
            && Scan(true, parse, ["file", "-x"]) == ScanResult([Parsed(0, 0, "x", Nothing)], ["-x"], ["file"], true, [])
            && Scan(false, parse, ["-x", "file"]) == ScanResult([Parsed(0, 0, "x", Just("file"))], ["-x", "file"], [], true, [])
            && !ReorderingIsFinal(parse)
  {
    hide Word;
    var parse := ParserOf(GreedyTable());
    GreedyWord(Nothing);
    GreedyWord(Just("file"));
    ScanNothing(true, parse);
    ScanNothing(false, parse);
    assert ["file", "-x"][1..] == ["-x"] && ["-x"][1..] == [] && ["-x"][..1] == ["-x"];
    assert ["-x", "file"][2..] == [] && ["-x", "file"][..2] == ["-x", "file"];
    ScanOption(true, parse, ["-x"]);
    ScanOption(false, parse, ["-x", "file"]);
    ScanNonOption(parse, "file", ["-x"]);
    assert ["file"] + ["-x"] == ["file", "-x"];
    assert ["-x"] + ["file"] == ["-x", "file"];
  }

  // ---------------------------------------------------------------- the second pass is never longer

  lemma {:induction false} RescanFailing(gnu: bool, parse: WordParser, words: seq<string>, pre: seq<string>)
    requires Coherent(parse) && StandsStill(parse) && AllNonOptions(pre) && !Scan(true, parse, words).ok
    ensures var r := Scan(true, parse, words);
            var s := Scan(gnu, parse, r.front + pre + r.back);
            s.options <= r.options && (gnu ==> s.options == r.options && !s.ok)
    decreases |words|
  {
    var r := Scan(true, parse, words);
    var v := r.front + pre + r.back;
    if NonOption(words[0]) {
      var r1 := Scan(true, parse, words[1..]);
      RescanFailing(gnu, parse, words[1..], pre + [words[0]]);
      assert r1.front + (pre + [words[0]]) + r1.back == v;
    } else if !parse(words[0], Next(words)).ok {
      assert v == pre + words;
      if gnu {
        ScanNonOptions(parse, pre, words);
      } else if pre == [] {
        assert v == words;
      }
    } else {
      RescanFailingOption(gnu, parse, words, pre);
    }
  }

  lemma RescanFailingOption(gnu: bool, parse: WordParser, words: seq<string>, pre: seq<string>)
    requires Coherent(parse) && StandsStill(parse) && AllNonOptions(pre) && !Scan(true, parse, words).ok
    requires words != [] && OptionWord(words[0]) && parse(words[0], Next(words)).ok
    ensures var r := Scan(true, parse, words);
            var s := Scan(gnu, parse, r.front + pre + r.back);
            s.options <= r.options && (gnu ==> s.options == r.options && !s.ok)
    decreases |words|, 0
  {
    hide Scan;
    var n := Used(parse, words);
    ScanOption(true, parse, words);
    var r, r1 := Scan(true, parse, words), Scan(true, parse, words[n..]);
    var v, v1 := r.front + pre + r.back, r1.front + pre + r1.back;
    RescanFailing(gnu, parse, words[n..], pre);
    assert v == words[..n] + v1;
    assert v[n..] == v1;
    if n == 1 {
      assert Compare(words[0], Nothing, Next(words)) && Compare(words[0], Next(words), Next(v));
    }
    var first := parse(words[0], Next(words));
    assert parse(v[0], Next(v)) == first;
    ScanOption(gnu, parse, v);
    assert Scan(gnu, parse, v).options == first.options + Scan(gnu, parse, v1).options;
  }

  /**
   A second pass over what a first pass left behind: after a successful one it parses the same;
   after one that aborted it performs no more options, and the same ones in the same mode.
   */
  lemma SecondPass(gnu: bool, again: bool, table: Table, words: seq<string>)
    requires Steady(table.usage) && (again ==> gnu)
    ensures var parse := ParserOf(table);
            var r := Scan(gnu, parse, words);
            var s := Scan(again, parse, r.front + r.back);
            && s.options <= r.options && (r.ok ==> SameParse(s, r))
            && (!r.ok && again == gnu ==> s.options == r.options && !s.ok)
  {
    var parse := ParserOf(table);
    var r := Scan(gnu, parse, words);
    ParserCoherent(table);
    SteadyStandsStill(table);
    hide Scan; hide ParserOf;
    assert r.front + [] == r.front;
    if !gnu {
      PosixKeepsOrder(parse, words);
    } else if r.ok {
      StandsStillIndifferent(parse);
      Rescan(again, parse, words, []);
      assert [] + r.back == r.back;
    } else {
      RescanFailing(again, parse, words, []);
    }
  }

  // ---------------------------------------------------------------- a second pass after a refused option

  /** The option word at which an action with so much room refuses: what follows it, the room left there, and the non-options kept back. */
  datatype Refusal = Refusal(word: string, next: Maybe<string>, room: nat, kept: seq<string>)

  function RefusedAt(gnu: bool, parse: WordParser, words: seq<string>, room: nat): Refusal
    requires |Scan(gnu, parse, words).options| > room
  {
    if NonOption(words[0]) then
      var f := RefusedAt(gnu, parse, words[1..], room);
      f.(kept := [words[0]] + f.kept)
    else
      var w := parse(words[0], Next(words));
      if |w.options| > room then Refusal(words[0], Next(words), room, [])
      else RefusedAt(gnu, parse, words[Used(parse, words)..], room - |w.options|)
  }

  /** The refused option is the one that takes the following word. */
  ghost predicate RefusedTaking(parse: WordParser, f: Refusal) {
    parse(f.word, f.next).took && |parse(f.word, f.next).options| == f.room + 1
  }

  /**
   A non-option has come between the words: either the refused option was moved away from its
   argument and rejects that non-option, or a second pass in POSIX mode stops there.
   */
  ghost predicate Spoils(parse: WordParser, f: Refusal, again: bool) {
    f.kept != [] && if RefusedTaking(parse, f) then !parse(f.word, Just(f.kept[0])).ok else !again
  }

  function LeftWords(gnu: bool, parse: WordParser, words: seq<string>, room: int): seq<string> {
    var h := Left(gnu, parse, words, room);
    h.front + h.back
  }

  lemma RefusedHere(again: bool, parse: WordParser, words: seq<string>, pre: seq<string>, room: nat)
    requires Coherent(parse) && Even(parse) && StandsStill(parse) && AllNonOptions(pre)
    requires words != [] && OptionWord(words[0]) && |parse(words[0], Next(words)).options| > room
    requires |Scan(true, parse, words).options| > room
    ensures var h := Left(true, parse, words, room);
            |Scan(again, parse, h.front + pre + h.back).options| <= room <==> Spoils(parse, Refusal(words[0], Next(words), room, pre), again)
  {
    hide Scan;
    LeftOption(true, parse, words, room);
    hide Left;
    var w, f := parse(words[0], Next(words)), Refusal(words[0], Next(words), room, pre);
    if pre == [] {
      NothingBetween(words);
      FirstWordCounts(again, parse, words);
    } else if RefusedTaking(parse, f) {
      RefusedMoved(again, parse, words, pre);
    } else {
      assert [] + pre + words == pre + words;
      if again {
        ScanNonOptions(parse, pre, words);
      } else {
        StopsAtOnce(parse, pre + words);
      }
    }
  }

  lemma NothingBetween(words: seq<string>)
    requires words != []
    ensures [] + [] + words == words && [words[0]] + [] + words[1..] == words
  {
  }

  lemma StopsAtOnce(parse: WordParser, words: seq<string>)
    requires words != [] && NonOption(words[0])
    ensures Scan(false, parse, words).options == []
  {
  }

  lemma FirstWordCounts(gnu: bool, parse: WordParser, words: seq<string>)
    requires words != [] && OptionWord(words[0])
    ensures |Scan(gnu, parse, words).options| >= |parse(words[0], Next(words)).options|
    ensures !parse(words[0], Next(words)).ok ==> Scan(gnu, parse, words).options == parse(words[0], Next(words)).options
  {
  }

  /** A refused option that took its argument, moved in front of a non-option. */
  lemma RefusedMoved(again: bool, parse: WordParser, words: seq<string>, pre: seq<string>)
    requires Coherent(parse) && Even(parse) && StandsStill(parse) && pre != []
    requires words != [] && OptionWord(words[0]) && parse(words[0], Next(words)).took
    ensures var k, v := |parse(words[0], Next(words)).options|, [words[0]] + pre + words[1..];
            if parse(words[0], Just(pre[0])).ok then |Scan(again, parse, v).options| >= k else |Scan(again, parse, v).options| + 1 == k
  {
    hide Scan;
    var w, a, b := words[0], Next(words), Just(pre[0]);
    var v := [w] + pre + words[1..];
    assert v[0] == w && Next(v) == b;
    assert Compare(w, a, b) && Compare(w, b, a);
    FirstWordCounts(again, parse, v);
  }

  lemma {:induction false} RefusedAgain(again: bool, parse: WordParser, words: seq<string>, pre: seq<string>, room: nat)
    requires Coherent(parse) && Even(parse) && StandsStill(parse) && AllNonOptions(pre)
    requires |Scan(true, parse, words).options| > room
    ensures var h, f := Left(true, parse, words, room), RefusedAt(true, parse, words, room);
            |Scan(again, parse, h.front + pre + h.back).options| <= room <==> Spoils(parse, f.(kept := pre + f.kept), again)
    decreases |words|
  {
    if NonOption(words[0]) {
      RefusedAgain(again, parse, words[1..], pre + [words[0]], room);
      LeftNonOption(parse, words, room);
      var h1, f1 := Left(true, parse, words[1..], room), RefusedAt(true, parse, words[1..], room);
      KeptBack(h1.front, pre, words[0], h1.back);
      Regroup(pre, [words[0]], f1.kept);
    } else {
      var w := parse(words[0], Next(words));
      if |w.options| > room {
        RefusedHere(again, parse, words, pre, room);
        assert pre + [] == pre;
      } else {
        RefusedLater(again, parse, words, pre, room);
      }
    }
  }

  lemma RefusedLater(again: bool, parse: WordParser, words: seq<string>, pre: seq<string>, room: nat)
    requires Coherent(parse) && Even(parse) && StandsStill(parse) && AllNonOptions(pre)
    requires |Scan(true, parse, words).options| > room
    requires words != [] && OptionWord(words[0]) && |parse(words[0], Next(words)).options| <= room
    ensures var h, f := Left(true, parse, words, room), RefusedAt(true, parse, words, room);
            |Scan(again, parse, h.front + pre + h.back).options| <= room <==> Spoils(parse, f.(kept := pre + f.kept), again)
    decreases |words|, 0
  {
    hide Left; hide Scan; hide RefusedAt; hide Spoils; hide Coherent; hide Even; hide StandsStill; hide AllNonOptions;
    var w, n := parse(words[0], Next(words)), Used(parse, words);
    RefusedBehind(parse, words, room);
    RefusedAgain(again, parse, words[n..], pre, room - |w.options|);
    var h1 := Left(true, parse, words[n..], room - |w.options|);
    SameFirstWord(again, parse, words, h1.front + pre + h1.back);
    FrontGroups(words[..n], h1.front, pre, h1.back);
  }

  lemma RefusedBehind(parse: WordParser, words: seq<string>, room: nat)
    requires |Scan(true, parse, words).options| > room
    requires words != [] && OptionWord(words[0]) && |parse(words[0], Next(words)).options| <= room
    ensures var n, k := Used(parse, words), |parse(words[0], Next(words)).options|;
            && parse(words[0], Next(words)).ok && |Scan(true, parse, words[n..]).options| > room - k
            && RefusedAt(true, parse, words, room) == RefusedAt(true, parse, words[n..], room - k)
            && var h := Left(true, parse, words[n..], room - k); Left(true, parse, words, room) == Halves(words[..n] + h.front, h.back)
  {
    LeftOption(true, parse, words, room);
    hide Left;
  }

  lemma FrontGroups(a: seq<string>, b: seq<string>, c: seq<string>, d: seq<string>)
    ensures a + b + c + d == a + (b + c + d)
  {
    Regroup(a + b, c, d);
    Regroup(a, b, c + d);
    Regroup(b, c, d);
  }

  /** A word reads the same before whatever now follows what it used up. */
  lemma SameFirstWord(again: bool, parse: WordParser, words: seq<string>, rest: seq<string>)
    requires Coherent(parse) && StandsStill(parse) && words != [] && OptionWord(words[0]) && parse(words[0], Next(words)).ok
    ensures var n := Used(parse, words);
            Scan(again, parse, words[..n] + rest).options == parse(words[0], Next(words)).options + Scan(again, parse, rest).options
  {
    hide Scan;
    var n := Used(parse, words);
    var v := words[..n] + rest;
    assert v[n..] == rest && v[0] == words[0];
    assert Compare(words[0], Nothing, Next(words)) && Compare(words[0], Next(words), Next(v));
    assert parse(v[0], Next(v)) == parse(words[0], Next(words));
    ScanOption(again, parse, v);
  }

  /** After a refusal a second pass stays within the room if and only if a non-option has come between. */
  lemma RefusedTwice(gnu: bool, again: bool, table: Table, words: seq<string>, room: nat)
    requires Steady(table.usage) && (again ==> gnu) && |Scan(gnu, ParserOf(table), words).options| > room
    ensures var parse := ParserOf(table);
            |Scan(again, parse, LeftWords(gnu, parse, words, room)).options| <= room
            <==> Spoils(parse, RefusedAt(gnu, parse, words, room), again)
  {
    var parse := ParserOf(table);
    ParserCoherent(table);
    ParserEven(table);
    SteadyStandsStill(table);
    hide Scan; hide Left; hide RefusedAt; hide Coherent; hide Even; hide StandsStill; hide Spoils; hide ParserOf;
    if gnu {
      RefusedAgain(again, parse, words, [], room);
      var h, f := Left(true, parse, words, room), RefusedAt(true, parse, words, room);
      assert h.front + [] == h.front;
      assert [] + f.kept == f.kept;
    } else {
      LeftPermutes(gnu, parse, words, room);
      NoneKept(parse, words, room);
      NothingKept(parse, RefusedAt(gnu, parse, words, room), again);
    }
  }

  lemma NothingKept(parse: WordParser, f: Refusal, again: bool)
    requires f.kept == []
    ensures !Spoils(parse, f, again)
  {
  }

  lemma {:induction false} NoneKept(parse: WordParser, words: seq<string>, room: nat)
    requires |Scan(false, parse, words).options| > room
    ensures RefusedAt(false, parse, words, room).kept == []
    decreases |words|
  {
    var w := parse(words[0], Next(words));
    if |w.options| <= room {
      NoneKept(parse, words[Used(parse, words)..], room - |w.options|);
    }
  }
}
