/**
 The pass over the argument vector as the parser makes it: in place, rotating every option
 over the non-options before it, and calling an action for every option it recognises.
 */
module Workhorse {
  import opened Common
  import opened OptionSyntax
  import opened WordSyntax
  import opened ArgPass
  import opened OptionLists
  import opened OptionStore

  // ---------------------------------------------------------------- argument vectors

  /** The words of a vector: up to its first NULL and, when `argc` is not negative, at most `argc` of them. */
  function Words(v: seq<Maybe<string>>, argc: int): (words: seq<string>)
    ensures |words| <= |v|
    ensures forall i :: 0 <= i < |words| ==> v[i] == Just(words[i])
    ensures argc >= 0 ==> |words| <= argc
    ensures |words| < |v| ==> v[|words|].Nothing? || |words| == argc
  {
    if argc == 0 || v == [] || v[0].Nothing? then [] else [v[0].value] + Words(v[1..], argc - 1)
  }

  /** Either the count fits the vector or a NULL ends it. */
  ghost predicate ProperVector(v: seq<Maybe<string>>, argc: int) {
    0 <= argc <= |v| || exists i :: 0 <= i < |v| && v[i].Nothing?
  }

  function Filled(words: seq<string>): (v: seq<Maybe<string>>)
    ensures |v| == |words| && forall i :: 0 <= i < |words| ==> v[i] == Just(words[i])
  {
    seq(|words|, i requires 0 <= i < |words| => Just(words[i]))
  }

  // ---------------------------------------------------------------- rotating

  /** Element `at` moved in front of the `count` elements before it. */
  function Rotated<T>(s: seq<T>, at: nat, count: nat): (r: seq<T>)
    requires count <= at < |s|
    ensures |r| == |s|
    ensures forall j :: 0 <= j < |s| ==> r[j] == if j == at - count then s[at] else if at - count < j <= at then s[j - 1] else s[j]
  {
    seq(|s|, j requires 0 <= j < |s| => if j == at - count then s[at] else if at - count < j <= at then s[j - 1] else s[j])
  }

  method Shift<T>(args: array<T>, at: nat, count: nat)
    requires count <= at < args.Length
    modifies args
    ensures args[..] == Rotated(old(args[..]), at, count)
  {
    ghost var s := args[..];
    var i: int := 0;
    while i > 0 - count
      invariant 0 - count <= i <= 0
      invariant args[..] == Rotated(s, at, 0 - i)
    {
      ghost var r := args[..];
      assert r[at + i] == s[at] && r[at + i - 1] == s[at + i - 1];
      args[at + i], args[at + i - 1] := args[at + i - 1], args[at + i];
      assert args[..] == r[at + i := r[at + i - 1]][at + i - 1 := r[at + i]];
      i := i - 1;
    }
  }

  // ---------------------------------------------------------------- one option, one word

  method CheckOption(usage: Usage, idx: nat, name: string, cand: Candidate) returns (step: Step)
    requires idx <= |usage|
    ensures step == Check(usage, idx, name, cand)
  {
    var d := idx;
    if idx == |usage| {
      d := FindDummy(usage);
    }
    if d == |usage| {
      return Dropped;
    }
    var option := Parsed(d, usage[d].index, name, cand.Arg());
    match usage[d].check(option.name, option.arg)
    case ArgIllegal =>
      return Fatal;
    case ArgOk =>
      return Performed(option, true);
    case ArgIgnore =>
      return Performed(option.(arg := Nothing), false);
    case ArgNone =>
      return Performed(option.(arg := Nothing), false);
  }

  method FindLongArgument(name: string, next: Maybe<string>) returns (cand: Candidate)
    ensures cand == LongCandidate(name, next)
  {
    ghost var isEq := (c: char) => c == '=';
    var i := 0;
    while i < |name| && name[i] != '='
      invariant 0 <= i <= |name|
      invariant FindFrom(name, 0, isEq) == FindFrom(name, i, isEq)
    {
      i := i + 1;
    }
    cand := if i < |name| then Attached(name[i + 1..]) else Detached(next);
  }

  /** Where the loop over a word stands: at character `p`, still reading short options, still to try a long one, and so on. */
  datatype WordState = WordState(p: nat, short: bool, tryLong: bool, more: bool, took: bool)

  /** What is still to come of a word. */
  function Remaining(table: Table, w: string, next: Maybe<string>, st: WordState): WordResult
    requires OptionWord(w) && st.p < |w|
  {
    if !st.more then WordResult([], st.took, true)
    else if !st.short || st.tryLong then Word(table, w, next)
    else Group(table.usage, w, st.p + 1, next)
  }

  /** Only the first round of the loop tries long options. */
  ghost predicate ProperState(table: Table, w: string, st: WordState) {
    && OptionWord(w) && st.p < |w|
    && (st.more && (!st.short || st.tryLong) ==> st.p == 0 && st.short == (w[1] != '-') && (st.tryLong ==> table.singleMinus))
    && (st.more ==> !st.took)
  }

  /** What is still to come once the option at `p` was checked. */
  function AfterCheck(usage: Usage, w: string, next: Maybe<string>, p: nat, short: bool, step: Step, separate: bool): WordResult
    requires p < |w|
  {
    match step
    case Fatal => WordResult([], false, false)
    case Dropped => if short then Group(usage, w, p + 1, next) else WordResult([], false, true)
    case Performed(o, accepted) =>
      if short && !accepted then Group(usage, w, p + 1, next).Prepend([o]) else WordResult([o], accepted && separate, true)
  }

  lemma ShortRemaining(usage: Usage, w: string, next: Maybe<string>, q: nat)
    requires q < |w|
    ensures var cand := if q + 1 == |w| then Detached(next) else Attached(w[q + 1..]);
            Group(usage, w, q, next)
            == AfterCheck(usage, w, next, q, true, Check(usage, ShortLookup(usage, w[q]), w[q..], cand), cand.Separate?)
  {
  }

  lemma LongAfterCheck(usage: Usage, idx: nat, w: string, cand: Candidate, next: Maybe<string>)
    requires w != ""
    ensures LongWord(usage, idx, w, cand) == AfterCheck(usage, w, next, 0, false, Check(usage, idx, w[0..], cand), cand.Separate?)
  {
    assert w[0..] == w;
  }

  lemma LongRemaining(table: Table, w: string, name: string, next: Maybe<string>)
    requires OptionWord(w) && name == if w[1] != '-' then w[1..] else w[2..]
    ensures var idx, cand := LongLookup(table.usage, name, table.minAbbr), LongCandidate(name, next);
            Word(table, w, next) == if w[1] != '-' && (idx == |table.usage| || !table.singleMinus) then Group(table.usage, w, 1, next)
                                    else AfterCheck(table.usage, w, next, 0, false, Check(table.usage, idx, w[0..], cand), cand.Separate?)
  {
    LongAfterCheck(table.usage, LongLookup(table.usage, name, table.minAbbr), w, LongCandidate(name, next), next);
  }

  /** The long-option and short-option halves of the loop's body: which option comes next and what it could take. */
  method PickOption(table: Table, w: string, next: Maybe<string>, st: WordState)
    returns (end: bool, idx: nat, cand: Candidate, q: nat, short: bool)
    requires ProperState(table, w, st) && st.more
    ensures st.p <= q && (!end ==> q < |w| && idx <= |table.usage| && (short ==> st.short && st.p < q))
    ensures Remaining(table, w, next, st)
            == if end then WordResult([], false, true)
               else AfterCheck(table.usage, w, next, q, short, Check(table.usage, idx, w[q..], cand), cand.Separate?)
  {
    var usage := table.usage;
    end, idx, cand, q, short := false, 0, Absent, st.p, st.short;
    if !short || st.tryLong {
      var longName := if short then w[1..] else w[2..];
      LongRemaining(table, w, longName, next);
      idx := FindLongOption(usage, longName, table.minAbbr);
      if idx < |usage| {
        short := false;
      }
      cand := FindLongArgument(longName, next);
    }
    if short {
      q := q + 1;
      if q == |w| {
        end := true;
        return;
      }
      ShortRemaining(usage, w, next, q);
      idx := FindShortOption(usage, w[q]);
      cand := if q + 1 == |w| then Detached(next) else Attached(w[q + 1..]);
    }
  }

  // ---------------------------------------------------------------- performing

  function OptionsOf(step: Step): seq<Parsed> {
    if step.Performed? then [step.option] else []
  }

  /** The buffer has a slot for every one of `n` options that is accepted. */
  ghost predicate Enough(n: nat, room: int, slots: int) {
    slots < 0 || n <= slots || 0 <= room <= slots
  }

  lemma AfterCheckOptions(table: Table, w: string, next: Maybe<string>, st: WordState, step: Step, separate: bool)
    requires OptionWord(w) && st.p < |w| && !step.Fatal? && !st.tryLong
    requires st.more == (st.short && (step.Performed? ==> !step.accepted))
    requires st.took == (step.Performed? && step.accepted && separate)
    ensures AfterCheck(table.usage, w, next, st.p, st.short, step, separate) == Remaining(table, w, next, st).Prepend(OptionsOf(step))
  {
  }

  /** One round of the loop over a word, up to the call of the action: the option to perform, if any, and where the loop goes on. */
  method NextOption(table: Table, w: string, next: Maybe<string>, st: WordState) returns (fatal: bool, out: Maybe<Parsed>, after: WordState)
    requires ProperState(table, w, st) && st.more
    ensures ProperState(table, w, after) && (!fatal && after.more ==> st.p < after.p) && (after.took ==> !fatal && !after.more && out.Just?)
    ensures fatal ==> Remaining(table, w, next, st) == WordResult([], false, false)
    ensures !fatal ==> Remaining(table, w, next, st) == Remaining(table, w, next, after).Prepend(Listing(out))
    ensures out.Just? ==> FromUsage(table.usage, out.value)
  {
    var end, idx, cand, q, short := PickOption(table, w, next, st);
    fatal, out := false, Nothing;
    if end {
      after := st.(more := false);
      return;
    }
    after := WordState(q, short, false, short, false);
    var step := CheckOption(table.usage, idx, w[q..], cand);
    match step
    case Fatal =>
      fatal := true;
    case Dropped =>
      AfterCheckOptions(table, w, next, after, step, cand.Separate?);
    case Performed(o, accepted) =>
      if accepted {
        after := after.(more := false, took := cand.Separate?);
      }
      out := Just(o);
      AfterCheckOptions(table, w, next, after, step, cand.Separate?);
  }

  function Listing(out: Maybe<Parsed>): seq<Parsed> {
    if out.Just? then [out.value] else []
  }

  predicate FromUsage(usage: Usage, o: Parsed) {
    o.desc < |usage| && o.index == usage[o.desc].index
  }

  lemma AcceptTwice(was: Standing, a: seq<Parsed>, b: seq<Parsed>)
    requires Fits(|a|, was.room) && Fits(|a|, was.slots)
    ensures was.Accept(a).Accept(b) == was.Accept(a + b)
  {
    Regroup(was.seen, a, b);
  }

  /** What an action accepts of `done + more` when it accepted `done` and then refused, or there is no more. */
  lemma AcceptedPart(done: seq<Parsed>, more: seq<Parsed>, room: int)
    requires Fits(|done|, room) && (more == [] || room == |done|)
    ensures Accepted(done + more, room) == done
  {
  }

  /** Moves an option's word over the non-options when it takes the next word, and performs the action for the option. */
  method ApplyOption(argv: array<Maybe<string>>, at: nat, nonops: nat, take: bool, out: Maybe<Parsed>, action: Action, ghost was: Standing)
    returns (ok: bool)
    requires nonops <= at < argv.Length && argv !in action.Footprint()
    requires action.State() == was && was.valid && (out.Just? && was.room != 0 ==> was.slots != 0)
    requires out.Just? && action.Storing? ==> out.value.index < action.store.arrays.options.Length
    modifies argv, action.Footprint()
    ensures ok <==> (out.Just? ==> was.room != 0)
    ensures action.State() == if ok then was.Accept(Listing(out)) else was
    ensures argv[..] == if take then Rotated(old(argv[..]), at, nonops) else old(argv[..])
  {
    if take {
      Shift(argv, at, nonops);
    }
    ok := true;
    if out.Just? {
      ok := action.Perform(out.value);
    } else {
      assert was.seen + [] == was.seen;
    }
  }

  /** The loop over the word `w` has performed `done` and stands at `st`. */
  ghost predicate Partway(table: Table, w: string, next: Maybe<string>, was: Standing, done: seq<Parsed>, st: WordState) {
    && ProperState(table, w, st)
    && Word(table, w, next) == Remaining(table, w, next, st).Prepend(done)
    && Fits(|done|, was.room) && Fits(|done|, was.slots)
    && Enough(|Word(table, w, next).options|, was.room, was.slots)
  }

  lemma PartwayStart(table: Table, w: string, next: Maybe<string>, was: Standing, st: WordState)
    requires OptionWord(w) && Enough(|Word(table, w, next).options|, was.room, was.slots)
    requires st == WordState(0, w[1] != '-', table.singleMinus && w[1] != '-', true, false)
    ensures Partway(table, w, next, was, [], st) && was.Accept([]) == was
  {
  }

  lemma RemainingTakes(table: Table, w: string, next: Maybe<string>, st: WordState)
    requires ProperState(table, w, st) && st.more
    ensures TakesWhatIsThere(Remaining(table, w, next, st), next)
  {
    hide Word;
    WordCoherent(table, w, next, next);
    GroupTakesWhatIsThere(table.usage, w, st.p + 1, next);
  }

  lemma PartwayNext(table: Table, w: string, next: Maybe<string>, was: Standing, done: seq<Parsed>, st: WordState,
                    out: Maybe<Parsed>, after: WordState)
    requires Partway(table, w, next, was, done, st) && ProperState(table, w, after)
    requires Remaining(table, w, next, st) == Remaining(table, w, next, after).Prepend(Listing(out)) && (after.took ==> !after.more)
    ensures var room, slots := was.Accept(done).room, was.Accept(done).slots;
            && (out.Just? && room != 0 ==> slots != 0)
            && (out.Just? && room == 0 ==> Accepted(Word(table, w, next).options, was.room) == done
                                           && !Fits(|Word(table, w, next).options|, was.room)
                                           && (after.took <==> Word(table, w, next).took && |Word(table, w, next).options| == was.room + 1))
            && (after.took ==> Word(table, w, next).ok)
            && ((out.Just? ==> room != 0) ==>
                  && Partway(table, w, next, was, done + Listing(out), after)
                  && was.Accept(done).Accept(Listing(out)) == was.Accept(done + Listing(out)))
  {
    var follow := Remaining(table, w, next, after).options;
    if after.more {
      RemainingTakes(table, w, next, after);
    }
    Regroup(done, Listing(out), follow);
    AcceptTwice(was, done, Listing(out));
    if was.room == |done| {
      AcceptedPart(done, Listing(out) + follow, was.room);
    }
  }

  lemma PartwayEnd(table: Table, w: string, next: Maybe<string>, was: Standing, done: seq<Parsed>, st: WordState)
    requires Partway(table, w, next, was, done, st)
    requires st.more ==> Remaining(table, w, next, st) == WordResult([], false, false)
    ensures var word := Word(table, w, next);
            && Fits(|word.options|, was.room) && Accepted(word.options, was.room) == done
            && (if st.more then !word.ok && !word.took else word.ok && word.took == st.took)
  {
    AcceptedPart(done, [], was.room);
  }

  lemma InRange(table: Table, action: Action, out: Maybe<Parsed>)
    requires action.Covers(table.usage) && (out.Just? ==> FromUsage(table.usage, out.value))
    ensures out.Just? && action.Storing? ==> out.value.index < action.store.arrays.options.Length
  {
  }

  /**
   The loop over the options in the word at `at`. When an option takes the following word as
   its argument, the option's word is rotated to the front.
   */
  method WordOptions(table: Table, argv: array<Maybe<string>>, at: nat, nonops: nat, w: string, next: Maybe<string>, action: Action,
                     ghost was: Standing)
    returns (ok: bool, took: bool)
    requires nonops <= at < argv.Length && OptionWord(w) && argv !in action.Footprint()
    requires action.State() == was && was.valid && action.Covers(table.usage)
    requires Enough(|Word(table, w, next).options|, was.room, was.slots)
    modifies argv, action.Footprint()
    ensures var word := Word(table, w, next);
            && (ok <==> word.ok && Fits(|word.options|, was.room))
            && (took <==> word.took && (ok || |word.options| == was.room + 1))
            && action.State() == was.Accept(Accepted(word.options, was.room))
    ensures argv[..] == if took then Rotated(old(argv[..]), at, nonops) else old(argv[..])
  {
    hide Word; hide Remaining; hide Partway; hide Rotated; hide Accepted; hide Action.State; hide FromUsage;
    var st := WordState(0, w[1] != '-', table.singleMinus && w[1] != '-', true, false);
    ghost var done: seq<Parsed> := [];
    PartwayStart(table, w, next, was, st);
    took := false;
    while st.more
      invariant Partway(table, w, next, was, done, st) && ProperState(table, w, st) && took == st.took
      invariant action.State() == was.Accept(done)
      invariant argv[..] == if took then Rotated(old(argv[..]), at, nonops) else old(argv[..])
      decreases st.more, |w| - st.p
    {
      var fatal, out, after := NextOption(table, w, next, st);
      if fatal {
        PartwayEnd(table, w, next, was, done, st);
        return false, false;
      }
      PartwayNext(table, w, next, was, done, st, out, after);
      InRange(table, action, out);
      took := after.took;
      ok := ApplyOption(argv, at, nonops, took, out, action, was.Accept(done));
      if !ok {
        return;
      }
      st, done := after, done + Listing(out);
    }
    PartwayEnd(table, w, next, was, done, st);
    ok := true;
  }

  // ---------------------------------------------------------------- the pass

  /** A pass to be made: over `words`, behind which the vector holds `beyond`, with an action that stands at `was`. */
  datatype Course = Course(gnu: bool, parse: WordParser, words: seq<string>, beyond: seq<Maybe<string>>, was: Standing) {
    /** What the pass comes to from word `i` on. */
    ghost function From(i: nat): ScanResult
      requires i <= |words|
    {
      Scan(gnu, parse, words[i..])
    }

    ghost function Result(): ScanResult {
      Scan(gnu, parse, words)
    }

    /** What the pass leaves in the vector of the words from `i` on, when the action accepts `room` more options. */
    ghost function LeftFrom(i: nat, room: int): Halves
      requires i <= |words|
    {
      Left(gnu, parse, words[i..], room)
    }

    ghost function Leaves(): Halves {
      Left(gnu, parse, words, was.room)
    }

    ghost function WordAt(i: nat): WordResult
      requires i < |words|
    {
      parse(words[i], Next(words[i..]))
    }
  }

  /** Where a pass stands: what it has performed, the words it has put in front, and the non-options it keeps back. */
  datatype Place = Place(done: seq<Parsed>, front: seq<string>, kept: seq<string>)

  /** The pass has dealt with `i` words: what it comes to is what it has done so far, and then the rest. */
  ghost predicate Scanned(c: Course, i: nat, p: Place) {
    && i <= |c.words| && |p.front| + |p.kept| == i
    && var r := c.From(i); c.Result() == ScanResult(p.done + r.options, p.front + r.front, p.kept + r.back, r.ok, r.tail)
  }

  /** The same for what it leaves in the vector. */
  ghost predicate Leaving(c: Course, i: nat, p: Place) {
    && i <= |c.words|
    && var h := c.LeftFrom(i, Less(c.was.room, |p.done|)); c.Leaves() == Halves(p.front + h.front, p.kept + h.back)
  }

  lemma ScannedStart(c: Course)
    ensures Scanned(c, 0, Place([], [], [])) && Leaving(c, 0, Place([], [], []))
  {
    hide Scan; hide Left;
    assert c.words[0..] == c.words;
    var r, h := c.Result(), c.Leaves();
    NothingBefore(r.options);
    NothingBefore(r.front);
    NothingBefore(r.back);
    NothingBefore(h.front);
    NothingBefore(h.back);
  }

  lemma ScannedNonOption(c: Course, i: nat, p: Place)
    requires Scanned(c, i, p) && Leaving(c, i, p) && c.gnu && i < |c.words| && NonOption(c.words[i])
    ensures var q := p.(kept := p.kept + [c.words[i]]); Scanned(c, i + 1, q) && Leaving(c, i + 1, q)
  {
    hide Scan; hide Left;
    var x := c.words[i];
    NonOptionNext(c, i, Less(c.was.room, |p.done|));
    Regroup(p.kept, [x], c.From(i + 1).back);
    Regroup(p.kept, [x], c.LeftFrom(i + 1, Less(c.was.room, |p.done|)).back);
  }

  lemma NonOptionNext(c: Course, i: nat, room: int)
    requires c.gnu && i < |c.words| && NonOption(c.words[i])
    ensures var r := c.From(i + 1); c.From(i) == r.(back := [c.words[i]] + r.back)
    ensures var h := c.LeftFrom(i + 1, room); c.LeftFrom(i, room) == h.(back := [c.words[i]] + h.back)
  {
    DropDrop(c.words, i, 1);
    LeftNonOption(c.parse, c.words[i..], room);
    hide Left;
  }

  lemma DropDrop<T>(s: seq<T>, i: nat, k: nat)
    requires i + k <= |s|
    ensures s[i..][k..] == s[i + k..] && s[i..][..k] == s[i..i + k]
  {
  }

  lemma ScannedOption(c: Course, i: nat, p: Place)
    requires Scanned(c, i, p) && Leaving(c, i, p) && i < |c.words| && OptionWord(c.words[i])
    requires c.WordAt(i).ok && Fits(|p.done|, c.was.room) && Fits(|c.WordAt(i).options|, Less(c.was.room, |p.done|))
    ensures var k, w := Used(c.parse, c.words[i..]), c.WordAt(i);
            var q := Place(p.done + w.options, p.front + c.words[i..i + k], p.kept);
            Scanned(c, i + k, q) && Leaving(c, i + k, q)
  {
    hide Scan; hide Left;
    var k, w, room := Used(c.parse, c.words[i..]), c.WordAt(i), Less(c.was.room, |p.done|);
    ScanOption(c.gnu, c.parse, c.words[i..]);
    LeftOption(c.gnu, c.parse, c.words[i..], room);
    DropDrop(c.words, i, k);
    Regroup(p.done, w.options, c.From(i + k).options);
    Regroup(p.front, c.words[i..i + k], c.From(i + k).front);
    Regroup(p.front, c.words[i..i + k], c.LeftFrom(i + k, Less(room, |w.options|)).front);
  }

  /** What the vector holds in the middle of a pass. */
  function Layout(f: seq<string>, n: seq<string>, rest: seq<string>, beyond: seq<Maybe<string>>): seq<Maybe<string>> {
    Filled(f + n + rest) + beyond
  }

  lemma LayoutRotated(f: seq<string>, n: seq<string>, x: string, rest: seq<string>, beyond: seq<Maybe<string>>)
    ensures Rotated(Layout(f, n, [x] + rest, beyond), |f| + |n|, |n|) == Layout(f + [x], n, rest, beyond)
  {
    var u, v := f + n + ([x] + rest), f + [x] + n + rest;
    forall j | 0 <= j < |u|
      ensures v[j] == if j == |f| then u[|f| + |n|] else if |f| < j <= |f| + |n| then u[j - 1] else u[j]
    {
    }
  }

  /** The `k` elements at `at` moved over the `count` elements before them, one after the other. */
  function Moved<T>(s: seq<T>, at: nat, count: nat, k: nat): seq<T>
    requires count <= at && k <= 2 && at + k <= |s|
  {
    if k == 0 then s
    else if k == 1 then Rotated(s, at, count)
    else Rotated(Rotated(s, at, count), at + 1, count)
  }

  lemma HeadAndRest(words: seq<string>, i: nat)
    requires i < |words|
    ensures words[i..] == [words[i]] + words[i + 1..] && words[i..i + 1] == [words[i]]
    ensures i + 1 < |words| ==> words[i..i + 2] == [words[i]] + [words[i + 1]]
  {
  }

  lemma LayoutMoved(f: seq<string>, n: seq<string>, words: seq<string>, i: nat, k: nat, beyond: seq<Maybe<string>>)
    requires 1 <= k <= 2 && i + k <= |words| && |f| + |n| == i
    ensures Moved(Layout(f, n, words[i..], beyond), i, |n|, k) == Layout(f + words[i..i + k], n, words[i + k..], beyond)
  {
    hide Layout; hide Rotated;
    HeadAndRest(words, i);
    LayoutRotated(f, n, words[i], words[i + 1..], beyond);
    if k == 2 {
      HeadAndRest(words, i + 1);
      LayoutRotated(f + [words[i]], n, words[i + 1], words[i + 2..], beyond);
      Regroup(f, [words[i]], [words[i + 1]]);
    }
  }

  /** An option word and, if it takes one, its argument: performed and moved over the non-options. */
  method OptionStep(table: Table, argv: array<Maybe<string>>, i: nat, nonops: nat, w: string, next: Maybe<string>, action: Action,
                    ghost was: Standing)
    returns (ok: bool, moved: nat)
    requires nonops <= i < argv.Length && OptionWord(w) && (next.Just? ==> i + 1 < argv.Length) && argv !in action.Footprint()
    requires action.State() == was && was.valid && action.Covers(table.usage)
    requires Enough(|Word(table, w, next).options|, was.room, was.slots)
    modifies argv, action.Footprint()
    ensures var word := Word(table, w, next);
            && (ok <==> word.ok && Fits(|word.options|, was.room))
            && action.State() == was.Accept(Accepted(word.options, was.room))
            && moved == (if word.took && (ok || |word.options| == was.room + 1) then 1 else 0) + (if ok then 1 else 0)
            && i + moved <= argv.Length
            && argv[..] == Moved(old(argv[..]), i, nonops, moved)
  {
    hide Word; hide Rotated;
    WordCoherent(table, w, next, next);
    var took;
    ok, took := WordOptions(table, argv, i, nonops, w, next, action, was);
    moved := if took then 1 else 0;
    if ok {
      Shift(argv, i + moved, nonops);
      moved := moved + 1;
    }
  }

  /** The pass has stopped: what it kept back and the words not looked at are the back. */
  ghost predicate Stopped(c: Course, i: nat, p: Place) {
    && i <= |c.words| && |p.front| + |p.kept| == i
    && c.Result() == ScanResult(p.done, p.front, p.kept + c.words[i..], true, c.words[i..])
  }

  lemma StoppedAtEnd(c: Course, i: nat, p: Place)
    requires Scanned(c, i, p)
    requires i == |c.words| || (i < |c.words| && NonOption(c.words[i]) && !c.gnu)
    ensures Stopped(c, i, p)
  {
    NothingBefore(p.done);
    NothingBefore(p.front);
  }

  lemma StoppedAtTerminator(c: Course, i: nat, p: Place)
    requires Scanned(c, i, p) && i < |c.words| && c.words[i] == TERMINATOR
    ensures Stopped(c, i + 1, p.(front := p.front + [c.words[i]]))
  {
    NothingBefore(p.done);
    DropDrop(c.words, i, 1);
  }

  lemma AcceptedSplit(done: seq<Parsed>, more: seq<Parsed>, rest: seq<Parsed>, room: int)
    requires Fits(|done|, room) && (rest == [] || !Fits(|more|, Less(room, |done|)))
    ensures Accepted(done + (more + rest), room) == done + Accepted(more, Less(room, |done|))
  {
    if room >= 0 {
      assert |more| >= room - |done| ==> (done + (more + rest))[..room] == done + more[..room - |done|];
    }
  }

  /** The state of a pass that still goes on, without the heap. */
  ghost predicate Going(c: Course, i: nat, p: Place) {
    && Scanned(c, i, p) && Leaving(c, i, p)
    && Fits(|p.done|, c.was.room) && Fits(|p.done|, c.was.slots)
    && Enough(|c.Result().options|, c.was.room, c.was.slots)
  }

  /** The parser of words is the one of this table. */
  ghost predicate Follows(parse: WordParser, table: Table) {
    forall w: string, next: Maybe<string> {:trigger Word(table, w, next)} :: parse(w, next) == Word(table, w, next)
  }

  /** An option word that is refused or illegal ends the pass. */
  ghost predicate Fails(c: Course, i: nat, p: Place)
    requires i < |c.words|
  {
    !(c.WordAt(i).ok && Fits(|c.WordAt(i).options|, Less(c.was.room, |p.done|)))
  }

  /** What the action has accepted by then is what it accepts of the whole pass. */
  lemma AcceptedAtFailure(c: Course, i: nat, p: Place)
    requires Going(c, i, p) && i < |c.words| && OptionWord(c.words[i]) && Fails(c, i, p)
    ensures var w, r, room := c.WordAt(i), c.Result(), Less(c.was.room, |p.done|);
            && !(r.ok && Fits(|r.options|, c.was.room))
            && c.was.Accept(p.done).Accept(Accepted(w.options, room)) == c.was.Accept(Accepted(r.options, c.was.room))
  {
    hide Scan; hide Left; hide Leaving;
    var w, room := c.WordAt(i), Less(c.was.room, |p.done|);
    if !w.ok {
      ScanIllegal(c.gnu, c.parse, c.words[i..]);
      NothingBefore(w.options);
      AcceptedSplit(p.done, w.options, [], c.was.room);
    } else {
      ScanOption(c.gnu, c.parse, c.words[i..]);
      AcceptedSplit(p.done, w.options, Scan(c.gnu, c.parse, c.words[i..][Used(c.parse, c.words[i..])..]).options, c.was.room);
    }
    AcceptTwice(c.was, p.done, Accepted(w.options, room));
  }

  /** How many words a failing option word has moved: itself, if it was refused on taking its argument. */
  ghost function MovedAtFailure(c: Course, i: nat, p: Place): (k: nat)
    requires i < |c.words|
    ensures k <= 1
  {
    var w, room := c.WordAt(i), Less(c.was.room, |p.done|);
    if w.took && |w.options| == room + 1 then 1 else 0
  }

  /** And the vector is what the pass leaves. */
  lemma LeftAtFailure(c: Course, i: nat, p: Place)
    requires Going(c, i, p) && i < |c.words| && OptionWord(c.words[i]) && Fails(c, i, p) && Coherent(c.parse)
    ensures var k, h := MovedAtFailure(c, i, p), c.Leaves();
            Layout(p.front + c.words[i..i + k], p.kept, c.words[i + k..], c.beyond) == Filled(h.front + h.back) + c.beyond
  {
    hide Scan; hide Left; hide Filled; hide Scanned; hide Coherent;
    var k := MovedAtFailure(c, i, p);
    LeftHere(c, i, p);
    hide MovedAtFailure;
    Regroup(p.front + c.words[i..i + k], p.kept, c.words[i + k..]);
  }

  lemma LeftHere(c: Course, i: nat, p: Place)
    requires i < |c.words| && OptionWord(c.words[i]) && Fails(c, i, p) && Coherent(c.parse) && Fits(|p.done|, c.was.room)
    ensures var k := MovedAtFailure(c, i, p); c.LeftFrom(i, Less(c.was.room, |p.done|)) == Halves(c.words[i..i + k], c.words[i + k..])
  {
    hide Left;
    assert Compare(c.words[i], Nothing, Next(c.words[i..]));
    LeftOption(c.gnu, c.parse, c.words[i..], Less(c.was.room, |p.done|));
    DropDrop(c.words, i, 1);
    HeadAndRest(c.words, i);
  }

  /** Counting what an option word adds keeps within the limits. */
  lemma GoingOption(c: Course, i: nat, p: Place)
    requires Going(c, i, p) && i < |c.words| && OptionWord(c.words[i]) && Coherent(c.parse)
    ensures var w, now := c.WordAt(i), c.was.Accept(p.done);
            var k := if w.took then 2 else 1;
            && Enough(|w.options|, now.room, now.slots)
            && (!Fails(c, i, p) ==>
                  && i + k <= |c.words|
                  && Going(c, i + k, Place(p.done + w.options, p.front + c.words[i..i + k], p.kept))
                  && now.Accept(Accepted(w.options, now.room)) == c.was.Accept(p.done + w.options))
  {
    hide Scan; hide Left;
    var w := c.WordAt(i);
    assert Compare(c.words[i], Nothing, Next(c.words[i..]));
    AcceptTwice(c.was, p.done, w.options);
    if w.ok {
      ScanOption(c.gnu, c.parse, c.words[i..]);
    } else {
      ScanIllegal(c.gnu, c.parse, c.words[i..]);
    }
    if !Fails(c, i, p) {
      ScannedOption(c, i, p);
    }
  }

  /** What a pass leaves behind when it fails: the accepted options, and the vector as far as it got. */
  ghost predicate Failed(c: Course, now: Standing, v: seq<Maybe<string>>) {
    var r, h := c.Result(), c.Leaves();
    && !(r.ok && Fits(|r.options|, c.was.room))
    && now == c.was.Accept(Accepted(r.options, c.was.room))
    && v == Filled(h.front + h.back) + c.beyond
  }

  /** The vector `v` in the middle of a pass: rearranged up to word `i`, untouched from there on. */
  ghost predicate Spread(c: Course, v: seq<Maybe<string>>, i: nat, p: Place) {
    && |p.front| + |p.kept| == i <= |c.words|
    && v == Layout(p.front, p.kept, c.words[i..], c.beyond)
    && |v| == |c.words| + |c.beyond|
    && (i < |c.words| ==> v[i] == Just(c.words[i]))
    && (i + 1 < |c.words| ==> v[i + 1] == Just(c.words[i + 1]))
    && (c.beyond != [] ==> v[|c.words|] == c.beyond[0])
  }

  lemma Spreads(c: Course, i: nat, p: Place)
    requires |p.front| + |p.kept| == i <= |c.words|
    ensures Spread(c, Layout(p.front, p.kept, c.words[i..], c.beyond), i, p)
  {
    var all := p.front + p.kept + c.words[i..];
    assert |all| == |c.words| && forall j :: i <= j < |c.words| ==> all[j] == c.words[j];
  }

  lemma SpreadStart(c: Course)
    ensures Spread(c, Filled(c.words) + c.beyond, 0, Place([], [], []))
  {
    assert c.words[0..] == c.words;
    NothingBefore(c.words);
    Spreads(c, 0, Place([], [], []));
  }

  lemma SpreadNonOption(c: Course, v: seq<Maybe<string>>, i: nat, p: Place)
    requires Spread(c, v, i, p) && i < |c.words|
    ensures Spread(c, v, i + 1, p.(kept := p.kept + [c.words[i]]))
  {
    hide Filled;
    HeadAndRest(c.words, i);
    Regroup(p.front, p.kept, [c.words[i]]);
    Regroup(p.front + p.kept, [c.words[i]], c.words[i + 1..]);
    Spreads(c, i + 1, p.(kept := p.kept + [c.words[i]]));
  }

  lemma SpreadMoved(c: Course, v: seq<Maybe<string>>, i: nat, p: Place, k: nat)
    requires Spread(c, v, i, p) && 1 <= k <= 2 && i + k <= |c.words|
    ensures Spread(c, Moved(v, i, |p.kept|, k), i + k, p.(front := p.front + c.words[i..i + k]))
  {
    LayoutMoved(p.front, p.kept, c.words, i, k, c.beyond);
    Spreads(c, i + k, p.(front := p.front + c.words[i..i + k]));
  }

  /** `words` end at a NULL or there are `argc` of them. */
  ghost predicate Bounded(words: seq<string>, beyond: seq<Maybe<string>>, argc: int) {
    |words| == argc || (beyond != [] && beyond[0].Nothing? && (argc >= 0 ==> |words| < argc))
  }

  /** The arguments still to come at word `i`, or a negative number if they were not counted. */
  function Numargs(argc: int, i: nat): int {
    if argc < 0 then argc else argc - i
  }

  /** The loop's invariant: the pass goes on, and the vector is rearranged accordingly. */
  ghost predicate Midway(c: Course, v: seq<Maybe<string>>, i: nat, p: Place) {
    Going(c, i, p) && Spread(c, v, i, p)
  }

  lemma MidwayStart(c: Course)
    requires Enough(|c.Result().options|, c.was.room, c.was.slots)
    ensures Midway(c, Filled(c.words) + c.beyond, 0, Place([], [], [])) && c.was.Accept([]) == c.was
  {
    ScannedStart(c);
    SpreadStart(c);
  }

  lemma MidwayNonOption(c: Course, v: seq<Maybe<string>>, i: nat, p: Place)
    requires Midway(c, v, i, p) && c.gnu && i < |c.words| && NonOption(c.words[i])
    ensures Midway(c, v, i + 1, p.(kept := p.kept + [c.words[i]]))
  {
    hide Scanned; hide Leaving;
    ScannedNonOption(c, i, p);
    SpreadNonOption(c, v, i, p);
  }

  /** What the loop reads next. */
  lemma MidwayNext(c: Course, v: seq<Maybe<string>>, i: nat, p: Place, argc: int)
    requires Midway(c, v, i, p) && Bounded(c.words, c.beyond, argc)
    ensures var numargs := Numargs(argc, i);
            && (argc >= 0 ==> |c.words| <= argc)
            && i <= |c.words| && |p.front| + |p.kept| == i && (numargs != 0 ==> i < |v| && (v[i].Just? <==> i < |c.words|))
            && (i < |c.words| ==> numargs != 0 && v[i] == Just(c.words[i]))
            && (i < |c.words| && (numargs > 1 || numargs < 0) ==> i + 1 < |v| && v[i + 1] == Next(c.words[i..]))
            && (i < |c.words| && !(numargs > 1 || numargs < 0) ==> Next(c.words[i..]) == Nothing)
  {
    hide Scanned; hide Leaving; hide Layout;
  }

  /** The state of a pass whose loop has ended. */
  ghost predicate Ended(c: Course, v: seq<Maybe<string>>, i: nat, p: Place) {
    Stopped(c, i, p) && Spread(c, v, i, p) && Fits(|p.done|, c.was.room)
  }

  lemma EndedAtEnd(c: Course, v: seq<Maybe<string>>, i: nat, p: Place)
    requires Midway(c, v, i, p)
    requires i == |c.words| || (i < |c.words| && NonOption(c.words[i]) && !c.gnu)
    ensures Ended(c, v, i, p)
  {
    StoppedAtEnd(c, i, p);
  }

  lemma EndedAtTerminator(c: Course, v: seq<Maybe<string>>, i: nat, p: Place)
    requires Midway(c, v, i, p) && i < |c.words| && c.words[i] == TERMINATOR
    ensures |p.kept| <= i < |v| && Ended(c, Rotated(v, i, |p.kept|), i + 1, p.(front := p.front + [c.words[i]]))
  {
    hide Stopped; hide Layout;
    StoppedAtTerminator(c, i, p);
    hide Scanned; hide Leaving;
    SpreadMoved(c, v, i, p, 1);
    HeadAndRest(c.words, i);
  }

  lemma MidwayOption(c: Course, v: seq<Maybe<string>>, i: nat, p: Place)
    requires Midway(c, v, i, p) && i < |c.words| && OptionWord(c.words[i]) && Coherent(c.parse)
    ensures var w, now := c.WordAt(i), c.was.Accept(p.done);
            var k := if w.took then 2 else 1;
            && Enough(|w.options|, now.room, now.slots)
            && |p.kept| <= i < |v| && v[i] == Just(c.words[i]) && (Next(c.words[i..]).Just? ==> i + 1 < |v|)
            && (!Fails(c, i, p) ==>
                  && i + k <= |c.words| && i + k <= |v|
                  && Midway(c, Moved(v, i, |p.kept|, k), i + k, Place(p.done + w.options, p.front + c.words[i..i + k], p.kept))
                  && now.Accept(Accepted(w.options, now.room)) == c.was.Accept(p.done + w.options))
  {
    hide Moved; hide Layout; hide Scanned; hide Leaving;
    GoingOption(c, i, p);
    if !Fails(c, i, p) {
      SpreadMoved(c, v, i, p, if c.WordAt(i).took then 2 else 1);
    }
  }

  lemma LayoutAfter(c: Course, v: seq<Maybe<string>>, i: nat, p: Place, k: nat)
    requires Spread(c, v, i, p) && i < |c.words| && k <= 1
    ensures |p.kept| <= i < |v|
    ensures Moved(v, i, |p.kept|, k) == Layout(p.front + c.words[i..i + k], p.kept, c.words[i + k..], c.beyond)
  {
    hide Layout;
    if k == 1 {
      SpreadMoved(c, v, i, p, 1);
    } else {
      NothingBefore(p.front);
      assert c.words[i..i] == [];
    }
  }

  lemma FailedHere(c: Course, v: seq<Maybe<string>>, i: nat, p: Place)
    requires Midway(c, v, i, p) && i < |c.words| && OptionWord(c.words[i]) && Fails(c, i, p) && Coherent(c.parse)
    ensures |p.kept| <= i < |v|
    ensures var w, now := c.WordAt(i), c.was.Accept(p.done);
            Failed(c, now.Accept(Accepted(w.options, now.room)), Moved(v, i, |p.kept|, MovedAtFailure(c, i, p)))
  {
    hide Scanned; hide Leaving; hide Layout; hide MovedAtFailure; hide Fails; hide Coherent; hide Accepted; hide Moved;
    hide Course.Result; hide Course.Leaves; hide Course.WordAt;
    AcceptedAtFailure(c, i, p);
    LeftAtFailure(c, i, p);
    LayoutAfter(c, v, i, p, MovedAtFailure(c, i, p));
  }

  /** The option word at `i`, performed and moved to the front together with its argument. */
  method PassOption(table: Table, argv: array<Maybe<string>>, i: nat, nonops: nat, next: Maybe<string>, action: Action,
                    ghost c: Course, ghost p: Place)
    returns (ok: bool, moved: nat, ghost q: Place)
    requires Follows(c.parse, table) && Coherent(c.parse)
    requires argv !in action.Footprint() && action.State() == c.was.Accept(p.done) && c.was.valid && action.Covers(table.usage)
    requires Midway(c, argv[..], i, p) && |p.kept| == nonops
    requires i < |c.words| && OptionWord(c.words[i]) && next == Next(c.words[i..])
    modifies argv, action.Footprint()
    ensures !ok ==> Failed(c, action.State(), argv[..])
    ensures ok ==> 1 <= moved <= 2 && i + moved <= |c.words| && q.kept == p.kept
    ensures ok ==> Midway(c, argv[..], i + moved, q)
    ensures ok ==> action.State() == c.was.Accept(q.done)
  {
    hide Midway; hide Failed; hide Coherent; hide Moved; hide Word; hide Action.State;
    q := p;
    MidwayOption(c, argv[..], i, p);
    assert c.parse(c.words[i], next) == Word(table, c.words[i], next);
    if Fails(c, i, p) {
      FailedHere(c, argv[..], i, p);
    }
    ok, moved := OptionStep(table, argv, i, nonops, argv[i].value, next, action, c.was.Accept(p.done));
    if ok {
      q := Place(p.done + c.WordAt(i).options, p.front + c.words[i..i + moved], p.kept);
    }
  }

  datatype Progress = GoOn | Finish | Abort

  /** One round of the loop over the words. */
  method PassRound(table: Table, argc: int, argv: array<Maybe<string>>, i: nat, nonops: nat, numargs: int, gnu: bool, action: Action,
                   ghost c: Course, ghost p: Place)
    returns (progress: Progress, i': nat, nonops': nat, numargs': int, ghost q: Place)
    requires gnu == c.gnu && Follows(c.parse, table) && Coherent(c.parse) && Bounded(c.words, c.beyond, argc)
    requires argv !in action.Footprint() && action.State() == c.was.Accept(p.done) && c.was.valid && action.Covers(table.usage)
    requires Midway(c, argv[..], i, p) && |p.kept| == nonops && numargs == Numargs(argc, i)
    modifies argv, action.Footprint()
    ensures progress == Abort ==> Failed(c, action.State(), argv[..])
    ensures progress == Finish ==> Ended(c, argv[..], i', q)
    ensures progress == GoOn ==> Midway(c, argv[..], i', q) && i < i' <= |c.words|
    ensures progress != Abort ==> action.State() == c.was.Accept(q.done) && |q.kept| == nonops' && numargs' == Numargs(argc, i')
  {
    hide Midway; hide Ended; hide Failed; hide Coherent; hide Follows; hide Rotated; hide Bounded; hide Action.State;
    i', nonops', numargs', q := i, nonops, numargs, p;
    MidwayNext(c, argv[..], i, p, argc);
    if numargs == 0 || argv[i].Nothing? {
      EndedAtEnd(c, argv[..], i, p);
      progress := Finish;
    } else if NonOption(argv[i].value) {
      if gnu {
        MidwayNonOption(c, argv[..], i, p);
        q := p.(kept := p.kept + [c.words[i]]);
        nonops', i' := nonops + 1, i + 1;
        numargs' := if numargs > 0 then numargs - 1 else numargs;
        progress := GoOn;
      } else {
        EndedAtEnd(c, argv[..], i, p);
        progress := Finish;
      }
    } else if argv[i].value == TERMINATOR {
      EndedAtTerminator(c, argv[..], i, p);
      q := p.(front := p.front + [c.words[i]]);
      Shift(argv, i, nonops);
      i' := i + 1;
      numargs' := if numargs > 0 then numargs - 1 else numargs;
      progress := Finish;
    } else {
      var next := if numargs > 1 || numargs < 0 then argv[i + 1] else Nothing;
      var ok, moved;
      ok, moved, q := PassOption(table, argv, i, nonops, next, action, c, p);
      if ok {
        i' := i + moved;
        numargs' := if numargs > 0 then numargs - moved else numargs;
      }
      progress := if ok then GoOn else Abort;
    }
  }

  /** The loop over the words. */
  method PassWords(gnu: bool, table: Table, argc: int, argv: array<Maybe<string>>, action: Action, ghost c: Course)
    returns (ok: bool, i: nat, nonops: nat, numargs: int, ghost p: Place)
    requires gnu == c.gnu && Follows(c.parse, table) && Coherent(c.parse)
    requires argv !in action.Footprint() && action.State() == c.was && c.was.valid && action.Covers(table.usage)
    requires argv[..] == Filled(c.words) + c.beyond && Bounded(c.words, c.beyond, argc)
    requires Enough(|c.Result().options|, c.was.room, c.was.slots)
    modifies argv, action.Footprint()
    ensures !ok ==> Failed(c, action.State(), argv[..])
    ensures ok ==> Ended(c, argv[..], i, p) && |p.kept| == nonops
    ensures ok ==> action.State() == c.was.Accept(p.done) && numargs == Numargs(argc, i)
  {
    hide Midway; hide Ended; hide Failed; hide Coherent; hide Follows; hide Scan; hide Action.State;
    i, nonops, numargs, p := 0, 0, argc, Place([], [], []);
    MidwayStart(c);
    var progress := GoOn;
    while progress == GoOn
      invariant progress == GoOn ==> Midway(c, argv[..], i, p) && i <= |c.words|
      invariant progress == Finish ==> Ended(c, argv[..], i, p)
      invariant progress == Abort ==> Failed(c, action.State(), argv[..])
      invariant progress != Abort ==> action.State() == c.was.Accept(p.done) && |p.kept| == nonops && numargs == Numargs(argc, i)
      decreases progress == GoOn, |c.words| - i
    {
      progress, i, nonops, numargs, p := PassRound(table, argc, argv, i, nonops, numargs, gnu, action, c, p);
    }
    ok := progress == Finish;
  }

  // ---------------------------------------------------------------- the whole pass

  /** The number of non-options a pass reports: `argc` counts words beyond the vector's end when the pass stops early. */
  function Reported(argc: int, words: seq<string>, r: ScanResult): int {
    |r.back| + if argc > |words| && r.tail != [] then argc - |words| else 0
  }

  ghost function WordsOf(argv: Vector, argc: int): seq<string>
    reads argv
  {
    if argv == null then [] else Words(argv[..], argc)
  }

  ghost predicate ProperArguments(argv: Vector, argc: int)
    reads argv
  {
    argv != null ==> ProperVector(argv[..], argc)
  }

  /** The words of a proper vector end at a NULL, or there are exactly `argc` of them. */
  lemma WordsEnd(v: seq<Maybe<string>>, argc: int)
    requires ProperVector(v, argc)
    ensures |Words(v, argc)| == argc || (|Words(v, argc)| < |v| && v[|Words(v, argc)|].Nothing?)
  {
  }

  lemma SplitVector(v: seq<Maybe<string>>, argc: int)
    requires ProperVector(v, argc)
    ensures var words := Words(v, argc); v == Filled(words) + v[|words|..] && Bounded(words, v[|words|..], argc)
  {
    WordsEnd(v, argc);
  }

  /** What the state of the action is after the whole pass. */
  ghost function After(action: Action, was: Standing, ok: bool, argc: int, argv: Vector, words: seq<string>, r: ScanResult): Standing {
    var now := was.Accept(Accepted(r.options, was.room));
    if ok && action.Storing? && Reported(argc, words, r) > 0 then now.(aside := (Reported(argc, words, r), argv, |r.front|)) else now
  }

  /** The vector after a pass: what it leaves of the words, and everything behind them. */
  ghost function VectorAfter(gnu: bool, parse: WordParser, v: seq<Maybe<string>>, words: seq<string>, room: int): seq<Maybe<string>>
    requires |words| <= |v|
  {
    var h := Left(gnu, parse, words, room);
    Filled(h.front + h.back) + v[|words|..]
  }

  /** What the end of the loop means for the action and the vector. */
  lemma EndedMeans(c: Course, v: seq<Maybe<string>>, i: nat, p: Place)
    requires Ended(c, v, i, p)
    ensures var r, h := c.Result(), c.Leaves();
            && r.ok && r.options == p.done && Fits(|p.done|, c.was.room) && Accepted(p.done, c.was.room) == p.done
            && v == Filled(h.front + h.back) + c.beyond && |r.front| == i - |p.kept| == |p.front|
  {
    hide Scan; hide Left;
    LeftFits(c.gnu, c.parse, c.words, c.was.room);
    Regroup(p.front, p.kept, c.words[i..]);
  }

  /** What it means for the count of the words not looked at. */
  lemma EndedCounts(c: Course, v: seq<Maybe<string>>, i: nat, p: Place, argc: int)
    requires Ended(c, v, i, p) && Bounded(c.words, c.beyond, argc)
    ensures var numargs, n := Numargs(argc, i), |c.words|;
            && i <= n <= |v| && (forall j :: i <= j < n ==> v[j].Just?)
            && (numargs > 0 ==> i < |v| && (v[i].Nothing? <==> i == n))
            && (numargs < 0 ==> n < |v| && v[n].Nothing?)
            && |p.kept| + (if numargs < 0 then n - i else if numargs > 0 && i == n then 0 else numargs) == Reported(argc, c.words, c.Result())
  {
    hide Scan;
    var all := p.front + p.kept + c.words[i..];
    assert |all| == |c.words| && forall j :: i <= j < |c.words| ==> all[j] == c.words[j];
  }

  /** The end of a pass: the rest is counted and the action told. */
  method FinishPass(argc: int, argv: array<Maybe<string>>, i: nat, nonops: nat, numargs: int, action: Action, ghost c: Course, ghost p: Place)
    returns (ok: bool)
    requires Ended(c, argv[..], i, p) && Bounded(c.words, c.beyond, argc) && |p.kept| == nonops && numargs == Numargs(argc, i)
    requires action.State() == c.was.Accept(p.done) && c.was.valid
    modifies action.Footprint()
    ensures ok && action.State() == After(action, c.was, true, argc, argv, c.words, c.Result())
  {
    hide Ended; hide Bounded; hide Scan; hide Left; hide Accepted; hide Reported; hide Action.State;
    EndedMeans(c, argv[..], i, p);
    EndedCounts(c, argv[..], i, p, argc);
    var rest := CountRest(argv, i, numargs, |c.words|);
    ok := action.Finished(rest + nonops, argv, i - nonops);
  }

  /** A pass over a vector that is not NULL. */
  method PassVector(gnu: bool, table: Table, argc: int, argv: array<Maybe<string>>, action: Action, ghost parse: WordParser, ghost was: Standing)
    returns (ok: bool)
    requires Follows(parse, table) && Coherent(parse)
    requires ProperVector(argv[..], argc) && argv !in action.Footprint()
    requires action.State() == was && was.valid && action.Covers(table.usage)
    requires Enough(|Scan(gnu, parse, Words(argv[..], argc)).options|, was.room, was.slots)
    modifies argv, action.Footprint()
    ensures var words := old(Words(argv[..], argc));
            var r := Scan(gnu, parse, words);
            && (ok <==> r.ok && Fits(|r.options|, was.room))
            && action.State() == After(action, was, ok, argc, argv, words, r)
            && argv[..] == VectorAfter(gnu, parse, old(argv[..]), words, was.room)
  {
    hide Scan; hide Left; hide Words; hide Coherent; hide Follows; hide Ended; hide Failed; hide Filled;
    hide Bounded; hide ProperVector; hide Accepted; hide Reported; hide Action.State;
    ghost var v := argv[..];
    SplitVector(v, argc);
    ghost var words := Words(v, argc);
    ghost var c := Course(gnu, parse, words, v[|words|..], was);
    var i, nonops, numargs;
    ghost var p;
    ok, i, nonops, numargs, p := PassWords(gnu, table, argc, argv, action, c);
    if ok {
      EndedMeans(c, argv[..], i, p);
      ok := FinishPass(argc, argv, i, nonops, numargs, action, c, p);
    } else {
      FailedMeans(c, action.State(), argv[..]);
    }
  }

  /** A whole pass: the options, the reordered vector and the non-options, in terms of the words alone. */
  method Pass(gnu: bool, table: Table, argc: int, argv: Vector, action: Action, ghost was: Standing) returns (ok: bool)
    requires ProperArguments(argv, argc) && (argv != null ==> argv !in action.Footprint())
    requires action.State() == was && was.valid && action.Covers(table.usage)
    requires Enough(|Scan(gnu, ParserOf(table), WordsOf(argv, argc)).options|, was.room, was.slots)
    modifies argv, action.Footprint()
    ensures var words := old(WordsOf(argv, argc));
            var r := Scan(gnu, ParserOf(table), words);
            && (ok <==> r.ok && Fits(|r.options|, was.room))
            && action.State() == After(action, was, ok, argc, argv, words, r)
            && (argv != null ==> argv[..] == VectorAfter(gnu, ParserOf(table), old(argv[..]), words, was.room))
  {
    hide Scan; hide Left; hide Words; hide Coherent; hide Follows; hide ParserOf; hide Filled; hide ProperVector;
    hide Accepted; hide Reported; hide VectorAfter;
    if argv == null {
      ok := action.Finished(0, null, 0);
      PassNothing(gnu, ParserOf(table), was, argc);
    } else {
      ParserFollows(table);
      ok := PassVector(gnu, table, argc, argv, action, ParserOf(table), was);
    }
  }

  /** The number of arguments left at `i`: corrected if the vector ends there, counted if not given. */
  method CountRest(argv: array<Maybe<string>>, i: nat, numargs: int, ghost end: nat) returns (count: int)
    requires i <= end && (forall j :: i <= j < end && j < argv.Length ==> argv[j].Just?)
    requires numargs > 0 ==> i < argv.Length && (argv[i].Nothing? <==> i == end)
    requires numargs < 0 ==> end < argv.Length && argv[end].Nothing?
    ensures count == if numargs < 0 then end - i else if numargs > 0 && i == end then 0 else numargs
  {
    count := numargs;
    if numargs > 0 && argv[i].Nothing? {
      count := 0;
    }
    if numargs < 0 {
      count := 0;
      while argv[i + count].Just?
        invariant 0 <= count <= end - i
        decreases end - count
      {
        count := count + 1;
      }
    }
  }

  lemma PassNothing(gnu: bool, parse: WordParser, was: Standing, argc: int)
    ensures var r := Scan(gnu, parse, []);
            r.ok && Fits(|r.options|, was.room) && was.Accept(Accepted(r.options, was.room)) == was && Reported(argc, [], r) == 0
  {
  }

  lemma FailedMeans(c: Course, now: Standing, v: seq<Maybe<string>>)
    requires Failed(c, now, v)
    ensures var r, h := c.Result(), c.Leaves();
            && !(r.ok && Fits(|r.options|, c.was.room))
            && now == c.was.Accept(Accepted(r.options, c.was.room))
            && v == Filled(h.front + h.back) + c.beyond
  {
  }

  lemma ParserFollows(table: Table)
    ensures Follows(ParserOf(table), table) && Coherent(ParserOf(table))
  {
    ParserCoherent(table);
  }

  // ---------------------------------------------------------------- what a pass does to the vector

  lemma {:induction false} FilledCount(a: seq<string>, x: Maybe<string>)
    ensures multiset(Filled(a))[x] == if x.Just? then multiset(a)[x.value] else 0
  {
    if a != [] {
      var k := |a| - 1;
      FilledCount(a[..k], x);
      assert a == a[..k] + [a[k]];
      assert Filled(a) == Filled(a[..k]) + [Just(a[k])];
    }
  }

  lemma FilledPermutes(a: seq<string>, b: seq<string>)
    requires multiset(a) == multiset(b)
    ensures multiset(Filled(a)) == multiset(Filled(b))
  {
    forall x: Maybe<string>
      ensures multiset(Filled(a))[x] == multiset(Filled(b))[x]
    {
      FilledCount(a, x);
      FilledCount(b, x);
    }
  }

  /** No pass, whether it succeeds, aborts or is refused an option, loses or duplicates an argument; without the gnu flag none moves. */
  lemma PassPermutes(gnu: bool, parse: WordParser, v: seq<Maybe<string>>, argc: int, room: int)
    requires ProperVector(v, argc)
    ensures var after := VectorAfter(gnu, parse, v, Words(v, argc), room);
            multiset(after) == multiset(v) && |after| == |v| && (!gnu ==> after == v)
  {
    hide Left; hide Words;
    var words := Words(v, argc);
    var h := Left(gnu, parse, words, room);
    SplitVector(v, argc);
    LeftPermutes(gnu, parse, words, room);
    FilledPermutes(h.front + h.back, words);
  }

  /** When nothing is refused, the vector holds the front and the back of the pass. */
  lemma PassArranges(gnu: bool, parse: WordParser, v: seq<Maybe<string>>, words: seq<string>, room: int)
    requires |words| <= |v| && Fits(|Scan(gnu, parse, words).options|, room)
    ensures var r := Scan(gnu, parse, words); VectorAfter(gnu, parse, v, words, room) == Filled(r.front + r.back) + v[|words|..]
  {
    LeftFits(gnu, parse, words, room);
  }
}
