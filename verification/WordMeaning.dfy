/**
 What the options of a word are, said descriptor by descriptor and character by character and
 without the functions the parser is modelled with, and that the parser finds exactly these.
 */
module WordMeaning {
  import opened Common
  import opened OptionSyntax
  import opened WordSyntax
  import opened ArgPass

  // ---------------------------------------------------------------- which descriptor, which argument

  /** A short option is the first descriptor's that lists it, else the first unnamed one's. */
  ghost predicate ShortTarget(usage: Usage, c: char, d: nat) {
    || IsFirstWith(usage, c, d)
    || (IsFirstUnnamed(usage, d) && forall i :: 0 <= i < |usage| ==> c !in usage[i].shortopt)
  }

  /** A long name is a descriptor's by exact or unique abbreviated match. */
  ghost predicate LongMatch(table: Table, name: string, d: nat) {
    d < |table.usage| && (IsFirstExact(table.usage, name, d) || IsOnlyAbbreviated(table.usage, name, table.minAbbr, d))
  }

  ghost predicate LongTarget(table: Table, name: string, d: nat) {
    LongMatch(table, name, d) || (IsFirstUnnamed(table.usage, d) && forall e: nat :: !LongMatch(table, name, e))
  }

  /** What descriptor `d` makes of an option and the argument offered to it. */
  ghost predicate Judged(usage: Usage, o: Parsed, d: nat, offered: Maybe<string>) {
    && o.desc == d < |usage| && o.index == usage[d].index && usage[d].check(o.name, offered) != ArgIllegal
    && o.arg == if usage[d].check(o.name, offered) == ArgOk then offered else Nothing
  }

  /** A short option is offered the rest of its word, or the next word if there is no rest. */
  function ShortOffer(w: string, p: nat, next: Maybe<string>): Maybe<string> {
    if p + 1 < |w| then Just(w[p + 1..]) else next
  }

  /** `o` is the option at character `p` of the group `w`. */
  ghost predicate ShortOption(usage: Usage, w: string, p: nat, next: Maybe<string>, o: Parsed) {
    p < |w| && o.name == w[p..] && ShortTarget(usage, w[p], o.desc) && Judged(usage, o, o.desc, ShortOffer(w, p, next))
  }

  ghost predicate FirstEquals(name: string, k: nat) {
    k < |name| && name[k] == '=' && forall i :: 0 <= i < k ==> name[i] != '='
  }

  /** A long option is offered what follows the first `=`, or the next word if there is none. */
  ghost predicate LongOffer(name: string, next: Maybe<string>, offered: Maybe<string>) {
    if '=' in name then exists k: nat :: FirstEquals(name, k) && offered == Just(name[k + 1..]) else offered == next
  }

  ghost predicate Accepts(usage: Usage, o: Parsed, offered: Maybe<string>) {
    o.desc < |usage| && usage[o.desc].check(o.name, offered) == ArgOk
  }

  // ---------------------------------------------------------------- a group of short options

  /** Neither listed by a descriptor nor collected by an unnamed one. */
  ghost predicate NobodysOption(usage: Usage, c: char) {
    forall d: nat :: !ShortTarget(usage, c, d)
  }

  ghost predicate IllegalAt(usage: Usage, w: string, p: nat, next: Maybe<string>) {
    p < |w| && exists d: nat :: ShortTarget(usage, w[p], d) && usage[d].check(w[p..], ShortOffer(w, p, next)) == ArgIllegal
  }

  /**
   The options of `m` are those at the characters `at` of the group, and all the other characters
   before `end` are nobody's. The group ends behind the first option that accepts an argument, or
   at an option whose argument is illegal, or with the word.
   */
  ghost predicate Reads(usage: Usage, w: string, p: nat, next: Maybe<string>, m: WordResult, at: seq<nat>, end: nat) {
    && p <= end <= |w| && |at| == |m.options|
    && (forall i :: 0 <= i < |at| ==> p <= at[i] < end && ShortOption(usage, w, at[i], next, m.options[i]))
    && (forall i, j :: 0 <= i < j < |at| ==> at[i] < at[j])
    && (forall q :: p <= q < end && q !in at ==> NobodysOption(usage, w[q]))
    && (forall i :: 0 <= i < |at| && Accepts(usage, m.options[i], ShortOffer(w, at[i], next)) ==> i == |at| - 1 && at[i] == end - 1)
    && if at != [] && Accepts(usage, m.options[|at| - 1], ShortOffer(w, at[|at| - 1], next))
       then m.ok && m.took == (end == |w| && next.Just?)
       else !m.took && if m.ok then end == |w| else IllegalAt(usage, w, end, next)
  }

  lemma TargetIs(usage: Usage, c: char, d: nat)
    ensures ShortTarget(usage, c, d)
            <==> d < |usage| && d == if ShortLookup(usage, c) < |usage| then ShortLookup(usage, c) else DummyLookup(usage)
  {
    ShortNameResolution(usage, c, d);
    DummyResolution(usage, d);
    hide ShortLookup; hide DummyLookup;
  }

  lemma NobodyIs(usage: Usage, c: char)
    ensures NobodysOption(usage, c) <==> ShortLookup(usage, c) == |usage| && DummyLookup(usage) == |usage|
  {
    hide ShortTarget; hide ShortLookup; hide DummyLookup;
    forall d: nat
      ensures ShortTarget(usage, c, d)
              <==> d < |usage| && d == if ShortLookup(usage, c) < |usage| then ShortLookup(usage, c) else DummyLookup(usage)
    {
      TargetIs(usage, c, d);
    }
    var d := if ShortLookup(usage, c) < |usage| then ShortLookup(usage, c) else DummyLookup(usage);
    assert ShortTarget(usage, c, d) <==> d < |usage|;
  }

  function GroupCandidate(w: string, p: nat, next: Maybe<string>): Candidate
    requires p < |w|
  {
    if p + 1 == |w| then Detached(next) else Attached(w[p + 1..])
  }

  /** One character: what checking it comes to. */
  lemma CheckedAt(usage: Usage, w: string, p: nat, next: Maybe<string>)
    requires p < |w|
    ensures var cand := GroupCandidate(w, p, next);
            && cand.Arg() == ShortOffer(w, p, next) && (cand.Separate? <==> p + 1 == |w| && next.Just?)
            && match Check(usage, ShortLookup(usage, w[p]), w[p..], cand)
               case Dropped => NobodysOption(usage, w[p])
               case Fatal => IllegalAt(usage, w, p, next)
               case Performed(o, accepted) => ShortOption(usage, w, p, next, o) && accepted == Accepts(usage, o, ShortOffer(w, p, next))
  {
    var found := ShortLookup(usage, w[p]);
    var d := if found < |usage| then found else DummyLookup(usage);
    TargetIs(usage, w[p], d);
    NobodyIs(usage, w[p]);
    hide ShortLookup; hide DummyLookup; hide ShortTarget; hide NobodysOption;
  }

  lemma GroupStep(usage: Usage, w: string, p: nat, next: Maybe<string>)
    requires p < |w|
    ensures var cand := GroupCandidate(w, p, next);
            Group(usage, w, p, next)
            == match Check(usage, ShortLookup(usage, w[p]), w[p..], cand)
               case Dropped => Group(usage, w, p + 1, next)
               case Fatal => WordResult([], false, false)
               case Performed(o, accepted) =>
                 if accepted then WordResult([o], cand.Separate?, true) else Group(usage, w, p + 1, next).Prepend([o])
  {
    hide Check; hide ShortLookup;
  }

  /** The characters before `q` are read: `done` are the options at `at`, none of which accepted an argument. */
  ghost predicate ReadTo(usage: Usage, w: string, p: nat, next: Maybe<string>, done: seq<Parsed>, at: seq<nat>, q: nat) {
    && p <= q <= |w| && |at| == |done|
    && (forall i :: 0 <= i < |at| ==> p <= at[i] < q && ShortOption(usage, w, at[i], next, done[i]))
    && (forall i, j :: 0 <= i < j < |at| ==> at[i] < at[j])
    && (forall c :: p <= c < q && c !in at ==> NobodysOption(usage, w[c]))
    && (forall i :: 0 <= i < |at| ==> !Accepts(usage, done[i], ShortOffer(w, at[i], next)))
  }

  lemma ReadOption(usage: Usage, w: string, p: nat, next: Maybe<string>, done: seq<Parsed>, at: seq<nat>, q: nat, o: Parsed)
    requires ReadTo(usage, w, p, next, done, at, q) && q < |w| && ShortOption(usage, w, q, next, o)
    ensures !Accepts(usage, o, ShortOffer(w, q, next)) ==> ReadTo(usage, w, p, next, done + [o], at + [q], q + 1)
    ensures Accepts(usage, o, ShortOffer(w, q, next)) ==>
              Reads(usage, w, p, next, WordResult(done + [o], q + 1 == |w| && next.Just?, true), at + [q], q + 1)
  {
    hide NobodysOption; hide ShortOption; hide Accepts; hide IllegalAt; hide ShortOffer;
  }

  lemma {:induction false} GroupMeaning(usage: Usage, w: string, p: nat, next: Maybe<string>) returns (at: seq<nat>, end: nat)
    requires p <= |w|
    ensures Reads(usage, w, p, next, Group(usage, w, p, next), at, end)
  {
    hide NobodysOption; hide ShortOption; hide Accepts; hide IllegalAt; hide Group; hide Check; hide ShortLookup; hide ReadTo; hide Reads;
    at, end := [], p;
    var done: seq<Parsed> := [];
    NothingRead(usage, w, p, next);
    NothingBefore(Group(usage, w, p, next).options);
    while end < |w|
      invariant p <= end <= |w| && ReadTo(usage, w, p, next, done, at, end)
      invariant Group(usage, w, p, next) == Group(usage, w, end, next).Prepend(done)
    {
      CheckedAt(usage, w, end, next);
      GroupStep(usage, w, end, next);
      match Check(usage, ShortLookup(usage, w[end]), w[end..], GroupCandidate(w, end, next)) {
        case Dropped =>
          ReadNobodys(usage, w, p, next, done, at, end);
        case Fatal =>
          NothingBefore(done);
          ReadEnds(usage, w, p, next, done, at, end, false);
          return;
        case Performed(o, accepted) =>
          ReadOption(usage, w, p, next, done, at, end, o);
          Regroup(done, [o], Group(usage, w, end + 1, next).options);
          at := at + [end];
          if accepted {
            end := end + 1;
            return;
          }
          done := done + [o];
      }
      end := end + 1;
    }
    GroupEnd(usage, w, next);
    NothingBefore(done);
    ReadEnds(usage, w, p, next, done, at, end, true);
  }

  lemma NothingRead(usage: Usage, w: string, p: nat, next: Maybe<string>)
    requires p <= |w|
    ensures ReadTo(usage, w, p, next, [], [], p)
  {
  }

  lemma ReadNobodys(usage: Usage, w: string, p: nat, next: Maybe<string>, done: seq<Parsed>, at: seq<nat>, q: nat)
    requires ReadTo(usage, w, p, next, done, at, q) && q < |w| && NobodysOption(usage, w[q])
    ensures ReadTo(usage, w, p, next, done, at, q + 1)
  {
    hide NobodysOption; hide ShortOption; hide Accepts;
  }

  lemma ReadEnds(usage: Usage, w: string, p: nat, next: Maybe<string>, done: seq<Parsed>, at: seq<nat>, q: nat, ok: bool)
    requires ReadTo(usage, w, p, next, done, at, q) && if ok then q == |w| else IllegalAt(usage, w, q, next)
    ensures Reads(usage, w, p, next, WordResult(done, false, ok), at, q)
  {
    hide NobodysOption; hide ShortOption; hide Accepts; hide IllegalAt;
  }

  // ---------------------------------------------------------------- a long option

  ghost predicate LongOption(table: Table, w: string, name: string, next: Maybe<string>, o: Parsed) {
    o.name == w && LongTarget(table, name, o.desc) && exists offered :: LongOffer(name, next, offered) && Judged(table.usage, o, o.desc, offered)
  }

  /** `m` is the one option of the word, or nothing if it is nobody's or its argument is illegal. */
  ghost predicate ReadsLong(table: Table, w: string, name: string, next: Maybe<string>, m: WordResult) {
    if forall d: nat :: !LongTarget(table, name, d) then m == WordResult([], false, true)
    else exists d: nat, offered :: LongTarget(table, name, d) && LongOffer(name, next, offered) && ReadsAs(table.usage, w, name, next, d, offered, m)
  }

  ghost predicate ReadsAs(usage: Usage, w: string, name: string, next: Maybe<string>, d: nat, offered: Maybe<string>, m: WordResult) {
    && d < |usage|
    && var verdict := usage[d].check(w, offered);
       if verdict == ArgIllegal then m == WordResult([], false, false)
       else
         && m.ok && m.took == (verdict == ArgOk && '=' !in name && next.Just?)
         && |m.options| == 1 && m.options[0].name == w && Judged(usage, m.options[0], d, offered)
  }

  lemma LongTargetIs(table: Table, name: string, d: nat)
    ensures var found := LongLookup(table.usage, name, table.minAbbr);
            LongTarget(table, name, d) <==> d < |table.usage| && d == if found < |table.usage| then found else DummyLookup(table.usage)
  {
    var found := LongLookup(table.usage, name, table.minAbbr);
    forall e: nat
      ensures LongMatch(table, name, e) <==> e < |table.usage| && e == found
    {
      if e < |table.usage| {
        LongNameResolution(table.usage, name, table.minAbbr, e);
      }
    }
    DummyResolution(table.usage, d);
    hide LongLookup; hide DummyLookup; hide LongMatch;
    assert LongMatch(table, name, found) <==> found < |table.usage|;
  }

  lemma LongOfferIs(name: string, next: Maybe<string>)
    ensures LongOffer(name, next, LongCandidate(name, next).Arg())
    ensures LongCandidate(name, next).Separate? <==> '=' !in name && next.Just?
  {
    var k := FindFrom(name, 0, c => c == '=');
    if k < |name| {
      assert FirstEquals(name, k);
    }
  }

  lemma LongMeaning(table: Table, w: string, name: string, next: Maybe<string>)
    ensures ReadsLong(table, w, name, next, LongWord(table.usage, LongLookup(table.usage, name, table.minAbbr), w, LongCandidate(name, next)))
  {
    var usage, found := table.usage, LongLookup(table.usage, name, table.minAbbr);
    var d, cand := if found < |usage| then found else DummyLookup(usage), LongCandidate(name, next);
    forall e: nat
      ensures LongTarget(table, name, e) <==> e < |usage| && e == d
    {
      LongTargetIs(table, name, e);
    }
    LongOfferIs(name, next);
    hide LongLookup; hide DummyLookup; hide LongTarget; hide LongOffer; hide LongCandidate;
    assert LongTarget(table, name, d) <==> d < |usage|;
    if d < |usage| {
      ReadAs(usage, w, name, next, found, cand);
      hide LongWord; hide ReadsAs;
      assert LongOffer(name, next, cand.Arg());
    }
  }

  lemma ReadAs(usage: Usage, w: string, name: string, next: Maybe<string>, found: nat, cand: Candidate)
    requires cand.Separate? <==> '=' !in name && next.Just?
    ensures var d := if found < |usage| then found else DummyLookup(usage);
            d < |usage| ==> ReadsAs(usage, w, name, next, d, cand.Arg(), LongWord(usage, found, w, cand))
  {
    hide DummyLookup;
  }

  // ---------------------------------------------------------------- a word

  /** How a word that is neither a non-option nor `--` is read. */
  ghost predicate ReadsWord(table: Table, w: string, next: Maybe<string>, m: WordResult)
    requires |w| >= 2
  {
    if w[1] == '-' then ReadsLong(table, w, w[2..], next, m)
    else if table.singleMinus && exists d: nat :: LongMatch(table, w[1..], d) then ReadsLong(table, w, w[1..], next, m)
    else exists at: seq<nat>, end: nat :: Reads(table.usage, w, 1, next, m, at, end)
  }

  lemma WordReads(table: Table, w: string, next: Maybe<string>)
    requires |w| >= 2 && w[0] == '-' && w != "--"
    ensures OptionWord(w) && ReadsWord(table, w, next, Word(table, w, next))
  {
    var name := if w[1] == '-' then w[2..] else w[1..];
    var found := LongLookup(table.usage, name, table.minAbbr);
    LongMeaning(table, w, name, next);
    forall e: nat
      ensures LongMatch(table, name, e) <==> e < |table.usage| && e == found
    {
      if e < |table.usage| {
        LongNameResolution(table.usage, name, table.minAbbr, e);
      }
    }
    hide LongLookup; hide ReadsLong; hide LongMatch; hide Reads; hide Group; hide LongWord; hide LongCandidate;
    var at, end := GroupMeaning(table.usage, w, 1, next);
    if found < |table.usage| {
      assert LongMatch(table, name, found);
    }
  }

  /** The words that are no options: those without a minus in front, and the lone minus. */
  lemma NonOptions(w: string)
    ensures NonOption(w) <==> w == "" || w[0] != '-' || w == "-"
  {
  }

  // ---------------------------------------------------------------- a whole pass

  /** What word `i` contributes: its options if the pass gets to it and it is an option word. */
  ghost function Contribution(gnu: bool, parse: WordParser, words: seq<string>, i: nat): seq<Parsed>
    requires i < |words|
  {
    if Reaches(gnu, parse, words, i) && OptionWord(words[i]) then parse(words[i], Next(words[i..])).options else []
  }

  ghost function Contributions(gnu: bool, parse: WordParser, words: seq<string>, n: nat): seq<Parsed>
    requires n <= |words|
  {
    if n == 0 then [] else Contributions(gnu, parse, words, n - 1) + Contribution(gnu, parse, words, n - 1)
  }

  /** Behind the first `n` words nothing changes when these are taken away. */
  ghost predicate GoesOnAt(gnu: bool, parse: WordParser, words: seq<string>, n: nat) {
    n <= |words| && forall i :: n <= i < |words| ==> (Reaches(gnu, parse, words, i) <==> Reaches(gnu, parse, words[n..], i - n))
  }

  lemma {:induction false} ContributionsBehind(gnu: bool, parse: WordParser, words: seq<string>, n: nat, k: nat)
    requires GoesOnAt(gnu, parse, words, n) && n + k <= |words|
    ensures Contributions(gnu, parse, words, n + k) == Contributions(gnu, parse, words, n) + Contributions(gnu, parse, words[n..], k)
  {
    hide Reaches;
    if k > 0 {
      ContributionsBehind(gnu, parse, words, n, k - 1);
      var i := n + k - 1;
      assert Reaches(gnu, parse, words, i) <==> Reaches(gnu, parse, words[n..], i - n);
      assert words[n..][k - 1] == words[i] && words[n..][k - 1..] == words[i..];
      Regroup(Contributions(gnu, parse, words, n), Contributions(gnu, parse, words[n..], k - 1), Contribution(gnu, parse, words, i));
    }
  }

  /** When the pass ends at the first word, that is all there is. */
  lemma {:induction false} NothingBehind(gnu: bool, parse: WordParser, words: seq<string>, n: nat)
    requires 1 <= n <= |words| && forall i :: 0 < i < |words| ==> !Reaches(gnu, parse, words, i)
    ensures Contributions(gnu, parse, words, n) == Contribution(gnu, parse, words, 0)
  {
    hide Reaches;
    if n > 1 {
      NothingBehind(gnu, parse, words, n - 1);
      assert !Reaches(gnu, parse, words, n - 1);
    } else {
      assert Contributions(gnu, parse, words, 0) == [];
    }
  }

  lemma HeadContributes(gnu: bool, parse: WordParser, words: seq<string>)
    requires words != []
    ensures Contribution(gnu, parse, words, 0) == if OptionWord(words[0]) then parse(words[0], Next(words)).options else []
  {
    assert words[0..] == words;
  }

  lemma OptionContributes(gnu: bool, parse: WordParser, words: seq<string>)
    requires words != [] && OptionWord(words[0]) && parse(words[0], Next(words)).ok
    ensures var n := Used(parse, words);
            GoesOnAt(gnu, parse, words, n) && Contributions(gnu, parse, words, n) == parse(words[0], Next(words)).options
  {
    HeadContributes(gnu, parse, words);
    NothingBefore(Contribution(gnu, parse, words, 0));
    assert Contributions(gnu, parse, words, 1) == Contributions(gnu, parse, words, 0) + Contribution(gnu, parse, words, 0);
    if Used(parse, words) == 2 {
      assert !Reaches(gnu, parse, words, 1);
      assert Contributions(gnu, parse, words, 2) == Contributions(gnu, parse, words, 1) + Contribution(gnu, parse, words, 1);
    }
  }

  lemma NonOptionContributes(parse: WordParser, words: seq<string>)
    requires words != [] && NonOption(words[0])
    ensures GoesOnAt(true, parse, words, 1) && Contributions(true, parse, words, 1) == []
    ensures Scan(true, parse, words).options == Scan(true, parse, words[1..]).options
  {
    assert Contributions(true, parse, words, 1) == Contributions(true, parse, words, 0) + Contribution(true, parse, words, 0);
  }

  lemma EndsAtHead(gnu: bool, parse: WordParser, words: seq<string>)
    requires words != [] && !(gnu && NonOption(words[0])) && (OptionWord(words[0]) ==> !parse(words[0], Next(words)).ok)
    ensures forall i :: 0 < i < |words| ==> !Reaches(gnu, parse, words, i)
    ensures Scan(gnu, parse, words).options == if OptionWord(words[0]) then parse(words[0], Next(words)).options else []
  {
  }

  lemma NothingContributes(gnu: bool, parse: WordParser)
    ensures Scan(gnu, parse, []).options == [] == Contributions(gnu, parse, [], 0)
  {
  }

  /** The options of a pass are those of the option words it gets to, word by word. */
  lemma {:induction false} OptionsInOrder(gnu: bool, parse: WordParser, words: seq<string>)
    ensures Scan(gnu, parse, words).options == Contributions(gnu, parse, words, |words|)
    decreases |words|
  {
    hide Scan; hide Reaches; hide Contribution; hide Contributions; hide GoesOnAt; hide NonOption;
    if words == [] {
      NothingContributes(gnu, parse);
    } else if gnu && NonOption(words[0]) {
      NonOptionContributes(parse, words);
      OptionsInOrder(gnu, parse, words[1..]);
      ContributionsBehind(gnu, parse, words, 1, |words| - 1);
    } else if OptionWord(words[0]) && parse(words[0], Next(words)).ok {
      var n := Used(parse, words);
      OptionContributes(gnu, parse, words);
      ScanOption(gnu, parse, words);
      OptionsInOrder(gnu, parse, words[n..]);
      ContributionsBehind(gnu, parse, words, n, |words| - n);
    } else {
      EndsAtHead(gnu, parse, words);
      HeadContributes(gnu, parse, words);
      NothingBehind(gnu, parse, words, |words|);
    }
  }

  lemma {:induction false} Contributed(gnu: bool, parse: WordParser, words: seq<string>, n: nat, k: nat) returns (i: nat)
    requires n <= |words| && k < |Contributions(gnu, parse, words, n)|
    ensures i < n && Reaches(gnu, parse, words, i) && OptionWord(words[i])
    ensures Contributions(gnu, parse, words, n)[k] in parse(words[i], Next(words[i..])).options
  {
    hide Reaches;
    var before := Contributions(gnu, parse, words, n - 1);
    if k < |before| {
      i := Contributed(gnu, parse, words, n - 1, k);
    } else {
      i := n - 1;
      assert Contributions(gnu, parse, words, n)[k] == Contribution(gnu, parse, words, i)[k - |before|];
    }
  }

  /** `o` is an option of the word `w`, short or long. */
  ghost predicate OptionOf(table: Table, w: string, next: Maybe<string>, o: Parsed)
    requires |w| >= 2
  {
    || (w[1] == '-' && LongOption(table, w, w[2..], next, o))
    || (w[1] != '-' && table.singleMinus && LongOption(table, w, w[1..], next, o))
    || (w[1] != '-' && exists p: nat :: 1 <= p && ShortOption(table.usage, w, p, next, o))
  }

  lemma ReadOptions(table: Table, w: string, next: Maybe<string>, m: WordResult, o: Parsed)
    requires |w| >= 2 && ReadsWord(table, w, next, m) && o in m.options
    ensures OptionOf(table, w, next, o)
  {
    hide LongTarget; hide LongOffer; hide ShortTarget; hide LongMatch; hide NobodysOption; hide IllegalAt;
    if w[1] != '-' && !(table.singleMinus && exists d: nat :: LongMatch(table, w[1..], d)) {
      var at: seq<nat>, end: nat :| Reads(table.usage, w, 1, next, m, at, end);
      var i :| 0 <= i < |m.options| && m.options[i] == o;
      assert ShortOption(table.usage, w, at[i], next, o) && 1 <= at[i];
    }
  }

  /**
   Every option a pass performs comes from an option word it gets to: it belongs to the
   descriptor that lists its character or has its name, and has the argument that this accepts.
   */
  lemma Performed(gnu: bool, table: Table, words: seq<string>, k: nat) returns (i: nat)
    requires k < |Scan(gnu, ParserOf(table), words).options|
    ensures i < |words| && |words[i]| >= 2 && Reaches(gnu, ParserOf(table), words, i)
    ensures OptionOf(table, words[i], Next(words[i..]), Scan(gnu, ParserOf(table), words).options[k])
  {
    hide Scan; hide Reaches; hide Word; hide OptionOf; hide ReadsWord;
    OptionsInOrder(gnu, ParserOf(table), words);
    i := Contributed(gnu, ParserOf(table), words, |words|, k);
    WordReads(table, words[i], Next(words[i..]));
    ReadOptions(table, words[i], Next(words[i..]), Word(table, words[i], Next(words[i..])), Scan(gnu, ParserOf(table), words).options[k]);
  }

  // ---------------------------------------------------------------- optional arguments

  lemma AttachedOptional(c: char, text: string)
    requires c != '-' && text != ""
    ensures OptionalArg([c] + text, Just(text)) == ArgOk
  {
    var name := [c] + text;
    assert name[0] == c && |name| > 1 && !Bare(name);
    var check := OptionalArg;
    assert check(name, Just(text)) == ArgOk;
  }

  /** With the stock check for optional arguments, a short option takes an attached argument and no other. */
  lemma OptionalMustBeAttached(table: Table, c: char, d: nat, text: string, next: Maybe<string>)
    requires !table.singleMinus && c != '-' && IsFirstWith(table.usage, c, d) && table.usage[d].check == OptionalArg
    ensures Word(table, ['-', c], next) == WordResult([Parsed(d, table.usage[d].index, [c], Nothing)], false, true)
    ensures text != "" ==> Word(table, ['-', c] + text, next) == WordResult([Parsed(d, table.usage[d].index, [c] + text, Just(text))], false, true)
  {
    ShortNameResolution(table.usage, c, d);
    hide ShortLookup;
    var bare, joined := ['-', c], ['-', c] + text;
    assert bare[1..] == [c] && joined[1..] == [c] + text && joined[2..] == text;
    GroupEnd(table.usage, bare, next);
    GroupStep(table.usage, bare, 1, next);
    if text != "" {
      AttachedOptional(c, text);
      GroupStep(table.usage, joined, 1, next);
    }
  }
}
