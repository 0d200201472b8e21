/**
 What a single word of the argument vector comes to: the options in it, and whether the last
 of them consumes the word that follows.
 */
module WordSyntax {
  import opened Common
  import opened OptionSyntax

  /** A usage table with the two settings that change how long options are recognised. */
  datatype Table = Table(usage: Usage, singleMinus: bool, minAbbr: int)

  /** An option handed to the action: its descriptor, that descriptor's list index, its name and argument. */
  datatype Parsed = Parsed(desc: nat, index: nat, name: string, arg: Maybe<string>)

  /** The argument an option could take. */
  datatype Candidate = Absent | Attached(text: string) | Separate(text: string) {
    function Arg(): Maybe<string> {
      if Absent? then Nothing else Just(text)
    }
  }

  function Detached(next: Maybe<string>): Candidate {
    if next.Just? then Separate(next.value) else Absent
  }

  // ---------------------------------------------------------------- one option

  datatype Step = Dropped | Fatal | Performed(option: Parsed, accepted: bool)

  /** Checks one option; an unknown one goes to the dummy descriptor, or is dropped when there is none. */
  function Check(usage: Usage, idx: nat, name: string, cand: Candidate): Step {
    var d := if idx < |usage| then idx else DummyLookup(usage);
    if d == |usage| then Dropped
    else match usage[d].check(name, cand.Arg())
      case ArgIllegal => Fatal
      case ArgOk => Performed(Parsed(d, usage[d].index, name, cand.Arg()), true)
      case _ => Performed(Parsed(d, usage[d].index, name, Nothing), false)
  }

  // ---------------------------------------------------------------- one word

  /** What the options in one word come to; `took` says the following word was consumed as an argument. */
  datatype WordResult = WordResult(options: seq<Parsed>, took: bool, ok: bool) {
    function Prepend(o: seq<Parsed>): WordResult {
      this.(options := o + options)
    }
  }

  /** The short options of `w` from position `p` on. */
  function Group(usage: Usage, w: string, p: nat, next: Maybe<string>): WordResult
    requires p <= |w|
    decreases |w| - p
  {
    if p == |w| then WordResult([], false, true)
    else
      var cand := if p + 1 == |w| then Detached(next) else Attached(w[p + 1..]);
      match Check(usage, ShortLookup(usage, w[p]), w[p..], cand)
      case Dropped => Group(usage, w, p + 1, next)
      case Fatal => WordResult([], false, false)
      case Performed(o, accepted) =>
        if accepted then WordResult([o], cand.Separate?, true)
        else Group(usage, w, p + 1, next).Prepend([o])
  }

  /** The argument of a long option: what follows the first '=' of its name, else the next word. */
  function LongCandidate(name: string, next: Maybe<string>): Candidate {
    var eq := FindFrom(name, 0, c => c == '=');
    if eq < |name| then Attached(name[eq + 1..]) else Detached(next)
  }

  function LongWord(usage: Usage, idx: nat, w: string, cand: Candidate): WordResult {
    match Check(usage, idx, w, cand)
    case Dropped => WordResult([], false, true)
    case Fatal => WordResult([], false, false)
    case Performed(o, accepted) => WordResult([o], accepted && cand.Separate?, true)
  }

  predicate NonOption(w: string) {
    w == "" || w[0] != '-' || |w| == 1
  }

  const TERMINATOR := "--"

  predicate OptionWord(w: string) {
    !NonOption(w) && w != TERMINATOR
  }

  function Word(table: Table, w: string, next: Maybe<string>): WordResult {
    var usage := table.usage;
    if !OptionWord(w) then WordResult([], false, true)
    else if w[1] == '-' then
      LongWord(usage, LongLookup(usage, w[2..], table.minAbbr), w, LongCandidate(w[2..], next))
    else
      var idx := LongLookup(usage, w[1..], table.minAbbr);
      if table.singleMinus && idx < |usage| then LongWord(usage, idx, w, LongCandidate(w[1..], next))
      else Group(usage, w, 1, next)
  }

  /** How words parse under a table. A whole pass depends on the table only through this. */
  type WordParser = (string, Maybe<string>) -> WordResult

  function ParserOf(table: Table): WordParser {
    (w: string, next: Maybe<string>) => Word(table, w, next)
  }

  // ---------------------------------------------------------------- candidates left alone

  /** The word parses without consuming the candidate `next`. */
  predicate Leaves(parse: WordParser, w: string, next: Maybe<string>) {
    parse(w, next).ok && !parse(w, next).took
  }

  /** Names the candidates that a proof compares; the laws below are instantiated where it is mentioned. */
  ghost predicate Compare(w: string, a: Maybe<string>, b: Maybe<string>) {
    true
  }

  /** A candidate that is taken exists and belongs to an option of a word that parses. */
  ghost predicate TakesWhatIsThere(m: WordResult, next: Maybe<string>) {
    m.took ==> next.Just? && m.ok && m.options != []
  }

  /** A candidate that is left alone leaves no trace; one that is taken exists and shows in the last option. */
  ghost predicate Coherent(parse: WordParser) {
    forall w: string, a: Maybe<string>, b: Maybe<string> {:trigger Compare(w, a, b)} ::
      && TakesWhatIsThere(parse(w, b), b)
      && (Leaves(parse, w, a) && parse(w, b).ok ==>
            if parse(w, b).took then Diverge(parse(w, a).options, parse(w, b).options) else parse(w, a) == parse(w, b))
  }

  /** Equally long, with different last elements. */
  ghost predicate Diverge(m: seq<Parsed>, n: seq<Parsed>) {
    |m| == |n| > 0 && m[|m| - 1] != n[|n| - 1]
  }

  lemma {:induction false} GroupCoherent(usage: Usage, w: string, p: nat, a: Maybe<string>, b: Maybe<string>)
    requires p <= |w|
    requires Group(usage, w, p, a).ok && !Group(usage, w, p, a).took && Group(usage, w, p, b).ok
    ensures var m, n := Group(usage, w, p, a), Group(usage, w, p, b);
            if n.took then b.Just? && Diverge(m.options, n.options) else m == n
    decreases |w| - p
  {
    hide ShortLookup;
    if p + 1 < |w| {
      hide Check;
      var step := Check(usage, ShortLookup(usage, w[p]), w[p..], Attached(w[p + 1..]));
      if step.Dropped? || (step.Performed? && !step.accepted) {
        GroupCoherent(usage, w, p + 1, a, b);
      }
    }
  }

  lemma {:induction false} GroupTakesWhatIsThere(usage: Usage, w: string, p: nat, next: Maybe<string>)
    requires p <= |w|
    ensures TakesWhatIsThere(Group(usage, w, p, next), next)
    decreases |w| - p
  {
    if p < |w| {
      GroupTakesWhatIsThere(usage, w, p + 1, next);
    }
  }

  lemma LongCoherent(usage: Usage, idx: nat, w: string, name: string, a: Maybe<string>, b: Maybe<string>)
    ensures var m, n := LongWord(usage, idx, w, LongCandidate(name, a)), LongWord(usage, idx, w, LongCandidate(name, b));
            && TakesWhatIsThere(n, b)
            && (m.ok && !m.took && n.ok ==> if n.took then Diverge(m.options, n.options) else m == n)
  {
  }

  lemma ParserCoherent(table: Table)
    ensures Coherent(ParserOf(table))
  {
    var parse := ParserOf(table);
    forall w: string, a: Maybe<string>, b: Maybe<string>
      ensures TakesWhatIsThere(parse(w, b), b)
      ensures Leaves(parse, w, a) && parse(w, b).ok ==>
                if parse(w, b).took then Diverge(parse(w, a).options, parse(w, b).options) else parse(w, a) == parse(w, b)
    {
      WordCoherent(table, w, a, b);
      assert parse(w, a) == Word(table, w, a) && parse(w, b) == Word(table, w, b);
    }
  }

  lemma WordCoherent(table: Table, w: string, a: Maybe<string>, b: Maybe<string>)
    ensures var m, n := Word(table, w, a), Word(table, w, b);
            && TakesWhatIsThere(n, b)
            && (m.ok && !m.took && n.ok ==> if n.took then Diverge(m.options, n.options) else m == n)
  {
    if OptionWord(w) {
      if w[1] == '-' {
        LongCoherent(table.usage, LongLookup(table.usage, w[2..], table.minAbbr), w, w[2..], a, b);
      } else {
        LongCoherent(table.usage, LongLookup(table.usage, w[1..], table.minAbbr), w, w[1..], a, b);
        GroupTakesWhatIsThere(table.usage, w, 1, b);
        var m, n := Group(table.usage, w, 1, a), Group(table.usage, w, 1, b);
        if m.ok && !m.took && n.ok {
          GroupCoherent(table.usage, w, 1, a, b);
        }
      }
    }
  }

  // ---------------------------------------------------------------- candidates turned down

  /** A word that takes one candidate and another one too performs as many options; one whose last option fails on it performs all but that. */
  ghost predicate Even(parse: WordParser) {
    forall w: string, a: Maybe<string>, b: Maybe<string> {:trigger Compare(w, a, b)} :: EvenResults(parse(w, a), parse(w, b))
  }

  ghost predicate EvenResults(m: WordResult, n: WordResult) {
    m.took ==> (n.took ==> |n.options| == |m.options|) && (!n.ok ==> |n.options| + 1 == |m.options|)
  }

  lemma {:induction false} GroupEven(usage: Usage, w: string, p: nat, a: Maybe<string>, b: Maybe<string>)
    requires p <= |w|
    ensures EvenResults(Group(usage, w, p, a), Group(usage, w, p, b))
    decreases |w| - p
  {
    hide ShortLookup;
    if p + 1 < |w| {
      hide Check;
      GroupEven(usage, w, p + 1, a, b);
    } else if p < |w| {
      GroupEnd(usage, w, a);
      GroupEnd(usage, w, b);
    }
  }

  lemma GroupEnd(usage: Usage, w: string, next: Maybe<string>)
    ensures Group(usage, w, |w|, next) == WordResult([], false, true)
  {
  }

  lemma ParserEven(table: Table)
    ensures Even(ParserOf(table))
  {
    var parse := ParserOf(table);
    forall w: string, a: Maybe<string>, b: Maybe<string>
      ensures EvenResults(parse(w, a), parse(w, b))
    {
      WordEven(table, w, a, b);
    }
  }

  lemma LongEven(usage: Usage, idx: nat, w: string, name: string, a: Maybe<string>, b: Maybe<string>)
    ensures EvenResults(LongWord(usage, idx, w, LongCandidate(name, a)), LongWord(usage, idx, w, LongCandidate(name, b)))
  {
  }

  lemma WordEven(table: Table, w: string, a: Maybe<string>, b: Maybe<string>)
    ensures EvenResults(Word(table, w, a), Word(table, w, b))
  {
    hide LongLookup; hide LongWord; hide Group;
    if OptionWord(w) {
      LongEven(table.usage, LongLookup(table.usage, w[1..], table.minAbbr), w, w[1..], a, b);
      LongEven(table.usage, LongLookup(table.usage, w[2..], table.minAbbr), w, w[2..], a, b);
      GroupEven(table.usage, w, 1, a, b);
    }
  }
}
