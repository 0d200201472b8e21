/**
 What the parser does with each option it recognises. A first pass counts them (Stats), a
 second stores them (Parser); both are actions that a pass performs option by option.
 */
module OptionStore {
  import opened Common
  import opened OptionSyntax
  import opened WordSyntax
  import opened ArgPass
  import opened OptionLists

  const INT_MAX := 0x7fffffff

  // ---------------------------------------------------------------- storing one more option

  lemma OccurrencesSnoc(log: seq<Parsed>, o: Parsed, k: nat)
    ensures Occurrences(log + [o], k) == Occurrences(log, k) + (if o.index == k then [|log|] else [])
  {
    assert (log + [o])[..|log|] == log;
  }

  lemma ListedSnoc(log: seq<Parsed>, o: Parsed, k: nat)
    ensures Listed(log + [o], k) == Listed(log, k) + (if o.index == k then [o] else [])
  {
    OccurrencesSnoc(log, o, k);
    hide Occurrences;
    Picked(log, o, Occurrences(log, k), o.index == k);
  }

  /** The options at positions of a log, when an option is added to it. */
  lemma Picked(log: seq<Parsed>, o: Parsed, occ: seq<nat>, more: bool)
    requires forall j :: 0 <= j < |occ| ==> occ[j] < |log|
    ensures var now := occ + if more then [|log|] else [];
            seq(|now|, j requires 0 <= j < |now| => (log + [o])[now[j]])
            == seq(|occ|, j requires 0 <= j < |occ| => log[occ[j]]) + if more then [o] else []
  {
  }

  lemma ChainSnoc(log: seq<Parsed>, o: Parsed, k: nat)
    ensures Chain(log + [o], k) == Chain(log, k) + (if o.index == k && Listed(log, k) != [] then [InBuffer(|log|)] else [])
  {
    OccurrencesSnoc(log, o, k);
    hide Occurrences;
    NodesSnoc(Occurrences(log, k), |log|, k);
    assert |Listed(log, k)| == |Occurrences(log, k)|;
  }

  lemma NodesSnoc(occ: seq<nat>, n: nat, k: nat)
    ensures Nodes(occ + [n], k) == Nodes(occ, k) + if occ == [] then [] else [InBuffer(n)]
    ensures occ + [] == occ
  {
    assert (occ + [n])[..|occ|] == occ;
  }

  lemma ChainBelow(log: seq<Parsed>, k: nat, j: nat)
    requires j < |Chain(log, k)|
    ensures Chain(log, k)[j] != InBuffer(|log|)
  {
  }

  lemma ChainDistinct(log: seq<Parsed>, k: nat)
    ensures Distinct(Chain(log, k) + [InBuffer(|log|)])
  {
    var chain := Chain(log, k) + [InBuffer(|log|)];
    forall i, j | 0 <= i < j < |chain|
      ensures chain[i] != chain[j]
    {
      ChainBelow(log, k, i);
      if j < |Chain(log, k)| && chain[i] == chain[j] {
        ListsDisjoint(log, k, k, i, j);
      }
    }
  }

  lemma LinkedFrame(mem: Mem, after: Mem, chain: seq<Ref>)
    requires Linked(mem, chain)
    requires forall j :: 0 <= j < |chain| ==> mem.Has(chain[j]) && after.Has(chain[j]) && after.Get(chain[j]) == mem.Get(chain[j])
    ensures Linked(after, chain)
  {
    forall j | 0 <= j < |chain|
      ensures LinkedAt(after, chain, j)
    {
      assert LinkedAt(mem, chain, j);
    }
  }

  lemma NotInOther(log: seq<Parsed>, k: nat, l: nat, j: nat)
    requires k != l && j < |Chain(log, l)|
    ensures Chain(log, l)[j] !in Chain(log, k)
  {
    var chain := Chain(log, k);
    forall i | 0 <= i < |chain|
      ensures chain[i] != Chain(log, l)[j]
    {
      if chain[i] == Chain(log, l)[j] {
        ListsDisjoint(log, k, l, i, j);
      }
    }
  }

  /** The lists of all other indices are untouched. */
  lemma OtherList(mem: Mem, after: Mem, log: seq<Parsed>, o: Parsed, l: nat)
    requires Holds(mem, log) && l < |mem.options| && l != o.index
    requires |after.options| == |mem.options| && |after.buffer| == |mem.buffer|
    requires forall x :: mem.Has(x) && x !in Chain(log, o.index) && x != InBuffer(|log|) ==> after.Get(x) == mem.Get(x)
    ensures HoldsList(after, log + [o], l)
  {
    var chain := Chain(log, l);
    assert HoldsList(mem, log, l);
    ChainSnoc(log, o, l);
    ListedSnoc(log, o, l);
    forall j | 0 <= j < |chain|
      ensures mem.Has(chain[j]) && after.Get(chain[j]) == mem.Get(chain[j])
    {
      assert LinkedAt(mem, chain, j);
      ChainBelow(log, l, j);
      NotInOther(log, o.index, l, j);
    }
    LinkedFrame(mem, after, chain);
    assert after.Get(chain[0]) == mem.Get(chain[0]);
  }

  lemma StoredFirst(mem: Mem, after: Mem, log: seq<Parsed>, o: Parsed)
    requires Holds(mem, log) && |log| < |mem.buffer| && o.index < |mem.options| && Listed(log, o.index) == []
    requires after == mem.Put(InBuffer(|log|), Single(InBuffer(|log|), Just(o))).Put(InOptions(o.index), Single(InOptions(o.index), Just(o)))
    ensures Holds(after, log + [o])
  {
    var k := o.index;
    forall l | 0 <= l < |after.options|
      ensures HoldsList(after, log + [o], l)
    {
      if l != k {
        assert Chain(log, k)[0] == InOptions(k);
        OtherList(mem, after, log, o, l);
      } else {
        ListedSnoc(log, o, k);
        ChainSnoc(log, o, k);
        assert Chain(log, k) == [InOptions(k)];
        assert LinkedAt(after, [InOptions(k)], 0);
      }
    }
  }

  /** The list of the option itself is longer by its last node. */
  lemma OwnList(mem: Mem, mid: Mem, after: Mem, log: seq<Parsed>, o: Parsed)
    requires Holds(mem, log) && |log| < |mem.buffer| && o.index < |mem.options| && Listed(log, o.index) != []
    requires mid == mem.Put(InBuffer(|log|), Single(InBuffer(|log|), Just(o)))
    requires Appended(mid, after, Chain(log, o.index), InBuffer(|log|))
    ensures HoldsList(after, log + [o], o.index)
  {
    var k := o.index;
    assert HoldsList(mem, log, k);
    ListedSnoc(log, o, k);
    ChainSnoc(log, o, k);
    hide Listed; hide Chain; hide Linked;
    assert after.Get(InOptions(k)).option == mid.Get(InOptions(k)).option == mem.Get(InOptions(k)).option;
  }

  lemma StoredNext(mem: Mem, mid: Mem, after: Mem, log: seq<Parsed>, o: Parsed)
    requires Holds(mem, log) && |log| < |mem.buffer| && o.index < |mem.options| && Listed(log, o.index) != []
    requires mid == mem.Put(InBuffer(|log|), Single(InBuffer(|log|), Just(o)))
    requires Appended(mid, after, Chain(log, o.index), InBuffer(|log|))
    ensures Holds(after, log + [o])
  {
    var k, n := o.index, |log|;
    forall l | 0 <= l < |after.options|
      ensures HoldsList(after, log + [o], l)
    {
      if l != k {
        OtherList(mem, after, log, o, l);
      } else {
        OwnList(mem, mid, after, log, o);
      }
    }
    hide HoldsList; hide Linked;
    forall i | 0 <= i < |after.buffer|
      ensures after.buffer[i].option == if i <= n then Just((log + [o])[i]) else Nothing
    {
      assert after.Get(InBuffer(i)).option == mid.Get(InBuffer(i)).option;
    }
  }

  lemma MidLinked(mem: Mem, mid: Mem, log: seq<Parsed>, o: Parsed)
    requires Holds(mem, log) && |log| < |mem.buffer| && o.index < |mem.options|
    requires mid == mem.Put(InBuffer(|log|), Single(InBuffer(|log|), Just(o)))
    ensures Linked(mid, Chain(log, o.index))
  {
    var chain := Chain(log, o.index);
    assert HoldsList(mem, log, o.index);
    forall j | 0 <= j < |chain|
      ensures mem.Has(chain[j]) && mid.Get(chain[j]) == mem.Get(chain[j])
    {
      assert LinkedAt(mem, chain, j);
      ChainBelow(log, o.index, j);
    }
    LinkedFrame(mem, mid, chain);
  }

  /** Copies the option to its buffer slot; the slot joins list `o.index`, or `options[o.index]` becomes its first node. */
  method StoreOption(arrays: OptionArrays, slot: nat, o: Parsed, ghost log: seq<Parsed>)
    requires arrays.options != arrays.buffer && Holds(arrays.Contents(), log)
    requires slot == |log| < arrays.buffer.Length && o.index < arrays.options.Length
    modifies arrays.options, arrays.buffer
    ensures Holds(arrays.Contents(), log + [o])
  {
    var idx := o.index;
    ghost var mem := arrays.Contents();
    assert HoldsList(mem, log, idx);
    arrays.Put(InBuffer(slot), Single(InBuffer(slot), Just(o)));
    ghost var mid := arrays.Contents();
    if arrays.options[idx].option.Just? {
      MidLinked(mem, mid, log, o);
      ChainDistinct(log, idx);
      arrays.Append(InOptions(idx), InBuffer(slot), Chain(log, idx), 0);
      StoredNext(mem, mid, arrays.Contents(), log, o);
    } else {
      arrays.Put(InOptions(idx), Single(InOptions(idx), arrays.buffer[slot].option));
      StoredFirst(mem, arrays.Contents(), log, o);
    }
  }

  // ---------------------------------------------------------------- the parser and its storing action

  /** An argument vector: C strings, NULL being Nothing; the vector itself may be NULL. */
  type Vector = array?<Maybe<string>>

  class Parser {
    var opCount: nat
    var nonopCount: int
    var nonopVector: Vector
    var nonopStart: int
    var err: bool

    constructor ()
      ensures opCount == 0 && nonopCount == 0 && nonopVector == null && !err
    {
      opCount, nonopCount, nonopVector, nonopStart, err := 0, 0, null, 0, false;
    }
  }

  class StoreOptionAction {
    const parser: Parser
    const arrays: OptionArrays
    const bufmax: int
    /** The options in the arrays before and now, and all those this action was given and accepted. */
    ghost const before: seq<Parsed>
    ghost var log: seq<Parsed>
    ghost var seen: seq<Parsed>

    ghost function Footprint(): set<object> {
      {this, parser, arrays.options, arrays.buffer}
    }

    ghost predicate Valid()
      reads Footprint()
    {
      && arrays.options != arrays.buffer
      && Holds(arrays.Contents(), log)
      && bufmax <= arrays.buffer.Length && bufmax <= INT_MAX
      && parser.opCount == Stored(bufmax, |log|) <= INT_MAX
      && log == before + Kept(bufmax, |before|, seen)
    }

    /** Finds the first empty slot of `buffer`; without `bufmax` there has to be one. */
    constructor (parser: Parser, arrays: OptionArrays, bufmax: int, ghost log: seq<Parsed>)
      requires arrays.options != arrays.buffer && Holds(arrays.Contents(), log)
      requires if bufmax < 0 then |log| < arrays.buffer.Length && |log| <= INT_MAX else bufmax <= arrays.buffer.Length && bufmax <= INT_MAX
      modifies parser`opCount
      ensures Valid() && this.parser == parser && this.arrays == arrays && this.bufmax == bufmax
      ensures this.log == before == log && seen == []
      ensures parser.opCount == Stored(bufmax, |log|)
    {
      this.parser, this.arrays, this.bufmax, this.before, this.log, this.seen := parser, arrays, bufmax, log, log, [];
      new;
      var bufidx := 0;
      while (bufmax < 0 || bufidx < bufmax) && arrays.buffer[bufidx].option.Just?
        invariant 0 <= bufidx <= |log| && (bufmax >= 0 ==> bufidx <= bufmax)
        decreases |log| - bufidx
      {
        bufidx := bufidx + 1;
      }
      parser.opCount := bufidx;
    }

    /** Stores the option in the buffer and chains it into its list, unless the buffer is full. */
    method Perform(o: Parsed) returns (ok: bool)
      requires Valid() && o.index < arrays.options.Length
      requires bufmax < 0 && parser.opCount < INT_MAX ==> parser.opCount < arrays.buffer.Length
      modifies this, parser`opCount, arrays.options, arrays.buffer
      ensures Valid()
      ensures ok <==> (bufmax < 0 ==> old(parser.opCount) < 0x7fffffff)
      ensures seen == if ok then old(seen) + [o] else old(seen)
    {
      if bufmax < 0 || parser.opCount < bufmax {
        if parser.opCount == INT_MAX {
          return false;
        }
        StoreOption(arrays, parser.opCount, o, log);
        log := log + [o];
        parser.opCount := parser.opCount + 1;
      }
      KeptSnoc(bufmax, before, seen, o);
      seen := seen + [o];
      return true;
    }

    /** Remembers the non-option arguments, if there are any. */
    method Finished(numargs: int, vector: Vector, start: int) returns (ok: bool)
      modifies parser`nonopCount, parser`nonopVector, parser`nonopStart
      ensures ok
      ensures if numargs > 0 then parser.nonopCount == numargs && parser.nonopVector == vector && parser.nonopStart == start
              else parser.nonopCount == old(parser.nonopCount) && parser.nonopVector == old(parser.nonopVector)
                   && parser.nonopStart == old(parser.nonopStart)
    {
      if numargs > 0 {
        parser.nonopCount, parser.nonopVector, parser.nonopStart := numargs, vector, start;
      }
      return true;
    }
  }

  /** How many of `n` options a parser that may fill `bufmax` slots counts as stored. */
  function Stored(bufmax: int, n: nat): nat {
    if bufmax < 0 then n else Min(n, bufmax)
  }

  /** The options that fit when `n` slots are already taken. */
  function Kept(bufmax: int, n: nat, seen: seq<Parsed>): seq<Parsed> {
    if bufmax < 0 then seen else seen[..Min(|seen|, Max(0, bufmax - n))]
  }

  /** Options are kept in order as long as there is room, and only so long. */
  lemma KeptMeans(bufmax: int, n: nat, seen: seq<Parsed>)
    ensures var kept := Kept(bufmax, n, seen);
            && kept <= seen && (bufmax < 0 ==> kept == seen)
            && (bufmax >= 0 ==> (kept != [] ==> n + |kept| <= bufmax) && (kept == seen || n + |kept| >= bufmax))
  {
  }

  lemma KeptSnoc(bufmax: int, before: seq<Parsed>, seen: seq<Parsed>, o: Parsed)
    ensures var log := before + Kept(bufmax, |before|, seen);
            before + Kept(bufmax, |before|, seen + [o]) == if bufmax < 0 || |log| < bufmax then log + [o] else log
  {
  }

  // ---------------------------------------------------------------- counting

  class Stats {
    var bufferMax: nat
    var optionsMax: nat

    /** One more than necessary, as a sentinel. */
    constructor ()
      ensures bufferMax == 1 && optionsMax == 1
    {
      bufferMax, optionsMax := 1, 1;
    }
  }

  class CountOptionsAction {
    const stats: Stats
    ghost const before: nat
    ghost var seen: seq<Parsed>

    ghost predicate Valid()
      reads this, stats
    {
      stats.bufferMax == before + |seen| <= INT_MAX
    }

    constructor (stats: Stats)
      requires stats.bufferMax <= INT_MAX
      ensures Valid() && this.stats == stats && before == stats.bufferMax && seen == []
    {
      this.stats, this.before, this.seen := stats, stats.bufferMax, [];
    }

    method Perform(o: Parsed) returns (ok: bool)
      requires Valid()
      modifies this, stats`bufferMax
      ensures Valid()
      ensures ok <==> old(stats.bufferMax) < 0x7fffffff
      ensures seen == if ok then old(seen) + [o] else old(seen)
    {
      if stats.bufferMax == INT_MAX {
        return false;
      }
      stats.bufferMax := stats.bufferMax + 1;
      seen := seen + [o];
      return true;
    }
  }

  // ---------------------------------------------------------------- actions

  /**
   Where an action stands: the options it has accepted; how many more it accepts before the
   numbers stop fitting an int; how many more its buffer has slots for (both negative when
   there is no limit); and what only the end of a pass changes.
   */
  datatype Standing = Standing(valid: bool, seen: seq<Parsed>, room: int, slots: int, aside: (int, Vector, int)) {
    ghost function Accept(options: seq<Parsed>): Standing {
      this.(seen := seen + options, room := Less(room, |options|), slots := Less(slots, |options|))
    }
  }

  /** A pass calls one of these two for every option and once at its end. */
  datatype Action = Counting(counter: CountOptionsAction) | Storing(store: StoreOptionAction) {
    ghost function Footprint(): set<object> {
      match this
      case Counting(c) => {c, c.stats}
      case Storing(s) => s.Footprint()
    }

    ghost function State(): Standing
      reads Footprint()
    {
      match this
      case Counting(c) =>
        Standing(c.Valid(), c.seen, INT_MAX - c.stats.bufferMax, -1, (c.stats.optionsMax, null, 0))
      case Storing(s) =>
        var parser := s.parser;
        var unlimited := s.bufmax < 0;
        Standing(s.Valid(), s.seen,
                 if unlimited then INT_MAX - parser.opCount else -1,
                 if unlimited then s.arrays.buffer.Length - parser.opCount else -1,
                 (parser.nonopCount, parser.nonopVector, parser.nonopStart))
    }

    /** There is a list for every index that the usage table mentions. */
    ghost predicate Covers(usage: Usage) {
      Storing? ==> forall i :: 0 <= i < |usage| ==> usage[i].index < store.arrays.options.Length
    }

    method Perform(o: Parsed) returns (ok: bool)
      requires State().valid && (Storing? ==> o.index < store.arrays.options.Length)
      requires State().room != 0 ==> State().slots != 0
      modifies Footprint()
      ensures ok <==> old(State()).room != 0
      ensures State() == if ok then old(State()).Accept([o]) else old(State())
    {
      match this
      case Counting(c) =>
        ok := c.Perform(o);
      case Storing(s) =>
        ok := s.Perform(o);
    }

    method Finished(numargs: int, vector: Vector, start: int) returns (ok: bool)
      requires State().valid
      modifies Footprint()
      ensures ok
      ensures State() == if Storing? && numargs > 0 then old(State()).(aside := (numargs, vector, start)) else old(State())
    {
      match this
      case Counting(_) =>
        ok := true;
      case Storing(s) =>
        ok := s.Finished(numargs, vector, start);
    }
  }

  /** The options accepted when there is room for `room` of them. */
  function Accepted(options: seq<Parsed>, room: int): seq<Parsed> {
    if room < 0 then options else options[..Min(|options|, room)]
  }
}
