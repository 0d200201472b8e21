/**
 The linked lists of parsed options. A list is circular, its nodes are elements of the arrays
 `options` and `buffer`, and a tag on a link marks the step from the last node back to the
 first (and from the first to the last). The first node of list k is `options[k]`; the others
 live in `buffer`, where every stored option has its own slot in command-line order.
 */
module OptionLists {
  import opened Common
  import opened OptionSyntax
  import opened WordSyntax

  /** The address of a node: a position in one of the two arrays. */
  datatype Ref = InOptions(i: nat) | InBuffer(i: nat)

  /** A pointer whose lowest bit may be set. */
  datatype Link = Link(target: Ref, tagged: bool)

  /** `option` is Nothing for an unused node, that is, one without descriptor. */
  datatype Node = Node(option: Maybe<Parsed>, prev: Link, next: Link)

  datatype Mem = Mem(options: seq<Node>, buffer: seq<Node>) {
    predicate Has(r: Ref) {
      match r
      case InOptions(i) => i < |options|
      case InBuffer(i) => i < |buffer|
    }

    function Get(r: Ref): Node
      requires Has(r)
    {
      match r
      case InOptions(i) => options[i]
      case InBuffer(i) => buffer[i]
    }

    function Put(r: Ref, n: Node): (m: Mem)
      requires Has(r)
      ensures |m.options| == |options| && |m.buffer| == |buffer|
      ensures forall x :: Has(x) ==> m.Has(x) && m.Get(x) == if x == r then n else Get(x)
    {
      match r
      case InOptions(i) => Mem(options[i := n], buffer)
      case InBuffer(i) => Mem(options, buffer[i := n])
    }
  }

  /** A one-element list. */
  function Single(r: Ref, o: Maybe<Parsed>): Node {
    Node(o, Link(r, true), Link(r, true))
  }

  // ---------------------------------------------------------------- the shape of a list

  /** Node `j` of `chain` points to its neighbours, with a tag where the list wraps around. */
  ghost predicate LinkedAt(mem: Mem, chain: seq<Ref>, j: nat)
    requires j < |chain|
  {
    var last := |chain| - 1;
    && mem.Has(chain[j])
    && mem.Get(chain[j]).next == (if j == last then Link(chain[0], true) else Link(chain[j + 1], false))
    && mem.Get(chain[j]).prev == (if j == 0 then Link(chain[last], true) else Link(chain[j - 1], false))
  }

  /** The nodes of `chain` form a circular list in this order, tagged at its ends only. */
  ghost predicate Linked(mem: Mem, chain: seq<Ref>) {
    && chain != [] && mem.Has(chain[0]) && mem.Has(chain[|chain| - 1])
    && forall j :: 0 <= j < |chain| ==> LinkedAt(mem, chain, j)
  }

  /** The positions of the options with list index `k`, in order. */
  function Occurrences(log: seq<Parsed>, k: nat): (occ: seq<nat>)
    ensures forall j :: 0 <= j < |occ| ==> occ[j] < |log| && log[occ[j]].index == k
    ensures forall i, j :: 0 <= i < j < |occ| ==> occ[i] < occ[j]
    ensures forall i :: 0 <= i < |log| && log[i].index == k ==> i in occ
  {
    if log == [] then []
    else
      var n := |log| - 1;
      var occ := Occurrences(log[..n], k);
      if log[n].index == k then occ + [n] else occ
  }

  /** The nodes of a list whose options are at positions `occ` of the buffer. */
  function Nodes(occ: seq<nat>, k: nat): (chain: seq<Ref>)
    ensures |chain| == if occ == [] then 1 else |occ|
    ensures chain[0] == InOptions(k)
    ensures forall j :: 0 < j < |chain| ==> chain[j] == InBuffer(occ[j])
  {
    if |occ| <= 1 then [InOptions(k)] else Nodes(occ[..|occ| - 1], k) + [InBuffer(occ[|occ| - 1])]
  }

  /** The nodes of list `k` once the options `log` are stored. */
  ghost function Chain(log: seq<Parsed>, k: nat): (chain: seq<Ref>)
    ensures chain != [] && chain[0] == InOptions(k)
  {
    Nodes(Occurrences(log, k), k)
  }

  /** The options of list `k`, in command-line order. */
  function Listed(log: seq<Parsed>, k: nat): seq<Parsed> {
    var occ := Occurrences(log, k);
    seq(|occ|, j requires 0 <= j < |occ| => log[occ[j]])
  }

  /** A pointer to the `j`-th option of list `k`, NULL after the last one. */
  ghost function CursorAt(log: seq<Parsed>, k: nat, j: nat): Maybe<Ref> {
    if j < |Listed(log, k)| && j < |Chain(log, k)| then Just(Chain(log, k)[j]) else Nothing
  }

  /** The arrays hold exactly the options `log`: in order in `buffer`, and threaded into one list per index. */
  ghost predicate Holds(mem: Mem, log: seq<Parsed>) {
    && |log| <= |mem.buffer|
    && (forall i :: 0 <= i < |log| ==> log[i].index < |mem.options|)
    && (forall i :: 0 <= i < |mem.buffer| ==> mem.buffer[i].option == if i < |log| then Just(log[i]) else Nothing)
    && (forall k :: 0 <= k < |mem.options| ==> HoldsList(mem, log, k))
  }

  ghost predicate HoldsList(mem: Mem, log: seq<Parsed>, k: nat)
    requires k < |mem.options|
  {
    && mem.options[k].option == (if Listed(log, k) == [] then Nothing else Just(Listed(log, k)[0]))
    && Linked(mem, Chain(log, k))
  }

  /** Node `j` of list `k` holds the option that came `j`-th among those with index `k`. */
  lemma NodeHolds(mem: Mem, log: seq<Parsed>, k: nat, j: nat)
    requires Holds(mem, log) && k < |mem.options| && j < |Listed(log, k)|
    ensures |Chain(log, k)| == |Listed(log, k)| && mem.Has(Chain(log, k)[j])
    ensures mem.Get(Chain(log, k)[j]).option == Just(Listed(log, k)[j])
  {
    assert HoldsList(mem, log, k);
    assert LinkedAt(mem, Chain(log, k), j);
  }

  lemma CursorEnds(log: seq<Parsed>, k: nat, j: nat)
    ensures CursorAt(log, k, j).Just? <==> j < |Listed(log, k)|
  {
  }

  /** No node is in two lists or twice in one. */
  lemma ListsDisjoint(log: seq<Parsed>, k: nat, l: nat, i: nat, j: nat)
    requires i < |Chain(log, k)| && j < |Chain(log, l)| && Chain(log, k)[i] == Chain(log, l)[j]
    ensures k == l && i == j
  {
    var a, b := Occurrences(log, k), Occurrences(log, l);
    if i > 0 {
      assert log[a[i]].index == k && log[b[j]].index == l;
    }
  }

  /** `node` joined the list `chain` at its end, and nothing else changed. */
  ghost predicate Appended(mem: Mem, after: Mem, chain: seq<Ref>, node: Ref) {
    && |after.options| == |mem.options| && |after.buffer| == |mem.buffer|
    && Linked(after, chain + [node])
    && (forall x :: mem.Has(x) ==> after.Get(x).option == mem.Get(x).option)
    && (forall x :: mem.Has(x) && x !in chain && x != node ==> after.Get(x) == mem.Get(x))
  }

  /** What the four assignments of an append make of the memory. */
  ghost function WithLast(mem: Mem, p: Ref, node: Ref, f: Ref): (after: Mem)
    requires mem.Has(p) && mem.Has(node) && mem.Has(f)
  {
    var m1 := mem.Put(p, mem.Get(p).(next := Link(node, false)));
    var m2 := m1.Put(node, m1.Get(node).(prev := Link(p, false), next := Link(f, true)));
    m2.Put(f, m2.Get(f).(prev := Link(node, true)))
  }

  /** Writing a node in two steps is writing it in one. */
  lemma PutTwice(mem: Mem, p: Ref, node: Ref, f: Ref)
    requires mem.Has(p) && mem.Has(node) && mem.Has(f)
    ensures var m1 := mem.Put(p, mem.Get(p).(next := Link(node, false)));
            var m2 := m1.Put(node, m1.Get(node).(prev := Link(p, false)));
            var m3 := m2.Put(node, m2.Get(node).(next := Link(f, true)));
            m3.Put(f, m3.Get(f).(prev := Link(node, true))) == WithLast(mem, p, node, f)
  {
  }

  lemma AppendLinks(mem: Mem, chain: seq<Ref>, node: Ref)
    requires Linked(mem, chain) && Distinct(chain + [node]) && mem.Has(node)
    ensures Appended(mem, WithLast(mem, chain[|chain| - 1], node, chain[0]), chain, node)
  {
    var after := WithLast(mem, chain[|chain| - 1], node, chain[0]);
    var longer := chain + [node];
    assert longer[|chain|] == node && forall j :: 0 <= j < |chain| ==> longer[j] == chain[j];
    forall j | 0 <= j < |longer|
      ensures LinkedAt(after, longer, j)
    {
      assert forall i :: 0 <= i < |longer| && i != j ==> longer[i] != longer[j];
      assert j < |chain| ==> LinkedAt(mem, chain, j);
    }
  }

  lemma FreshHolds(mem: Mem)
    requires forall k :: 0 <= k < |mem.options| ==> mem.options[k] == Single(InOptions(k), Nothing)
    requires forall i :: 0 <= i < |mem.buffer| ==> mem.buffer[i] == Single(InBuffer(i), Nothing)
    ensures Holds(mem, [])
  {
  }

  // ---------------------------------------------------------------- the arrays and the list operations

  class OptionArrays {
    const options: array<Node>
    const buffer: array<Node>

    constructor (optionsMax: nat, bufferMax: nat)
      ensures fresh(this) && fresh(options) && fresh(buffer)
      ensures options.Length == optionsMax && buffer.Length == bufferMax && options != buffer
      ensures Holds(Contents(), [])
    {
      options := new Node[optionsMax](k requires 0 <= k => Single(InOptions(k), Nothing));
      buffer := new Node[bufferMax](i requires 0 <= i => Single(InBuffer(i), Nothing));
      new;
      FreshHolds(Contents());
    }

    ghost function Contents(): Mem
      reads options, buffer
    {
      Mem(options[..], buffer[..])
    }

    function Get(r: Ref): (n: Node)
      reads options, buffer
      requires Contents().Has(r)
      ensures n == Contents().Get(r)
    {
      match r
      case InOptions(i) => options[i]
      case InBuffer(i) => buffer[i]
    }

    method Put(r: Ref, n: Node)
      requires options != buffer && Contents().Has(r)
      modifies options, buffer
      ensures Contents() == old(Contents()).Put(r, n)
    {
      match r
      case InOptions(i) => options[i] := n;
      case InBuffer(i) => buffer[i] := n;
    }

    method First(r: Ref, ghost chain: seq<Ref>, ghost at: nat) returns (f: Ref)
      requires Linked(Contents(), chain) && at < |chain| && chain[at] == r
      ensures f == chain[0]
    {
      f := r;
      ghost var j := at;
      while !Get(f).prev.tagged
        invariant 0 <= j < |chain| && chain[j] == f && LinkedAt(Contents(), chain, j)
        decreases j
      {
        assert LinkedAt(Contents(), chain, j);
        f := Get(f).prev.target;
        j := j - 1;
      }
      assert LinkedAt(Contents(), chain, j);
    }

    method Last(r: Ref, ghost chain: seq<Ref>, ghost at: nat) returns (l: Ref)
      requires Linked(Contents(), chain) && at < |chain| && chain[at] == r
      ensures l == chain[|chain| - 1]
    {
      var f := First(r, chain, at);
      assert LinkedAt(Contents(), chain, 0);
      l := Get(f).prev.target;
    }

    method Next(r: Ref, ghost chain: seq<Ref>, ghost at: nat) returns (n: Maybe<Ref>)
      requires Linked(Contents(), chain) && at < |chain| && chain[at] == r
      ensures n == if at + 1 < |chain| then Just(chain[at + 1]) else Nothing
    {
      assert LinkedAt(Contents(), chain, at);
      var link := Get(r).next;
      n := if link.tagged then Nothing else Just(link.target);
    }

    method Count(r: Ref, ghost chain: seq<Ref>, ghost at: nat) returns (c: nat)
      requires Linked(Contents(), chain) && at < |chain| && chain[at] == r && Contents().Has(r)
      ensures c == (if Get(r).option.Nothing? then 0 else 1) + |chain| - 1
    {
      c := if Get(r).option.Nothing? then 0 else 1;
      var p := First(r, chain, at);
      ghost var j := 0;
      while !Get(p).next.tagged
        invariant 0 <= j < |chain| && chain[j] == p && LinkedAt(Contents(), chain, j)
        invariant c == (if Get(r).option.Nothing? then 0 else 1) + j
        decreases |chain| - j
      {
        assert LinkedAt(Contents(), chain, j);
        c := c + 1;
        p := Get(p).next.target;
        j := j + 1;
      }
      assert LinkedAt(Contents(), chain, j);
    }

    /** Makes `node` the new last node of the list that `r` is in. */
    method Append(r: Ref, node: Ref, ghost chain: seq<Ref>, ghost at: nat)
      requires options != buffer
      requires Linked(Contents(), chain) && at < |chain| && chain[at] == r
      requires Distinct(chain + [node]) && Contents().Has(node)
      modifies options, buffer
      ensures Appended(old(Contents()), Contents(), chain, node)
    {
      ghost var mem := Contents();
      var p := Last(r, chain, at);
      var f := First(r, chain, at);
      AppendLinks(mem, chain, node);
      hide Linked; hide Appended; hide Distinct;
      Put(p, Get(p).(next := Link(node, false)));
      Put(node, Get(node).(prev := Link(p, false)));
      Put(node, Get(node).(next := Link(f, true)));
      Put(f, Get(f).(prev := Link(node, true)));
      PutTwice(mem, p, node, f);
    }

    /** A pointer to list `k`, or NULL when no option has that index. */
    method Begin(k: nat, ghost log: seq<Parsed>) returns (cursor: Maybe<Ref>)
      requires Holds(Contents(), log) && k < options.Length
      ensures cursor == CursorAt(log, k, 0)
    {
      assert HoldsList(Contents(), log, k);
      cursor := if options[k].option.Nothing? then Nothing else Just(InOptions(k));
    }

    /** The option a cursor points to. */
    method Read(cursor: Maybe<Ref>, ghost log: seq<Parsed>, ghost k: nat, ghost j: nat) returns (o: Parsed)
      requires Holds(Contents(), log) && k < options.Length && j < |Listed(log, k)| && cursor == CursorAt(log, k, j)
      ensures o == Listed(log, k)[j]
    {
      NodeHolds(Contents(), log, k, j);
      o := Get(cursor.value).option.value;
    }

    method Advance(cursor: Maybe<Ref>, ghost log: seq<Parsed>, ghost k: nat, ghost j: nat) returns (next: Maybe<Ref>)
      requires Holds(Contents(), log) && k < options.Length && j < |Listed(log, k)| && cursor == CursorAt(log, k, j)
      ensures next == CursorAt(log, k, j + 1)
    {
      NodeHolds(Contents(), log, k, j);
      assert HoldsList(Contents(), log, k);
      next := Next(cursor.value, Chain(log, k), j);
    }

    /** Walks list `k` the way a program does, and reads off its options. */
    method Walk(k: nat, ghost log: seq<Parsed>) returns (s: seq<Parsed>)
      requires Holds(Contents(), log) && k < options.Length
      ensures s == Listed(log, k)
    {
      hide Holds; hide Listed; hide CursorAt;
      s := [];
      var cursor := Begin(k, log);
      CursorEnds(log, k, 0);
      ghost var j := 0;
      while cursor.Just?
        invariant 0 <= j <= |Listed(log, k)|
        invariant cursor == CursorAt(log, k, j) && (cursor.Just? <==> j < |Listed(log, k)|)
        invariant s == Listed(log, k)[..j]
        decreases |Listed(log, k)| - j
      {
        var o := Read(cursor, log, k, j);
        s := s + [o];
        cursor := Advance(cursor, log, k, j);
        CursorEnds(log, k, j + 1);
        j := j + 1;
      }
    }
  }

  /** Counting list `k` gives the number of options with that index, and its last node holds the last of them. */
  method CountAndLast(arrays: OptionArrays, k: nat, ghost log: seq<Parsed>) returns (c: nat, last: Maybe<Parsed>)
    requires Holds(arrays.Contents(), log) && k < arrays.options.Length
    ensures c == |Listed(log, k)|
    ensures last == if c == 0 then Nothing else Just(Listed(log, k)[c - 1])
  {
    ghost var chain := Chain(log, k);
    HeadHolds(arrays.Contents(), log, k);
    if Listed(log, k) != [] {
      NodeHolds(arrays.Contents(), log, k, |Listed(log, k)| - 1);
    }
    hide Holds; hide Listed; hide Chain;
    c := arrays.Count(InOptions(k), chain, 0);
    var l := arrays.Last(InOptions(k), chain, 0);
    last := arrays.Get(l).option;
  }

  lemma HeadHolds(mem: Mem, log: seq<Parsed>, k: nat)
    requires Holds(mem, log) && k < |mem.options|
    ensures Linked(mem, Chain(log, k)) && Chain(log, k)[0] == InOptions(k)
    ensures Listed(log, k) == [] ==> |Chain(log, k)| == 1 && mem.options[k].option.Nothing?
    ensures Listed(log, k) != [] ==> |Chain(log, k)| == |Listed(log, k)| && mem.options[k].option.Just?
  {
    assert HoldsList(mem, log, k);
  }
}
