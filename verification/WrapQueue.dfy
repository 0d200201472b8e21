/**
 The ring buffer between the cutting of a text and the writing of its pieces. Each method
 returns what it hands to the writer.
 */
module WrapQueue {
  import opened Common
  import opened Utf8
  import opened LineWrapping

  const SLOTS: nat := 16

  datatype Write = NewLine | Space | Text(text: seq<Byte>)

  // ---------------------------------------------------------------- what the wrapper writes

  /** The indentation written from the start of a line. */
  function Indentation(x: int): seq<Write> {
    if x < 0 then [NewLine] else seq(x, _ => Space)
  }

  /** The given lines, each but the first on a line of its own behind the indentation. */
  function Lines(x: int, texts: seq<seq<Byte>>): seq<Write> {
    if texts == [] then []
    else var n := |texts| - 1; Lines(x, texts[..n]) + Break(x, n > 0) + [Text(texts[n])]
  }

  function Break(x: int, wrote: bool): seq<Write> {
    if wrote then [NewLine] + Indentation(x) else []
  }

  function Texts(pieces: seq<Piece>): (texts: seq<seq<Byte>>)
    ensures |texts| == |pieces| && forall i :: 0 <= i < |pieces| ==> texts[i] == pieces[i].text
  {
    seq(|pieces|, i requires 0 <= i < |pieces| => pieces[i].text)
  }

  /** Of that many queued lines, how many a call writes: the ones the ring has no room for, but at least one. */
  function Leaving(n: nat): (k: nat)
    ensures k <= n && n - k <= 15 && (n > 0 ==> k > 0) && (k > 1 ==> n - k == 15)
  {
    if n >= SLOTS then n - (SLOTS - 1) else if n == 0 then 0 else 1
  }

  /** The queue and the writes of a call to process. */
  function Processed(queue: seq<seq<Byte>>, text: seq<Byte>, x: int, width: nat): (seq<seq<Byte>>, seq<Write>)
    requires width >= 2
  {
    var all := queue + Texts(Wrap(text, width));
    var k := Leaving(|all|);
    (all[k..], Lines(x, all[..k]))
  }

  /** The writes of a flush, which empties the queue. */
  function Flushed(queue: seq<seq<Byte>>, x: int): seq<Write> {
    if queue == [] then [] else Indentation(x) + Lines(x, queue) + [NewLine]
  }

  // ---------------------------------------------------------------- what appears on the screen

  /** The writes on each line of the screen. */
  function OnScreen(writes: seq<Write>): (lines: seq<seq<Write>>)
    ensures lines != []
  {
    if writes == [] then [[]]
    else
      var n := |writes| - 1;
      var lines := OnScreen(writes[..n]);
      var last := |lines| - 1;
      if writes[n].NewLine? then lines + [[]] else lines[..last] + [lines[last] + [writes[n]]]
  }

  /** A text behind `x` spaces. */
  function Behind(x: nat, text: seq<Byte>): (line: seq<Write>)
    ensures |line| == x + 1 && line[x] == Text(text) && forall i :: 0 <= i < x ==> line[i] == Space
  {
    seq(x, _ => Space) + [Text(text)]
  }

  /** The lines of the screen are these texts, each behind `x` spaces, but for the first, which follows `lead`. */
  ghost predicate Shows(lines: seq<seq<Write>>, lead: seq<Write>, x: nat, texts: seq<seq<Byte>>) {
    && |lines| == |texts| > 0 && lines[0] == lead + [Text(texts[0])]
    && forall i :: 0 < i < |texts| ==> lines[i] == Behind(x, texts[i])
  }

  ghost predicate OneLine(writes: seq<Write>) {
    forall i :: 0 <= i < |writes| ==> !writes[i].NewLine?
  }

  lemma ScreenNewLine(a: seq<Write>)
    ensures OnScreen(a + [NewLine]) == OnScreen(a) + [[]]
  {
    assert (a + [NewLine])[..|a|] == a;
  }

  lemma ScreenOne(a: seq<Write>, w: Write)
    requires !w.NewLine?
    ensures var lines := OnScreen(a); var last := |lines| - 1; OnScreen(a + [w]) == lines[..last] + [lines[last] + [w]]
  {
    assert (a + [w])[..|a|] == a;
  }

  lemma {:induction false} ScreenMore(a: seq<Write>, b: seq<Write>)
    requires OneLine(b)
    ensures var lines := OnScreen(a); var last := |lines| - 1; OnScreen(a + b) == lines[..last] + [lines[last] + b]
  {
    hide OnScreen;
    var lines := OnScreen(a);
    var last := |lines| - 1;
    if b == [] {
      NothingBefore(a);
      NothingBefore(lines[last]);
    } else {
      var n := |b| - 1;
      ScreenMore(a, b[..n]);
      ScreenOne(a + b[..n], b[n]);
      assert b == b[..n] + [b[n]];
      Regroup(a, b[..n], [b[n]]);
      Regroup(lines[last], b[..n], [b[n]]);
      assert (lines[..last] + [lines[last] + b[..n]])[..last] == lines[..last];
    }
  }

  lemma ScreenStart(b: seq<Write>)
    requires OneLine(b)
    ensures OnScreen(b) == [b]
  {
    ScreenMore([], b);
    NothingBefore(b);
    assert OnScreen([]) == [[]];
  }

  lemma BreakShows(a: seq<Write>, x: nat, text: seq<Byte>)
    ensures OnScreen(a + Break(x, true) + [Text(text)]) == OnScreen(a) + [Behind(x, text)]
  {
    hide OnScreen;
    var spaces := Indentation(x);
    ScreenNewLine(a);
    ScreenMore(a + [NewLine], spaces + [Text(text)]);
    NothingBefore(spaces + [Text(text)]);
    assert a + Break(x, true) + [Text(text)] == a + [NewLine] + (spaces + [Text(text)]);
    assert (OnScreen(a) + [[]])[..|OnScreen(a)|] == OnScreen(a);
  }

  lemma {:induction false} LinesShow(lead: seq<Write>, x: nat, texts: seq<seq<Byte>>)
    requires OneLine(lead) && texts != []
    ensures Shows(OnScreen(lead + Lines(x, texts)), lead, x, texts)
  {
    hide OnScreen; hide Break; hide Behind;
    var n := |texts| - 1;
    assert Lines(x, texts) == Lines(x, texts[..n]) + Break(x, n > 0) + [Text(texts[n])];
    if n == 0 {
      assert Lines(x, texts[..0]) == [] && Break(x, false) == [] by {
        LinesNone(x);
        NoBreak(x);
      }
      assert lead + Lines(x, texts) == lead + [Text(texts[0])];
      ScreenStart(lead + [Text(texts[0])]);
    } else {
      LinesShow(lead, x, texts[..n]);
      BreakShows(lead + Lines(x, texts[..n]), x, texts[n]);
      assert lead + Lines(x, texts) == lead + Lines(x, texts[..n]) + Break(x, true) + [Text(texts[n])];
    }
  }

  lemma NoBreak(x: int)
    ensures Break(x, false) == []
  {
  }

  /** A flush shows every queued line behind `x` spaces, and ends the last one. */
  lemma FlushShows(x: nat, queue: seq<seq<Byte>>)
    requires queue != []
    ensures var lines := OnScreen(Flushed(queue, x));
            && |lines| == |queue| + 1 && lines[|queue|] == []
            && forall i :: 0 <= i < |queue| ==> lines[i] == Behind(x, queue[i])
  {
    var spaces := Indentation(x);
    LinesShow(spaces, x, queue);
    hide OnScreen; hide Lines;
    ScreenNewLine(spaces + Lines(x, queue));
    assert spaces + [Text(queue[0])] == Behind(x, queue[0]);
  }

  // ---------------------------------------------------------------- the ring

  /** How many slots are taken: the tail is the slot before the oldest, the head the one behind the newest. */
  function Count(head: nat, tail: nat): (n: nat)
    requires head < SLOTS && tail < SLOTS
    ensures n < SLOTS
  {
    if head > tail then head - tail - 1 else head + SLOTS - tail - 1
  }

  /** The i-th slot behind the tail. */
  function Slot(tail: nat, i: nat): (k: nat)
    requires tail < SLOTS && i < SLOTS
    ensures k < SLOTS
  {
    if tail + 1 + i < SLOTS then tail + 1 + i else tail + 1 + i - SLOTS
  }

  ghost predicate Holding(lens: seq<nat>, data: seq<seq<Byte>>, head: nat, tail: nat) {
    && |lens| == SLOTS && |data| == SLOTS && head < SLOTS && tail < SLOTS
    && forall i :: 0 <= i < Count(head, tail) ==> lens[Slot(tail, i)] <= |data[Slot(tail, i)]|
  }

  /** The queued lines, oldest first. */
  ghost function Held(lens: seq<nat>, data: seq<seq<Byte>>, head: nat, tail: nat): (q: seq<seq<Byte>>)
    requires Holding(lens, data, head, tail)
    ensures |q| == Count(head, tail) && forall i :: 0 <= i < |q| ==> q[i] == data[Slot(tail, i)][..lens[Slot(tail, i)]]
  {
    seq(Count(head, tail), i requires 0 <= i < Count(head, tail) => data[Slot(tail, i)][..lens[Slot(tail, i)]])
  }

  /** One more line at the head. */
  lemma HeldMore(lens: seq<nat>, data: seq<seq<Byte>>, head: nat, tail: nat, line: seq<Byte>, len: nat)
    requires Holding(lens, data, head, tail) && head != tail && len <= |line|
    ensures var next := (head + 1) % SLOTS;
            && Holding(lens[head := len], data[head := line], next, tail)
            && Held(lens[head := len], data[head := line], next, tail) == Held(lens, data, head, tail) + [line[..len]]
  {
    var n, next := Count(head, tail), (head + 1) % SLOTS;
    assert Count(next, tail) == n + 1 && Slot(tail, n) == head;
    assert forall i :: 0 <= i < n ==> Slot(tail, i) != head;
  }

  /** The oldest line is behind the tail. */
  lemma HeldLess(lens: seq<nat>, data: seq<seq<Byte>>, head: nat, tail: nat)
    requires Holding(lens, data, head, tail) && (tail + 1) % SLOTS != head
    ensures var next := (tail + 1) % SLOTS;
            && Holding(lens, data, head, next) && lens[next] <= |data[next]|
            && Held(lens, data, head, tail) == [data[next][..lens[next]]] + Held(lens, data, head, next)
  {
    hide Slot; hide Count;
    var next := (tail + 1) % SLOTS;
    CountShift(head, tail);
    forall i | 0 <= i < Count(head, next)
      ensures lens[Slot(next, i)] <= |data[Slot(next, i)]|
    {
      SlotShift(tail, i);
    }
    var a, b := Held(lens, data, head, tail), Held(lens, data, head, next);
    forall i | 0 <= i < |b|
      ensures a[i + 1] == b[i]
    {
      SlotShift(tail, i);
    }
    assert a == [a[0]] + b;
  }

  lemma CountShift(head: nat, tail: nat)
    requires head < SLOTS && tail < SLOTS && (tail + 1) % SLOTS != head
    ensures var next := (tail + 1) % SLOTS; Count(head, tail) == Count(head, next) + 1 && Slot(tail, 0) == next
  {
  }

  lemma SlotShift(tail: nat, i: nat)
    requires tail < SLOTS && i + 1 < SLOTS
    ensures Slot((tail + 1) % SLOTS, i) == Slot(tail, i + 1)
  {
  }

  class LineWrapper {
    const lenBuf: array<nat>
    const datBuf: array<seq<Byte>>
    const x: int
    const width: nat
    var head: nat
    var tail: nat
    var wroteSomething: bool

    ghost predicate Valid()
      reads this, lenBuf, datBuf
    {
      width >= 2 && Holding(lenBuf[..], datBuf[..], head, tail)
    }

    ghost function Queue(): seq<seq<Byte>>
      requires Valid()
      reads this, lenBuf, datBuf
    {
      Held(lenBuf[..], datBuf[..], head, tail)
    }

    constructor (x1: int, x2: int)
      ensures Valid() && Queue() == [] && x == x1 && width == (if x2 - x1 < 2 then 2 else x2 - x1)
      ensures fresh(lenBuf) && fresh(datBuf)
    {
      lenBuf, datBuf := new nat[SLOTS], new seq<Byte>[SLOTS];
      x := x1;
      width := if x2 - x1 < 2 then 2 else x2 - x1;
      head, tail, wroteSomething := 0, SLOTS - 1, false;
    }

    predicate BufEmpty()
      requires Valid()
      reads this, lenBuf, datBuf
      ensures BufEmpty() <==> Queue() == []
    {
      (tail + 1) % SLOTS == head
    }

    predicate BufFull()
      requires Valid()
      reads this, lenBuf, datBuf
      ensures BufFull() <==> |Queue()| == SLOTS - 1
    {
      tail == head
    }

    method BufStore(data: seq<Byte>, len: nat)
      requires Valid() && !BufFull() && len <= |data|
      modifies this`head, lenBuf, datBuf
      ensures Valid() && Queue() == old(Queue()) + [data[..len]]
    {
      ghost var lens, lines := lenBuf[..], datBuf[..];
      lenBuf[head] := len;
      datBuf[head] := data;
      head := (head + 1) % SLOTS;
      assert lenBuf[..] == lens[old(head) := len] && datBuf[..] == lines[old(head) := data];
      HeldMore(lens, lines, old(head), tail, data, len);
    }

    method BufNext()
      requires Valid() && !BufEmpty()
      modifies this`tail
      ensures Valid() && Queue() == old(Queue())[1..] && lenBuf[tail] <= |datBuf[tail]|
      ensures datBuf[tail][..lenBuf[tail]] == old(Queue())[0]
    {
      tail := (tail + 1) % SLOTS;
      HeldLess(lenBuf[..], datBuf[..], head, old(tail));
    }

    method WriteOneLine() returns (written: seq<Write>)
      requires Valid()
      modifies this`tail, this`wroteSomething
      ensures Valid() && wroteSomething
      ensures Queue() == if old(Queue()) == [] then [] else old(Queue())[1..]
      ensures written == Break(x, old(wroteSomething)) + if old(Queue()) == [] then [] else [Text(old(Queue())[0])]
    {
      written := [];
      if wroteSomething {
        var spaces := Indent(x);
        written := [NewLine] + spaces;
      }
      if !BufEmpty() {
        BufNext();
        written := written + [Text(datBuf[tail][..lenBuf[tail]])];
      }
      wroteSomething := true;
    }

    method Output(data: seq<Byte>, len: nat) returns (written: seq<Write>)
      requires Valid() && len <= |data|
      modifies this`head, this`tail, this`wroteSomething, lenBuf, datBuf
      ensures Valid()
      ensures |old(Queue())| < SLOTS - 1 ==>
                Queue() == old(Queue()) + [data[..len]] && written == [] && wroteSomething == old(wroteSomething)
      ensures |old(Queue())| == SLOTS - 1 ==>
                Queue() == old(Queue())[1..] + [data[..len]] && wroteSomething
                && written == Break(x, old(wroteSomething)) + [Text(old(Queue())[0])]
    {
      written := [];
      if BufFull() {
        written := WriteOneLine();
      }
      BufStore(data, len);
    }

    /** Cuts the text into pieces, queues them, and writes at least one line if there is any. */
    method Process(data: seq<Byte>) returns (written: seq<Write>)
      requires Valid()
      modifies this`head, this`tail, this`wroteSomething, lenBuf, datBuf
      ensures Valid() && (Queue(), written) == Processed(old(Queue()), data, x, width)
      ensures var all := old(Queue()) + Texts(Wrap(data, width));
              && |Queue()| <= 15 && |Queue()| <= |all|
              && var k := |all| - |Queue()|;
                 && Queue() == all[k..] && (k > 1 ==> |Queue()| == 15) && (k == 0 <==> all == [])
                 && if k == 0 then written == [] else x >= 0 ==> Shows(OnScreen(written), [], x, all[..k])
    {
      hide Holding; hide Held; hide Wrap; hide Texts; hide Break; hide Overflowed;
      wroteSomething := false;
      written := [];
      var rest := data;
      ghost var all := Queue();
      OverflowNone(all, x);
      while rest != []
        invariant Valid() && Overflowed(all, x, Queue(), written, wroteSomething)
        invariant all + Texts(Wrap(rest, width)) == old(Queue()) + Texts(Wrap(data, width))
        decreases |rest|
      {
        var end, next := SplitOff(rest, width);
        OverflowStep(all, x, Queue(), written, wroteSomething, rest[..end]);
        TextsStep(all, rest, width);
        NothingBefore(written);
        var line := Output(rest, end);
        written := written + line;
        all := all + [rest[..end]];
        rest := rest[next..];
      }
      TextsNone(all, width);
      OverflowEnd(all, x, Queue(), written, wroteSomething);
      ProcessShows(all, x);
      if !wroteSomething {
        var line := WriteOneLine();
        written := written + line;
      }
    }

    method FlushLines() returns (lines: seq<Write>)
      requires Valid() && !wroteSomething
      modifies this`tail, this`wroteSomething
      ensures Valid() && Queue() == [] && lines == Lines(x, old(Queue()))
    {
      hide Break; hide Held; hide Lines;
      LinesNone(x);
      ghost var queue, n := Queue(), 0;
      lines := [];
      while !BufEmpty()
        invariant Valid() && n <= |queue| && Queue() == queue[n..] && wroteSomething == (n > 0)
        invariant lines == Lines(x, queue[..n])
        decreases |queue| - n
      {
        var line := WriteOneLine();
        LinesStep(x, queue, n);
        lines := lines + line;
        n := n + 1;
      }
      assert queue[..n] == queue;
    }

    /** Writes all that is queued. */
    method Flush() returns (written: seq<Write>)
      requires Valid()
      modifies this`tail, this`wroteSomething
      ensures Valid() && Queue() == [] && written == Flushed(old(Queue()), x)
      ensures old(Queue()) == [] ==> written == []
      ensures x >= 0 && old(Queue()) != [] ==>
                var lines, queue := OnScreen(written), old(Queue());
                && |lines| == |queue| + 1 && lines[|queue|] == []
                && forall i :: 0 <= i < |queue| ==> lines[i] == Behind(x, queue[i])
    {
      if x >= 0 && Queue() != [] {
        FlushShows(x, Queue());
      }
      written := [];
      if BufEmpty() {
        return;
      }
      written := Indent(x);
      wroteSomething := false;
      var lines := FlushLines();
      written := written + lines + [NewLine];
    }
  }

  lemma ProcessShows(all: seq<seq<Byte>>, x: int)
    ensures var k := Leaving(|all|);
            if k == 0 then Lines(x, all[..k]) == [] else x >= 0 ==> Shows(OnScreen(Lines(x, all[..k])), [], x, all[..k])
  {
    var k := Leaving(|all|);
    if k > 0 && x >= 0 {
      LinesShow([], x, all[..k]);
      NothingBefore(Lines(x, all[..k]));
    }
  }

  /** Of these lines, the ring keeps the last ones and the others are written. */
  ghost predicate Overflowed(all: seq<seq<Byte>>, x: int, queue: seq<seq<Byte>>, written: seq<Write>, wrote: bool) {
    var k := if |all| >= SLOTS then |all| - (SLOTS - 1) else 0;
    queue == all[k..] && written == Lines(x, all[..k]) && wrote == (k > 0)
  }

  lemma OverflowStep(all: seq<seq<Byte>>, x: int, queue: seq<seq<Byte>>, written: seq<Write>, wrote: bool, text: seq<Byte>)
    requires Overflowed(all, x, queue, written, wrote)
    ensures |queue| < SLOTS
    ensures |queue| < SLOTS - 1 ==> Overflowed(all + [text], x, queue + [text], written, wrote)
    ensures |queue| == SLOTS - 1 ==> Overflowed(all + [text], x, queue[1..] + [text], written + (Break(x, wrote) + [Text(queue[0])]), true)
  {
    hide Lines; hide Break;
    if |queue| == SLOTS - 1 {
      OverflowFull(all, x, text);
    } else {
      ShiftedBy(all, 0, text);
    }
  }

  lemma OverflowFull(all: seq<seq<Byte>>, x: int, text: seq<Byte>)
    requires |all| >= SLOTS - 1
    ensures var k := |all| - (SLOTS - 1);
            Overflowed(all + [text], x, all[k..][1..] + [text], Lines(x, all[..k]) + (Break(x, k > 0) + [Text(all[k..][0])]), true)
  {
    hide Lines; hide Break;
    var k := |all| - (SLOTS - 1);
    ShiftedBy(all, k, text);
    LinesStep(x, all + [text], k);
  }

  /** A sequence without its first `k` elements, one more at its end and one less at its beginning. */
  lemma ShiftedBy<T>(all: seq<T>, k: nat, x: T)
    requires k <= |all|
    ensures (all + [x])[..k] == all[..k] && (all + [x])[k..] == all[k..] + [x]
    ensures k < |all| ==> (all + [x])[k + 1..] == all[k..][1..] + [x] && (all + [x])[k] == all[k..][0]
  {
  }

  lemma TextsStep(all: seq<seq<Byte>>, rest: seq<Byte>, width: nat)
    requires width >= 2 && rest != []
    ensures var c := CutOf(rest, width); all + Texts(Wrap(rest, width)) == all + [rest[..c.end]] + Texts(Wrap(rest[c.next..], width))
  {
    hide CutOf; hide Texts;
    var c := CutOf(rest, width);
    TextsCons(Piece(rest[..c.end], c.next > c.end), Wrap(rest[c.next..], width));
    Regroup(all, [rest[..c.end]], Texts(Wrap(rest[c.next..], width)));
  }

  lemma TextsCons(p: Piece, pieces: seq<Piece>)
    ensures Texts([p] + pieces) == [p.text] + Texts(pieces)
  {
  }

  lemma LinesNone(x: int)
    ensures Lines(x, []) == []
  {
  }

  lemma LinesStep(x: int, texts: seq<seq<Byte>>, n: nat)
    requires n < |texts|
    ensures Lines(x, texts[..n]) + (Break(x, n > 0) + [Text(texts[n])]) == Lines(x, texts[..n + 1])
  {
    assert texts[..n + 1][..n] == texts[..n];
    hide Indentation; hide Break;
  }

  lemma OverflowNone(all: seq<seq<Byte>>, x: int)
    requires |all| < SLOTS
    ensures Overflowed(all, x, all, [], false)
  {
    assert all[..0] == [] && all[0..] == all;
  }

  lemma TextsNone(all: seq<seq<Byte>>, width: nat)
    requires width >= 2
    ensures all + Texts(Wrap([], width)) == all
  {
  }

  /** After the last piece, a line is still to be written if none was, and there is any. */
  lemma OverflowEnd(all: seq<seq<Byte>>, x: int, queue: seq<seq<Byte>>, written: seq<Write>, wrote: bool)
    requires Overflowed(all, x, queue, written, wrote)
    ensures var k := Leaving(|all|);
            && (wrote ==> queue == all[k..] && written == Lines(x, all[..k]))
            && (!wrote ==> (if queue == [] then [] else queue[1..]) == all[k..]
                           && written + (Break(x, false) + if queue == [] then [] else [Text(queue[0])]) == Lines(x, all[..k]))
  {
    if !wrote {
      assert all[0..] == all && all[..0] == [];
      if all != [] {
        assert all[..1][..0] == [] && all[..1][0] == all[0];
      }
    }
  }

  /** Indents from the start of a line. */
  method Indent(want: int) returns (written: seq<Write>)
    ensures written == Indentation(want)
    ensures if want < 0 then written == [NewLine] else |written| == want && forall i :: 0 <= i < want ==> written[i] == Space
  {
    var indent := want;
    written := [];
    if indent < 0 {
      written := written + [NewLine];
      indent := want;
    }
    if indent > 0 {
      for i := 0 to indent
        invariant written == seq(i, _ => Space)
      {
        written := written + [Space];
      }
    }
  }

  // ---------------------------------------------------------------- whole runs

  datatype Call = Process(text: seq<Byte>) | Flush

  /** The queue, and everything written so far. */
  datatype State = State(queue: seq<seq<Byte>>, written: seq<Write>)

  function Step(s: State, c: Call, x: int, width: nat): State
    requires width >= 2
  {
    match c
    case Process(text) => var (queue, written) := Processed(s.queue, text, x, width); State(queue, s.written + written)
    case Flush => State([], s.written + Flushed(s.queue, x))
  }

  function After(calls: seq<Call>, x: int, width: nat): State
    requires width >= 2
  {
    if calls == [] then State([], []) else var n := |calls| - 1; Step(After(calls[..n], x, width), calls[n], x, width)
  }

  /** The pieces of all texts processed, in order. */
  function Pieces(calls: seq<Call>, width: nat): seq<seq<Byte>>
    requires width >= 2
  {
    if calls == [] then []
    else
      var n := |calls| - 1;
      Pieces(calls[..n], width) + if calls[n].Process? then Texts(Wrap(calls[n].text, width)) else []
  }

  /** The texts among the writes. */
  function Written(writes: seq<Write>): seq<seq<Byte>> {
    if writes == [] then []
    else var n := |writes| - 1; Written(writes[..n]) + if writes[n].Text? then [writes[n].text] else []
  }

  lemma {:induction false} WrittenConcat(a: seq<Write>, b: seq<Write>)
    ensures Written(a + b) == Written(a) + Written(b)
    decreases |b|
  {
    if b == [] {
      assert a + b == a;
    } else {
      var n := |b| - 1;
      assert (a + b)[..|a| + n] == a + b[..n];
      WrittenConcat(a, b[..n]);
    }
  }

  lemma {:induction false} NoText(writes: seq<Write>)
    requires forall i :: 0 <= i < |writes| ==> !writes[i].Text?
    ensures Written(writes) == []
  {
    if writes != [] {
      NoText(writes[..|writes| - 1]);
    }
  }

  lemma BreakNoText(x: int, wrote: bool)
    ensures Written(Break(x, wrote)) == [] && Written(Indentation(x)) == []
  {
    NoText(Break(x, wrote));
    NoText(Indentation(x));
  }

  lemma WrittenThree(a: seq<Write>, b: seq<Write>, c: seq<Write>)
    ensures Written(a + b + c) == Written(a) + Written(b) + Written(c)
  {
    WrittenConcat(a + b, c);
    WrittenConcat(a, b);
  }

  lemma WrittenOne(w: Write)
    ensures Written([w]) == if w.Text? then [w.text] else []
  {
    assert [w][..0] == [];
  }

  lemma {:induction false} LinesWritten(x: int, texts: seq<seq<Byte>>)
    ensures Written(Lines(x, texts)) == texts
  {
    hide Break; hide Written;
    if texts == [] {
      NoText([]);
    } else {
      var n := |texts| - 1;
      LinesWritten(x, texts[..n]);
      WrittenThree(Lines(x, texts[..n]), Break(x, n > 0), [Text(texts[n])]);
      BreakNoText(x, n > 0);
      WrittenOne(Text(texts[n]));
      assert texts == texts[..n] + [texts[n]];
    }
  }

  lemma FlushedWritten(x: int, queue: seq<seq<Byte>>)
    ensures Written(Flushed(queue, x)) == queue
  {
    hide Lines; hide Indentation; hide Written;
    NoText([]);
    WrittenThree(Indentation(x), Lines(x, queue), [NewLine]);
    BreakNoText(x, false);
    LinesWritten(x, queue);
    WrittenOne(NewLine);
  }

  /** What is written and what is queued is what there was, and then the new pieces. */
  lemma StepConserves(s: State, c: Call, x: int, width: nat)
    requires width >= 2
    ensures var t := Step(s, c, x, width);
            Written(t.written) + t.queue == Written(s.written) + s.queue + if c.Process? then Texts(Wrap(c.text, width)) else []
  {
    hide Wrap; hide Texts; hide Written; hide Lines; hide Flushed;
    match c
    case Process(text) =>
      var all := s.queue + Texts(Wrap(text, width));
      var k := Leaving(|all|);
      WrittenConcat(s.written, Lines(x, all[..k]));
      LinesWritten(x, all[..k]);
      assert all == all[..k] + all[k..];
    case Flush =>
      WrittenConcat(s.written, Flushed(s.queue, x));
      FlushedWritten(x, s.queue);
  }

  /**
   Over any run, the pieces written, followed by those still queued, are all the pieces there
   have been, each once and in order, and the ring never holds more than 15.
   */
  lemma {:induction false} RunConserves(calls: seq<Call>, x: int, width: nat)
    requires width >= 2
    ensures var s := After(calls, x, width); Written(s.written) + s.queue == Pieces(calls, width) && |s.queue| < SLOTS
  {
    hide Step;
    if calls != [] {
      var n := |calls| - 1;
      var s := After(calls[..n], x, width);
      RunConserves(calls[..n], x, width);
      StepConserves(s, calls[n], x, width);
      StepFits(s, calls[n], x, width);
    }
  }

  lemma StepFits(s: State, c: Call, x: int, width: nat)
    requires width >= 2
    ensures |Step(s, c, x, width).queue| < SLOTS
  {
  }

  /** A run of the wrapper itself. */
  method Run(x1: int, x2: int, calls: seq<Call>) returns (written: seq<Write>)
    ensures var width := if x2 - x1 < 2 then 2 else x2 - x1;
            written == After(calls, x1, width).written && Written(written) <= Pieces(calls, width)
    ensures calls != [] && calls[|calls| - 1] == Flush ==> Written(written) == Pieces(calls, if x2 - x1 < 2 then 2 else x2 - x1)
  {
    hide Processed; hide Flushed; hide Written; hide Pieces; hide Held; hide Holding;
    var wrapper := new LineWrapper(x1, x2);
    written := [];
    ghost var width := wrapper.width;
    var n := 0;
    while n < |calls|
      invariant n <= |calls| && wrapper.Valid() && fresh(wrapper) && fresh(wrapper.lenBuf) && fresh(wrapper.datBuf)
      invariant State(wrapper.Queue(), written) == After(calls[..n], x1, width)
    {
      assert calls[..n + 1][..n] == calls[..n];
      ghost var before := State(wrapper.Queue(), written);
      var more;
      match calls[n] {
        case Process(text) =>
          more := wrapper.Process(text);
        case Flush =>
          more := wrapper.Flush();
      }
      written := written + more;
      assert State(wrapper.Queue(), written) == Step(before, calls[n], x1, width);
      n := n + 1;
    }
    assert calls[..n] == calls;
    RunConserves(calls, x1, width);
  }
}
