/**
 What one pass over an argument vector means, as a function of the words in it: the options
 it performs, the words it moves to the front and the non-options it leaves at the back.
 The in-place pass of module Workhorse is proved to compute exactly this.
 */
module ArgPass {
  import opened Common
  import opened OptionSyntax
  import opened WordSyntax

  /** `front` and `back` are the vector's new contents; `tail` are the words after the point where the pass stopped. */
  datatype ScanResult = ScanResult(options: seq<Parsed>, front: seq<string>, back: seq<string>, ok: bool, tail: seq<string>)

  function Next(words: seq<string>): Maybe<string> {
    if |words| > 1 then Just(words[1]) else Nothing
  }

  /** How many words the option word at the head of `words` uses up. */
  function Used(parse: WordParser, words: seq<string>): (n: nat)
    requires words != []
    ensures 1 <= n <= 2 && n <= |words|
  {
    if parse(words[0], Next(words)).took && |words| > 1 then 2 else 1
  }

  function Scan(gnu: bool, parse: WordParser, words: seq<string>): ScanResult {
    if words == [] then ScanResult([], [], [], true, [])
    else if NonOption(words[0]) then
      if gnu then
        var r := Scan(gnu, parse, words[1..]);
        r.(back := [words[0]] + r.back)
      else ScanResult([], [], words, true, words)
    else if words[0] == TERMINATOR then ScanResult([], [TERMINATOR], words[1..], true, words[1..])
    else
      var w := parse(words[0], Next(words));
      if !w.ok then ScanResult(w.options, [], words, false, words)
      else
        var n := Used(parse, words);
        var r := Scan(gnu, parse, words[n..]);
        r.(options := w.options + r.options, front := words[..n] + r.front)
  }

  lemma ScanOption(gnu: bool, parse: WordParser, words: seq<string>)
    requires words != [] && OptionWord(words[0]) && parse(words[0], Next(words)).ok
    ensures var n := Used(parse, words);
            var r := Scan(gnu, parse, words[n..]);
            Scan(gnu, parse, words) == r.(options := parse(words[0], Next(words)).options + r.options, front := words[..n] + r.front)
  {
  }

  lemma ScanIllegal(gnu: bool, parse: WordParser, words: seq<string>)
    requires words != [] && OptionWord(words[0]) && !parse(words[0], Next(words)).ok
    ensures Scan(gnu, parse, words) == ScanResult(parse(words[0], Next(words)).options, [], words, false, words)
  {
  }

  // ---------------------------------------------------------------- actions that refuse

  ghost predicate Fits(n: nat, room: int) {
    room < 0 || n <= room
  }

  function Less(n: int, k: nat): int {
    if n < 0 then n else n - k
  }

  datatype Halves = Halves(front: seq<string>, back: seq<string>)

  /**
   What a pass leaves in the vector when its action accepts no more than `room` options, or any
   number if that is negative. An option that takes an argument is moved before it is refused.
   */
  function Left(gnu: bool, parse: WordParser, words: seq<string>, room: int): Halves {
    if words == [] then Halves([], [])
    else if NonOption(words[0]) then
      if gnu then
        var h := Left(gnu, parse, words[1..], room);
        h.(back := [words[0]] + h.back)
      else Halves([], words)
    else if words[0] == TERMINATOR then Halves([TERMINATOR], words[1..])
    else
      var w := parse(words[0], Next(words));
      if 0 <= room < |w.options| then
        if w.took && |w.options| == room + 1 then Halves([words[0]], words[1..]) else Halves([], words)
      else if !w.ok then Halves([], words)
      else
        var n := Used(parse, words);
        var h := Left(gnu, parse, words[n..], Less(room, |w.options|));
        h.(front := words[..n] + h.front)
  }

  lemma LeftOption(gnu: bool, parse: WordParser, words: seq<string>, room: int)
    requires words != [] && OptionWord(words[0])
    ensures var w := parse(words[0], Next(words));
            Left(gnu, parse, words, room)
            == if !Fits(|w.options|, room) then
                 if w.took && |w.options| == room + 1 then Halves([words[0]], words[1..]) else Halves([], words)
               else if !w.ok then Halves([], words)
               else
                 var n := Used(parse, words);
                 var h := Left(gnu, parse, words[n..], Less(room, |w.options|));
                 h.(front := words[..n] + h.front)
  {
  }

  /** When nothing is refused, this is the front and the back of the pass. */
  lemma {:induction false} LeftFits(gnu: bool, parse: WordParser, words: seq<string>, room: int)
    requires Fits(|Scan(gnu, parse, words).options|, room)
    ensures var r := Scan(gnu, parse, words); Left(gnu, parse, words, room) == Halves(r.front, r.back)
    decreases |words|
  {
    if words == [] || words[0] == TERMINATOR {
    } else if NonOption(words[0]) {
      if gnu {
        LeftFits(gnu, parse, words[1..], room);
      }
    } else {
      var w := parse(words[0], Next(words));
      LeftOption(gnu, parse, words, room);
      hide Left;
      if w.ok {
        ScanOption(gnu, parse, words);
        LeftFits(gnu, parse, words[Used(parse, words)..], Less(room, |w.options|));
      }
    }
  }

  ghost predicate Rearranges(gnu: bool, h: Halves, words: seq<string>) {
    && multiset(h.front + h.back) == multiset(words) && |h.front| + |h.back| == |words|
    && (!gnu ==> h.front + h.back == words)
  }

  lemma Untouched(gnu: bool, words: seq<string>)
    ensures Rearranges(gnu, Halves([], words), words)
    ensures words != [] ==> Rearranges(gnu, Halves([words[0]], words[1..]), words)
  {
    assert [] + words == words;
    assert words != [] ==> [words[0]] + words[1..] == words;
  }

  /** Whatever is refused, the words stay the same, and without the gnu flag so does their order. */
  lemma {:induction false} LeftPermutes(gnu: bool, parse: WordParser, words: seq<string>, room: int)
    ensures Rearranges(gnu, Left(gnu, parse, words, room), words)
    decreases |words|
  {
    hide Rearranges;
    Untouched(gnu, words);
    if words != [] && NonOption(words[0]) && gnu {
      LeftPermutes(gnu, parse, words[1..], room);
      LeftNonOption(parse, words, room);
      hide Left;
      RearrangesBack(Left(gnu, parse, words[1..], room), words);
    } else if words != [] && OptionWord(words[0]) {
      LeftPermutesOption(gnu, parse, words, room);
    }
  }

  lemma LeftNonOption(parse: WordParser, words: seq<string>, room: int)
    requires words != [] && NonOption(words[0])
    ensures var h := Left(true, parse, words[1..], room); Left(true, parse, words, room) == h.(back := [words[0]] + h.back)
  {
  }

  lemma LeftPermutesOption(gnu: bool, parse: WordParser, words: seq<string>, room: int)
    requires words != [] && OptionWord(words[0])
    ensures Rearranges(gnu, Left(gnu, parse, words, room), words)
    decreases |words|, 0
  {
    hide Left; hide Rearranges;
    LeftOption(gnu, parse, words, room);
    var w, n := parse(words[0], Next(words)), Used(parse, words);
    if Fits(|w.options|, room) && w.ok {
      LeftPermutes(gnu, parse, words[n..], Less(room, |w.options|));
      RearrangesFront(gnu, Left(gnu, parse, words[n..], Less(room, |w.options|)), words, n);
    } else {
      Untouched(gnu, words);
    }
  }

  lemma RearrangesBack(h: Halves, words: seq<string>)
    requires words != [] && Rearranges(true, h, words[1..])
    ensures Rearranges(true, Halves(h.front, [words[0]] + h.back), words)
  {
    var x := words[0];
    assert words == [x] + words[1..];
    assert multiset(h.front + ([x] + h.back)) == multiset(h.front) + multiset{x} + multiset(h.back);
    assert multiset(h.front + h.back) == multiset(h.front) + multiset(h.back);
  }

  lemma RearrangesFront(gnu: bool, h: Halves, words: seq<string>, n: nat)
    requires n <= |words| && Rearranges(gnu, h, words[n..])
    ensures Rearranges(gnu, Halves(words[..n] + h.front, h.back), words)
  {
    assert words == words[..n] + words[n..] && words[..n] + h.front + h.back == words[..n] + (h.front + h.back);
    assert multiset(words) == multiset(words[..n]) + multiset(words[n..]);
    assert multiset(words[..n] + (h.front + h.back)) == multiset(words[..n]) + multiset(h.front + h.back);
  }

  // ---------------------------------------------------------------- stable partition

  /** The elements of `s` at the positions where `mask` is `keep`, in order. */
  function Select<T>(s: seq<T>, mask: seq<bool>, keep: bool): seq<T>
    requires |s| == |mask|
  {
    if s == [] then []
    else (if mask[0] == keep then [s[0]] else []) + Select(s[1..], mask[1..], keep)
  }

  /** The pass gets to word `i` and reads it as a word of its own: not as an argument and not behind its stopping point. */
  ghost predicate Reaches(gnu: bool, parse: WordParser, words: seq<string>, i: nat)
    requires i < |words|
  {
    || i == 0
    || (NonOption(words[0]) && gnu && Reaches(gnu, parse, words[1..], i - 1))
    || (OptionWord(words[0]) && parse(words[0], Next(words)).ok && Used(parse, words) <= i
        && Reaches(gnu, parse, words[Used(parse, words)..], i - Used(parse, words)))
  }

  /** The pass reads word `i` as an option word that it accepts. */
  ghost predicate ReadAsOption(gnu: bool, parse: WordParser, words: seq<string>, i: nat)
    requires i < |words|
  {
    Reaches(gnu, parse, words, i) && OptionWord(words[i]) && parse(words[i], Next(words[i..])).ok
  }

  /** Word `i` is an option word the pass reads, or the argument taken by the one before it, or the terminator the pass stops at. */
  ghost predicate BelongsInFront(gnu: bool, parse: WordParser, words: seq<string>, i: nat)
    requires i < |words|
  {
    || ReadAsOption(gnu, parse, words, i)
    || (i > 0 && ReadAsOption(gnu, parse, words, i - 1) && parse(words[i - 1], Next(words[i - 1..])).took)
    || (Reaches(gnu, parse, words, i) && words[i] == TERMINATOR)
  }

  /** The positions of the words that a pass moves to the front. */
  function Mask(gnu: bool, parse: WordParser, words: seq<string>): (mask: seq<bool>)
    ensures |mask| == |words|
  {
    if words == [] then []
    else if NonOption(words[0]) then
      if gnu then [false] + Mask(gnu, parse, words[1..]) else seq(|words|, _ => false)
    else if words[0] == TERMINATOR then [true] + seq(|words| - 1, _ => false)
    else if !parse(words[0], Next(words)).ok then seq(|words|, _ => false)
    else
      var n := Used(parse, words);
      seq(n, _ => true) + Mask(gnu, parse, words[n..])
  }

  /** The number of words a pass gets through before it stops. */
  function Stop(gnu: bool, parse: WordParser, words: seq<string>): (n: nat)
    ensures n <= |words|
  {
    if words == [] then 0
    else if NonOption(words[0]) then
      if gnu then 1 + Stop(gnu, parse, words[1..]) else 0
    else if words[0] == TERMINATOR then 1
    else if !parse(words[0], Next(words)).ok then 0
    else
      var n := Used(parse, words);
      n + Stop(gnu, parse, words[n..])
  }

  lemma SelectNone<T>(s: seq<T>, mask: seq<bool>)
    requires |s| == |mask| && forall i :: 0 <= i < |mask| ==> !mask[i]
    ensures Select(s, mask, false) == s && Select(s, mask, true) == []
  {
  }

  lemma SelectOne<T>(s: seq<T>, mask: seq<bool>)
    requires |s| == |mask| && s != [] && mask[0]
    ensures Select(s, mask, true) == [s[0]] + Select(s[1..], mask[1..], true)
    ensures Select(s, mask, false) == Select(s[1..], mask[1..], false)
  {
  }

  lemma PairUp<T>(s: seq<T>, t: seq<T>)
    requires |s| >= 2
    ensures [s[0]] + ([s[1]] + t) == s[..2] + t
  {
  }

  lemma SelectHead<T>(s: seq<T>, mask: seq<bool>, n: nat)
    requires |s| == |mask| && 1 <= n <= 2 && n <= |s| && forall i :: 0 <= i < n ==> mask[i]
    ensures Select(s, mask, true) == s[..n] + Select(s[n..], mask[n..], true)
    ensures Select(s, mask, false) == Select(s[n..], mask[n..], false)
  {
    SelectOne(s, mask);
    hide Select;
    if n == 1 {
      assert s[..1] == [s[0]];
    } else {
      SelectOne(s[1..], mask[1..]);
      assert s[1..][1..] == s[2..] && mask[1..][1..] == mask[2..];
      PairUp(s, Select(s[2..], mask[2..], true));
    }
  }

  /** The front and the back are the words at complementary positions, each in original order. */
  lemma {:induction false} StablePartition(gnu: bool, parse: WordParser, words: seq<string>)
    ensures Scan(gnu, parse, words).front == Select(words, Mask(gnu, parse, words), true)
    ensures Scan(gnu, parse, words).back == Select(words, Mask(gnu, parse, words), false)
  {
    var mask := Mask(gnu, parse, words);
    if words == [] {
    } else if NonOption(words[0]) && gnu {
      StablePartition(gnu, parse, words[1..]);
      assert mask[1..] == Mask(gnu, parse, words[1..]);
    } else if NonOption(words[0]) || (words[0] != TERMINATOR && !parse(words[0], Next(words)).ok) {
      SelectNone(words, mask);
    } else if words[0] == TERMINATOR {
      SelectNone(words[1..], mask[1..]);
    } else {
      var n := Used(parse, words);
      StablePartition(gnu, parse, words[n..]);
      assert mask[n..] == Mask(gnu, parse, words[n..]);
      SelectHead(words, mask, n);
    }
  }

  lemma ReadShift(gnu: bool, parse: WordParser, words: seq<string>, n: nat, i: nat)
    requires n <= i < |words|
    requires Reaches(gnu, parse, words, i) <==> Reaches(gnu, parse, words[n..], i - n)
    ensures ReadAsOption(gnu, parse, words, i) <==> ReadAsOption(gnu, parse, words[n..], i - n)
  {
    assert words[n..][i - n..] == words[i..];
  }

  /** What it means for word `i` to be moved or not. */
  ghost predicate MaskMeans(gnu: bool, parse: WordParser, words: seq<string>, i: nat)
    requires i < |words|
  {
    && (Mask(gnu, parse, words)[i] <==> BelongsInFront(gnu, parse, words, i))
    && (!Mask(gnu, parse, words)[i] ==> NonOption(words[i]) || i >= Stop(gnu, parse, words))
    && (i >= Stop(gnu, parse, words) ==> !Mask(gnu, parse, words)[i])
    && (Reaches(gnu, parse, words, i) && words[i] == TERMINATOR ==> i + 1 == Stop(gnu, parse, words))
  }

  /** The pass gets to word `i` over the first `n` words as it gets there from behind them. */
  ghost predicate SameReach(gnu: bool, parse: WordParser, words: seq<string>, n: nat, i: nat)
    requires n <= i < |words|
  {
    Reaches(gnu, parse, words, i) <==> Reaches(gnu, parse, words[n..], i - n)
  }

  /** The pass goes on after its first `n` words: word `i` fares as in a pass over the rest. */
  ghost predicate GoesOn(gnu: bool, parse: WordParser, words: seq<string>, n: nat, i: nat)
    requires 1 <= n <= i < |words|
  {
    && Stop(gnu, parse, words) == n + Stop(gnu, parse, words[n..])
    && Mask(gnu, parse, words)[i] == Mask(gnu, parse, words[n..])[i - n]
    && SameReach(gnu, parse, words, n, i)
    && (if i > n then SameReach(gnu, parse, words, n, i - 1)
        else ReadAsOption(gnu, parse, words, n - 1) ==> !parse(words[n - 1], Next(words[n - 1..])).took)
  }

  lemma NonOptionGoesOn(parse: WordParser, words: seq<string>, i: nat)
    requires 1 <= i < |words| && NonOption(words[0])
    ensures GoesOn(true, parse, words, 1, i)
  {
  }

  lemma OptionMask(gnu: bool, parse: WordParser, words: seq<string>)
    requires words != [] && OptionWord(words[0]) && parse(words[0], Next(words)).ok
    ensures var n := Used(parse, words);
            && Stop(gnu, parse, words) == n + Stop(gnu, parse, words[n..])
            && Mask(gnu, parse, words) == seq(n, _ => true) + Mask(gnu, parse, words[n..])
  {
  }

  lemma OptionReaches(gnu: bool, parse: WordParser, words: seq<string>, k: nat)
    requires k < |words| && OptionWord(words[0]) && parse(words[0], Next(words)).ok
    ensures 0 < k < Used(parse, words) ==> !Reaches(gnu, parse, words, k)
    ensures Used(parse, words) <= k ==> SameReach(gnu, parse, words, Used(parse, words), k)
  {
  }

  lemma OptionGoesOn(gnu: bool, parse: WordParser, words: seq<string>, i: nat)
    requires i < |words| && OptionWord(words[0]) && parse(words[0], Next(words)).ok && Used(parse, words) <= i
    ensures GoesOn(gnu, parse, words, Used(parse, words), i)
  {
    hide Mask; hide Stop; hide Reaches; hide SameReach;
    assert words[0..] == words;
    OptionMask(gnu, parse, words);
    OptionReaches(gnu, parse, words, i);
    OptionReaches(gnu, parse, words, i - 1);
  }

  lemma MeansShift(gnu: bool, parse: WordParser, words: seq<string>, n: nat, i: nat)
    requires 1 <= n <= i < |words| && GoesOn(gnu, parse, words, n, i) && MaskMeans(gnu, parse, words[n..], i - n)
    ensures MaskMeans(gnu, parse, words, i)
  {
    hide Mask; hide Stop; hide Reaches;
    ReadShift(gnu, parse, words, n, i);
    if i > n {
      ReadShift(gnu, parse, words, n, i - 1);
      assert words[n..][i - 1 - n..] == words[i - 1..];
    }
  }

  /** The words of the option that the pass reads first, and a first word that stops the pass. */
  lemma HeadMeans(gnu: bool, parse: WordParser, words: seq<string>, i: nat)
    requires i < |words| && OptionWord(words[0]) && parse(words[0], Next(words)).ok && i < Used(parse, words)
    ensures MaskMeans(gnu, parse, words, i)
  {
    assert words[0..] == words;
    if i == 1 {
      assert !Reaches(gnu, parse, words, 1) && ReadAsOption(gnu, parse, words, 0);
    }
  }

  lemma HaltMeans(gnu: bool, parse: WordParser, words: seq<string>, i: nat)
    requires i < |words|
    requires (NonOption(words[0]) && (!gnu || i == 0)) || words[0] == TERMINATOR || (OptionWord(words[0]) && !parse(words[0], Next(words)).ok)
    ensures MaskMeans(gnu, parse, words, i)
  {
    assert words[0..] == words;
    assert i > 0 ==> !Reaches(gnu, parse, words, i);
    assert i > 1 ==> !Reaches(gnu, parse, words, i - 1);
  }

  lemma {:induction false} MaskMeansAll(gnu: bool, parse: WordParser, words: seq<string>, i: nat)
    requires i < |words|
    ensures MaskMeans(gnu, parse, words, i)
    decreases |words|
  {
    hide MaskMeans; hide GoesOn;
    if NonOption(words[0]) && gnu && i > 0 {
      NonOptionGoesOn(parse, words, i);
      MaskMeansAll(gnu, parse, words[1..], i - 1);
      MeansShift(gnu, parse, words, 1, i);
    } else if OptionWord(words[0]) && parse(words[0], Next(words)).ok {
      var n := Used(parse, words);
      if i < n {
        HeadMeans(gnu, parse, words, i);
      } else {
        OptionGoesOn(gnu, parse, words, i);
        MaskMeansAll(gnu, parse, words[n..], i - n);
        MeansShift(gnu, parse, words, n, i);
      }
    } else {
      HaltMeans(gnu, parse, words, i);
    }
  }

  /**
   A word is moved to the front if and only if the pass reads it as an option word, an option
   before it takes it as its argument, or it is the terminator at which the pass stops. Up to
   the stopping point all others are non-options; behind it everything stays.
   */
  lemma PartitionMeaning(gnu: bool, parse: WordParser, words: seq<string>, i: nat)
    requires i < |words|
    ensures Mask(gnu, parse, words)[i] <==> BelongsInFront(gnu, parse, words, i)
    ensures !Mask(gnu, parse, words)[i] ==> NonOption(words[i]) || i >= Stop(gnu, parse, words)
    ensures i >= Stop(gnu, parse, words) ==> !Mask(gnu, parse, words)[i]
    ensures Reaches(gnu, parse, words, i) && words[i] == TERMINATOR ==> i + 1 == Stop(gnu, parse, words)
  {
    hide Mask; hide Stop; hide Reaches; hide BelongsInFront;
    MaskMeansAll(gnu, parse, words, i);
  }

  lemma {:induction false} TailAtStop(gnu: bool, parse: WordParser, words: seq<string>)
    ensures Scan(gnu, parse, words).tail == words[Stop(gnu, parse, words)..]
  {
    if words == [] {
    } else if NonOption(words[0]) {
      if gnu {
        TailAtStop(gnu, parse, words[1..]);
        assert words[1..][Stop(gnu, parse, words[1..])..] == words[Stop(gnu, parse, words)..];
      }
    } else if words[0] != TERMINATOR && parse(words[0], Next(words)).ok {
      var n := Used(parse, words);
      TailAtStop(gnu, parse, words[n..]);
      assert words[n..][Stop(gnu, parse, words[n..])..] == words[Stop(gnu, parse, words)..];
    }
  }

  lemma {:induction false} SelectPermutes<T>(s: seq<T>, mask: seq<bool>)
    requires |s| == |mask|
    ensures multiset(Select(s, mask, true)) + multiset(Select(s, mask, false)) == multiset(s)
    ensures |Select(s, mask, true)| + |Select(s, mask, false)| == |s|
  {
    if s != [] {
      SelectPermutes(s[1..], mask[1..]);
      SelectStep(s, mask);
      hide Select;
      var a, b := Select(s[1..], mask[1..], true), Select(s[1..], mask[1..], false);
      if mask[0] {
        Dealt(s, a, b);
      } else {
        Dealt(s, b, a);
      }
    }
  }

  lemma SelectStep<T>(s: seq<T>, mask: seq<bool>)
    requires |s| == |mask| && s != []
    ensures var a, b := Select(s[1..], mask[1..], true), Select(s[1..], mask[1..], false);
            if mask[0] then Select(s, mask, true) == [s[0]] + a && Select(s, mask, false) == b
            else Select(s, mask, true) == a && Select(s, mask, false) == [s[0]] + b
  {
  }

  lemma Dealt<T>(s: seq<T>, a: seq<T>, b: seq<T>)
    requires s != [] && multiset(a) + multiset(b) == multiset(s[1..])
    ensures multiset([s[0]] + a) + multiset(b) == multiset(s)
  {
    assert s == [s[0]] + s[1..];
  }

  /** No pass, successful or not, loses or duplicates a word. */
  lemma ScanPermutes(gnu: bool, parse: WordParser, words: seq<string>)
    ensures var r := Scan(gnu, parse, words);
            multiset(r.front) + multiset(r.back) == multiset(words) && |r.front| + |r.back| == |words|
  {
    StablePartition(gnu, parse, words);
    SelectPermutes(words, Mask(gnu, parse, words));
  }

  /** Without the gnu flag nothing moves. */
  lemma {:induction false} PosixKeepsOrder(parse: WordParser, words: seq<string>)
    ensures var r := Scan(false, parse, words); r.front + r.back == words
  {
    if words != [] && OptionWord(words[0]) && parse(words[0], Next(words)).ok {
      var n := Used(parse, words);
      PosixKeepsOrder(parse, words[n..]);
      var r1 := Scan(false, parse, words[n..]);
      assert words[..n] + r1.front + r1.back == words[..n] + words[n..];
    }
  }
}
