/** How the line wrapper of the usage formatter cuts a text: greedily, into pieces that fit a column. */
module LineWrapping {
  import opened Utf8

  const SPACE: Byte := 0x20

  // ---------------------------------------------------------------- one cut

  ghost predicate Fits(s: seq<Byte>, width: nat, i: nat) {
    i <= |s| && IsBoundary(s, i) && Width(s[..i]) <= width
  }

  ghost predicate SpaceFits(s: seq<Byte>, width: nat, i: nat) {
    i < |s| && s[i] == 0x20 && Width(s[..i]) <= width
  }

  /** Where a piece ends and where the next one starts: behind the space the text was split at, or right there. */
  datatype Cut = Cut(end: nat, next: nat)

  /** All that fits; else what stands before the last space that still has a fitting text before it; else the longest fitting text. */
  ghost predicate Greedy(s: seq<Byte>, width: nat, c: Cut) {
    if Width(s) <= width then c == Cut(|s|, |s|)
    else if exists i: nat :: SpaceFits(s, width, i) then
      SpaceFits(s, width, c.end) && c.next == c.end + 1 && forall i: nat :: SpaceFits(s, width, i) ==> i <= c.end
    else
      Fits(s, width, c.end) && c.next == c.end && forall i: nat :: Fits(s, width, i) ==> i <= c.end
  }

  /** How far the scan for the end of the line gets. */
  function Reach(s: seq<Byte>, width: nat): (m: nat)
    ensures m <= |s|
    ensures s != [] && width >= 2 ==> m > 0
  {
    if s == [] || CharWidth(s) > width then 0 else CharLen(s) + Reach(s[CharLen(s)..], width - CharWidth(s))
  }

  /** The last space at or before `m`, or -1. */
  function LastSpace(s: seq<Byte>, m: int): (i: int)
    requires -1 <= m < |s|
    ensures -1 <= i <= m
    ensures i >= 0 ==> s[i] == SPACE
    ensures forall j :: i < j <= m ==> s[j] != SPACE
    decreases m + 1
  {
    if m < 0 || s[m] == SPACE then m else LastSpace(s, m - 1)
  }

  function CutOf(s: seq<Byte>, width: nat): (c: Cut)
    ensures c.end <= c.next <= |s|
    ensures s != [] && width >= 2 ==> c.next > 0
  {
    var m := Reach(s, width);
    if m == |s| then Cut(m, m)
    else var i := LastSpace(s, m); if i >= 0 then Cut(i, i + 1) else Cut(m, m)
  }

  lemma {:induction false} ReachFits(s: seq<Byte>, width: nat)
    ensures Fits(s, width, Reach(s, width))
  {
    hide CharLen; hide CharWidth;
    if s != [] && CharWidth(s) <= width {
      var n, m := CharLen(s), Reach(s, width);
      ReachFits(s[n..], width - CharWidth(s));
      CutBehind(s, m);
      assert s[..m][n..] == s[n..][..m - n];
    }
  }

  lemma {:induction false} ReachLongest(s: seq<Byte>, width: nat, i: nat)
    requires Fits(s, width, i)
    ensures i <= Reach(s, width)
    decreases i
  {
    hide CharLen; hide CharWidth;
    if i > 0 {
      var n := CharLen(s);
      CutBehind(s, i);
      assert s[..i][n..] == s[n..][..i - n];
      ReachLongest(s[n..], width - CharWidth(s), i - n);
    }
  }

  /** A text that ends earlier is not wider. */
  lemma NarrowerBefore(s: seq<Byte>, i: nat, m: nat)
    requires i <= m <= |s| && IsBoundary(s, i) && IsBoundary(s, m)
    ensures Width(s[..i]) <= Width(s[..m])
  {
    hide Width; hide IsBoundary;
    BoundaryOfPrefix(s, i, m);
    WidthSplits(s[..m], i);
    assert s[..m][..i] == s[..i];
  }

  lemma {:induction false} BoundaryOfPrefix(s: seq<Byte>, i: nat, m: nat)
    requires i <= m <= |s| && IsBoundary(s, i)
    ensures IsBoundary(s[..m], i)
    decreases i
  {
    hide CharLen; hide CharWidth;
    if i > 0 {
      var n := CharLen(s);
      CutBehind(s, m);
      assert s[..m][n..] == s[n..][..m - n];
      BoundaryOfPrefix(s[n..], i - n, m - n);
    }
  }

  lemma SpaceWithin(s: seq<Byte>, width: nat, i: nat)
    requires i < |s| && s[i] == SPACE
    ensures SpaceFits(s, width, i) <==> i <= Reach(s, width)
  {
    hide Width; hide IsBoundary; hide Reach;
    var m := Reach(s, width);
    AsciiBoundary(s, i);
    ReachFits(s, width);
    if i <= m {
      NarrowerBefore(s, i, m);
    } else if SpaceFits(s, width, i) {
      ReachLongest(s, width, i);
    }
  }

  lemma WholeFits(s: seq<Byte>, width: nat)
    ensures Width(s) <= width <==> Reach(s, width) == |s|
  {
    ReachFits(s, width);
    assert s[..|s|] == s;
    if Width(s) <= width {
      EndIsBoundary(s);
      ReachLongest(s, width, |s|);
    }
  }

  lemma StartIsBoundary(s: seq<Byte>)
    ensures IsBoundary(s, 0)
  {
  }

  lemma {:induction false} EndIsBoundary(s: seq<Byte>)
    ensures IsBoundary(s, |s|)
  {
    if s != [] {
      EndIsBoundary(s[CharLen(s)..]);
    }
  }

  /** The code's cut is the greedy one. */
  lemma CutIsGreedy(s: seq<Byte>, width: nat)
    ensures Greedy(s, width, CutOf(s, width))
  {
    hide Width; hide Reach; hide Fits; hide SpaceFits;
    WholeFits(s, width);
    var m, c := Reach(s, width), CutOf(s, width);
    ReachFits(s, width);
    if m < |s| {
      forall i: nat | SpaceFits(s, width, i)
        ensures i <= c.end && c.next == c.end + 1
      {
        SpaceIsThere(s, width, i);
        SpaceWithin(s, width, i);
      }
      if LastSpace(s, m) >= 0 {
        SpaceWithin(s, width, c.end);
      } else {
        forall i: nat | Fits(s, width, i)
          ensures i <= m
        {
          ReachLongest(s, width, i);
        }
      }
    }
  }

  lemma SpaceIsThere(s: seq<Byte>, width: nat, i: nat)
    requires SpaceFits(s, width, i)
    ensures i < |s| && s[i] == SPACE
  {
  }

  /** There is only one greedy cut. */
  lemma GreedyIsUnique(s: seq<Byte>, width: nat, c: Cut, d: Cut)
    requires Greedy(s, width, c) && Greedy(s, width, d)
    ensures c == d
  {
    hide Fits; hide SpaceFits;
  }

  // ---------------------------------------------------------------- a whole text

  /** A piece, and whether the space behind it was dropped. */
  datatype Piece = Piece(text: seq<Byte>, dropped: bool)

  function Wrap(s: seq<Byte>, width: nat): seq<Piece>
    requires width >= 2
  {
    if s == [] then [] else var c := CutOf(s, width); [Piece(s[..c.end], c.next > c.end)] + Wrap(s[c.next..], width)
  }

  function Whole(p: Piece): seq<Byte> {
    p.text + if p.dropped then [0x20] else []
  }

  function Rejoin(pieces: seq<Piece>): seq<Byte> {
    if pieces == [] then [] else Whole(pieces[0]) + Rejoin(pieces[1..])
  }

  lemma CutSpace(s: seq<Byte>, width: nat)
    ensures var c := CutOf(s, width); c.next == c.end || (c.next == c.end + 1 && s[c.end] == SPACE)
  {
  }

  /** With the one space dropped at each split at a space, the pieces are the text. */
  lemma {:induction false} WrapRejoins(s: seq<Byte>, width: nat)
    requires width >= 2
    ensures Rejoin(Wrap(s, width)) == s
    decreases |s|
  {
    hide CutOf;
    if s != [] {
      var c := CutOf(s, width);
      CutSpace(s, width);
      WrapRejoins(s[c.next..], width);
      WholePiece(s, c);
      RejoinCons(Piece(s[..c.end], c.next > c.end), Wrap(s[c.next..], width));
    }
  }

  lemma WholePiece(s: seq<Byte>, c: Cut)
    requires c.end <= c.next <= |s| && (c.next == c.end || (c.next == c.end + 1 && s[c.end] == SPACE))
    ensures Whole(Piece(s[..c.end], c.next > c.end)) == s[..c.next] && s[..c.next] + s[c.next..] == s
  {
  }

  lemma RejoinCons(p: Piece, pieces: seq<Piece>)
    ensures Rejoin([p] + pieces) == Whole(p) + Rejoin(pieces)
  {
    assert ([p] + pieces)[1..] == pieces;
  }

  lemma GreedyFits(s: seq<Byte>, width: nat, c: Cut)
    requires Greedy(s, width, c)
    ensures c.end <= c.next <= |s| && IsBoundary(s, c.end) && IsBoundary(s, c.next) && Width(s[..c.end]) <= width
  {
    hide Width; hide IsBoundary;
    if Width(s) <= width {
      EndIsBoundary(s);
      assert s[..|s|] == s;
    } else if SpaceFits(s, width, c.end) {
      AsciiBoundary(s, c.end);
    }
  }

  /**
   The piece stands at `o`, starts and ends on a character boundary of the text, is no wider
   than the column, and is the greedy choice for what is left of the text there.
   */
  ghost predicate GreedyAt(s: seq<Byte>, width: nat, p: Piece, o: nat) {
    && o + |Whole(p)| <= |s| && s[o..o + |Whole(p)|] == Whole(p)
    && IsBoundary(s, o) && IsBoundary(s, o + |p.text|)
    && Width(p.text) <= width && Greedy(s[o..], width, Cut(|p.text|, |Whole(p)|))
  }

  lemma FirstIsGreedy(s: seq<Byte>, width: nat)
    requires width >= 2 && s != []
    ensures var c := CutOf(s, width); GreedyAt(s, width, Piece(s[..c.end], c.next > c.end), 0) && IsBoundary(s, c.next)
  {
    hide CutOf; hide Greedy; hide Width; hide IsBoundary;
    var c := CutOf(s, width);
    CutIsGreedy(s, width);
    GreedyFits(s, width, c);
    CutSpace(s, width);
    StartIsBoundary(s);
    assert s[0..] == s;
    assert s[..c.next] == Whole(Piece(s[..c.end], c.next > c.end));
  }

  lemma LaterIsGreedy(s: seq<Byte>, width: nat, p: Piece, n: nat, o: nat)
    requires n <= |s| && IsBoundary(s, n) && GreedyAt(s[n..], width, p, o)
    ensures GreedyAt(s, width, p, n + o)
  {
    hide Greedy; hide Width; hide IsBoundary;
    BoundaryAfter(s, n, n + o);
    BoundaryAfter(s, n, n + o + |p.text|);
    assert s[n + o..] == s[n..][o..];
    assert s[n + o..n + o + |Whole(p)|] == s[n..][o..o + |Whole(p)|];
  }

  /** Every piece of a wrapped text, at its place in the text. */
  lemma {:induction false} WrapIsGreedy(s: seq<Byte>, width: nat, k: nat)
    requires width >= 2 && k < |Wrap(s, width)|
    ensures GreedyAt(s, width, Wrap(s, width)[k], |Rejoin(Wrap(s, width)[..k])|)
    decreases |s|
  {
    hide CutOf; hide GreedyAt; hide IsBoundary;
    var c, all := CutOf(s, width), Wrap(s, width);
    FirstIsGreedy(s, width);
    var rest := s[c.next..];
    if k == 0 {
      assert all[..0] == [];
    } else {
      WrapIsGreedy(rest, width, k - 1);
      assert all[..k][1..] == Wrap(rest, width)[..k - 1];
      CutSpace(s, width);
      assert |Whole(all[0])| == c.next;
      LaterIsGreedy(s, width, all[k], c.next, |Rejoin(Wrap(rest, width)[..k - 1])|);
    }
  }

  // ---------------------------------------------------------------- the scans

  /** Where the line ends: the scan that adds up widths character by character. */
  method FitLine(data: seq<Byte>, width: nat) returns (maxi: nat)
    ensures maxi == Reach(data, width)
  {
    hide CharLen; hide CharWidth;
    var utf8Width := 0;
    maxi := 0;
    assert data[0..] == data;
    while maxi < |data| && utf8Width < width
      invariant maxi <= |data| && utf8Width <= width
      invariant Reach(data, width) == maxi + Reach(data[maxi..], width - utf8Width)
    {
      var charBytes, wide := ReadChar(data[maxi..]);
      if wide {
        if utf8Width + 2 > width {
          break;
        }
        utf8Width := utf8Width + 1;
      }
      utf8Width := utf8Width + 1;
      assert data[maxi..][charBytes..] == data[maxi + charBytes..];
      maxi := maxi + charBytes;
    }
  }

  method FindSpace(data: seq<Byte>, maxi: nat) returns (i: int)
    requires maxi < |data|
    ensures i == LastSpace(data, maxi)
  {
    i := maxi;
    while i >= 0
      invariant -1 <= i <= maxi && LastSpace(data, maxi) == LastSpace(data, i)
    {
      if data[i] == SPACE {
        break;
      }
      i := i - 1;
    }
  }

  /** One round of the splitting loop, with its quick test. */
  method SplitOff(data: seq<Byte>, width: nat) returns (end: nat, next: nat)
    requires data != [] && width >= 2
    ensures Cut(end, next) == CutOf(data, width)
  {
    if |data| <= width {
      WidthAtMostBytes(data);
      WholeFits(data, width);
      return |data|, |data|;
    }
    var maxi := FitLine(data, width);
    if maxi == |data| {
      return |data|, |data|;
    }
    var i := FindSpace(data, maxi);
    if i >= 0 {
      return i, i + 1;
    }
    return maxi, maxi;
  }
}
