/**
 The grid of a usage row: cells separated by tabs, the lines of a cell separated by vertical
 tabs, and every cell padded with empty parts to the height of the tallest. A position in the
 row knows its column and its line within the cell; this is what a scan of the row counts.
 */
module LineParts {
  import opened Common
  import opened Utf8

  const NUL: Byte := 0x00
  const TAB: Byte := 0x09
  const NEWLINE: Byte := 0x0A
  const VTAB: Byte := 0x0B

  // ---------------------------------------------------------------- splitting

  /** The first separator from there on, or the end. */
  function Find(s: seq<Byte>, sep: Byte, from: nat): (i: nat)
    requires from <= |s|
    ensures from <= i <= |s| && (forall j :: from <= j < i ==> s[j] != sep) && (i < |s| ==> s[i] == sep)
  {
    FindFrom(s, from, b => b == sep)
  }

  /** The parts between separators, of the text from there on. */
  function SplitFrom(s: seq<Byte>, sep: Byte, from: nat): (parts: seq<seq<Byte>>)
    requires from <= |s|
    ensures parts != []
    decreases |s| - from
  {
    var i := Find(s, sep, from);
    if i == |s| then [s[from..]] else [s[from..i]] + SplitFrom(s, sep, i + 1)
  }

  function Split(s: seq<Byte>, sep: Byte): (parts: seq<seq<Byte>>)
    ensures parts != []
  {
    SplitFrom(s, sep, 0)
  }

  /** How many separators there are between two positions. */
  function Count(s: seq<Byte>, sep: Byte, from: nat, to: nat): nat
    requires from <= to <= |s|
  {
    if from == to then 0 else Count(s, sep, from, to - 1) + if s[to - 1] == sep then 1 else 0
  }

  lemma {:induction false} CountSplits(s: seq<Byte>, sep: Byte, from: nat, mid: nat, to: nat)
    requires from <= mid <= to <= |s|
    ensures Count(s, sep, from, to) == Count(s, sep, from, mid) + Count(s, sep, mid, to)
  {
    if mid < to {
      CountSplits(s, sep, from, mid, to - 1);
    }
  }

  lemma {:induction false} CountNone(s: seq<Byte>, sep: Byte, from: nat, to: nat)
    requires from <= to <= |s| && forall j :: from <= j < to ==> s[j] != sep
    ensures Count(s, sep, from, to) == 0
  {
    if from < to {
      CountNone(s, sep, from, to - 1);
    }
  }

  lemma BehindFirst(s: seq<Byte>, sep: Byte, from: nat, to: nat)
    requires from <= |s| && Find(s, sep, from) < to <= |s|
    ensures Count(s, sep, from, to) == 1 + Count(s, sep, Find(s, sep, from) + 1, to)
  {
    var i := Find(s, sep, from);
    CountNone(s, sep, from, i);
    CountSplits(s, sep, from, i + 1, to);
  }

  /** As many parts as separators, and one. */
  lemma {:induction false} SplitLength(s: seq<Byte>, sep: Byte, from: nat)
    requires from <= |s|
    ensures |SplitFrom(s, sep, from)| == Count(s, sep, from, |s|) + 1
    decreases |s| - from
  {
    var i := Find(s, sep, from);
    if i == |s| {
      CountNone(s, sep, from, i);
    } else {
      SplitLength(s, sep, i + 1);
      BehindFirst(s, sep, from, |s|);
    }
  }

  lemma {:induction false} FindUnique(s: seq<Byte>, sep: Byte, from: nat, e: nat)
    requires from <= e <= |s| && (forall j :: from <= j < e ==> s[j] != sep) && (e < |s| ==> s[e] == sep)
    ensures Find(s, sep, from) == e
    decreases e - from
  {
    if from < e {
      FindUnique(s, sep, from + 1, e);
    }
  }

  lemma FindAfter(s: seq<Byte>, sep: Byte, from: nat, p: nat)
    requires from < p <= |s| && s[p - 1] == sep
    ensures Find(s, sep, from) < p
  {
  }

  /** The part that starts at `p` is the one with as many separators before it. */
  lemma {:induction false} SplitAt(s: seq<Byte>, sep: Byte, from: nat, p: nat)
    requires from <= p <= |s| && (p == from || s[p - 1] == sep)
    ensures Count(s, sep, from, p) < |SplitFrom(s, sep, from)|
    ensures SplitFrom(s, sep, from)[Count(s, sep, from, p)] == s[p..Find(s, sep, p)]
    decreases |s| - from
  {
    if from < p {
      FindAfter(s, sep, from, p);
      BehindFirst(s, sep, from, p);
      SplitAt(s, sep, Find(s, sep, from) + 1, p);
    }
  }

  /** Counting within a slice is counting in the whole. */
  lemma {:induction false} CountSlice(s: seq<Byte>, sep: Byte, p: nat, e: nat, k: nat)
    requires p <= p + k <= e <= |s|
    ensures Count(s[p..e], sep, 0, k) == Count(s, sep, p, p + k)
    decreases k
  {
    if k > 0 {
      CountSlice(s, sep, p, e, k - 1);
    }
  }

  // ---------------------------------------------------------------- writing parts down

  /** The parts with the separator between them. */
  function Join(parts: seq<seq<Byte>>, sep: Byte): (s: seq<Byte>)
    requires parts != []
  {
    if |parts| == 1 then parts[0] else parts[0] + [sep] + Join(parts[1..], sep)
  }

  lemma DropTwice<T>(s: seq<T>, from: nat, k: nat, i: nat)
    requires k <= i && from + i <= |s|
    ensures s[from..][k..i] == s[from + k..from + i] && (i == |s| - from ==> s[from..][k..] == s[from + k..])
  {
  }

  lemma FindSuffix(s: seq<Byte>, sep: Byte, from: nat, k: nat)
    requires from + k <= |s|
    ensures Find(s, sep, from + k) == from + Find(s[from..], sep, k)
  {
    hide Find;
    FindUnique(s, sep, from + k, from + Find(s[from..], sep, k));
  }

  lemma SplitStep(s: seq<Byte>, sep: Byte, from: nat)
    requires from <= |s|
    ensures var i := Find(s, sep, from); SplitFrom(s, sep, from) == if i == |s| then [s[from..]] else [s[from..i]] + SplitFrom(s, sep, i + 1)
  {
  }

  lemma {:induction false} SplitSuffix(s: seq<Byte>, sep: Byte, from: nat, k: nat)
    requires from + k <= |s|
    ensures SplitFrom(s, sep, from + k) == SplitFrom(s[from..], sep, k)
    decreases |s| - from - k
  {
    hide Find; hide SplitFrom;
    var i := Find(s[from..], sep, k);
    FindSuffix(s, sep, from, k);
    DropTwice(s, from, k, i);
    SplitStep(s, sep, from + k);
    SplitStep(s[from..], sep, k);
    if i < |s| - from {
      SplitSuffix(s, sep, from, i + 1);
    }
  }

  lemma SplitOne(a: seq<Byte>, sep: Byte)
    requires sep !in a
    ensures Split(a, sep) == [a]
  {
    hide Find;
    FindUnique(a, sep, 0, |a|);
    assert a[0..] == a;
  }

  lemma SplitHead(a: seq<Byte>, sep: Byte, rest: seq<Byte>)
    requires sep !in a
    ensures Split(a + [sep] + rest, sep) == [a] + Split(rest, sep)
  {
    hide Find;
    var s, n := a + [sep] + rest, |a|;
    FindUnique(s, sep, 0, n);
    SplitSuffix(s, sep, n + 1, 0);
    assert s[n + 1..] == rest && s[0..n] == a;
  }

  /** Splitting undoes joining. */
  lemma {:induction false} SplitJoined(parts: seq<seq<Byte>>, sep: Byte)
    requires parts != [] && forall i :: 0 <= i < |parts| ==> sep !in parts[i]
    ensures Split(Join(parts, sep), sep) == parts
  {
    hide Split;
    if |parts| == 1 {
      SplitOne(parts[0], sep);
    } else {
      SplitJoined(parts[1..], sep);
      SplitHead(parts[0], sep, Join(parts[1..], sep));
    }
  }

  lemma {:induction false} NotJoined(parts: seq<seq<Byte>>, sep: Byte, other: Byte)
    requires parts != [] && other != sep && forall i :: 0 <= i < |parts| ==> other !in parts[i]
    ensures other !in Join(parts, sep)
  {
    if |parts| > 1 {
      NotJoined(parts[1..], sep, other);
    }
  }

  /** The cells of a row as text: lines separated by vertical tabs, which are bytes 11. */
  function CellTexts(cells: seq<seq<seq<Byte>>>): (texts: seq<seq<Byte>>)
    requires forall c :: 0 <= c < |cells| ==> cells[c] != []
    ensures |texts| == |cells| && forall c :: 0 <= c < |cells| ==> texts[c] == Join(cells[c], 11)
  {
    seq(|cells|, c requires 0 <= c < |cells| => Join(cells[c], 11))
  }

  /** A row written down with tabs, which are bytes 9, between its cells has these cells and lines. */
  lemma WrittenRow(cells: seq<seq<seq<Byte>>>)
    requires cells != [] && forall c :: 0 <= c < |cells| ==> cells[c] != []
    requires forall c, l :: 0 <= c < |cells| && 0 <= l < |cells[c]| ==> 9 !in cells[c][l] && 11 !in cells[c][l]
    ensures var row := Join(CellTexts(cells), 9);
            |Cells(row)| == |cells| && forall c :: 0 <= c < |cells| ==> CellLines(Cells(row)[c]) == cells[c]
  {
    hide Split;
    forall c | 0 <= c < |cells|
      ensures 9 !in Join(cells[c], 11) && Split(Join(cells[c], 11), 11) == cells[c]
    {
      NotJoined(cells[c], 11, 9);
      SplitJoined(cells[c], 11);
    }
    SplitJoined(CellTexts(cells), 9);
  }

  // ---------------------------------------------------------------- the grid

  function Cells(row: seq<Byte>): (cells: seq<seq<Byte>>)
    ensures cells != []
  {
    Split(row, TAB)
  }

  function CellLines(cell: seq<Byte>): (lines: seq<seq<Byte>>)
    ensures lines != []
  {
    Split(cell, VTAB)
  }

  function Tallest(cells: seq<seq<Byte>>): (h: nat)
    ensures forall c :: 0 <= c < |cells| ==> |CellLines(cells[c])| <= h
    ensures cells != [] ==> exists c :: 0 <= c < |cells| && |CellLines(cells[c])| == h
  {
    if cells == [] then 0
    else
      var n := |cells| - 1;
      var h := Tallest(cells[..n]);
      if |CellLines(cells[n])| > h then |CellLines(cells[n])| else h
  }

  function Height(row: seq<Byte>): nat {
    Tallest(Cells(row))
  }

  /** The text of a cell's line; empty when the cell has fewer lines. */
  function PartText(row: seq<Byte>, line: nat, column: nat): seq<Byte>
    requires column < |Cells(row)|
  {
    var lines := CellLines(Cells(row)[column]);
    if line < |lines| then lines[line] else []
  }

  datatype Part = Part(line: nat, column: nat, text: seq<Byte>)

  function GridLine(row: seq<Byte>, line: nat): (parts: seq<Part>)
    ensures |parts| == |Cells(row)| && forall c :: 0 <= c < |parts| ==> parts[c] == Part(line, c, PartText(row, line, c))
  {
    seq(|Cells(row)|, c requires 0 <= c < |Cells(row)| => Part(line, c, PartText(row, line, c)))
  }

  /** The first lines of the row, line by line. */
  function GridTo(row: seq<Byte>, lines: nat): seq<Part> {
    if lines == 0 then [] else GridTo(row, lines - 1) + GridLine(row, lines - 1)
  }

  function Grid(row: seq<Byte>): seq<Part> {
    GridTo(row, Height(row))
  }

  /** Columns times lines parts, the k-th in line k / columns and column k % columns. */
  lemma {:induction false} GridIndex(row: seq<Byte>, lines: nat, line: nat, column: nat)
    requires line < lines && column < |Cells(row)|
    ensures |GridTo(row, lines)| == lines * |Cells(row)|
    ensures line * |Cells(row)| + column < |GridTo(row, lines)|
    ensures GridTo(row, lines)[line * |Cells(row)| + column] == Part(line, column, PartText(row, line, column))
  {
    var n := |Cells(row)|;
    GridLength(row, lines);
    GridLength(row, lines - 1);
    if line < lines - 1 {
      GridIndex(row, lines - 1, line, column);
    } else {
      assert line * n == (lines - 1) * n;
    }
  }

  lemma {:induction false} GridLength(row: seq<Byte>, lines: nat)
    ensures |GridTo(row, lines)| == lines * |Cells(row)|
  {
    if lines > 0 {
      GridLength(row, lines - 1);
      assert lines * |Cells(row)| == (lines - 1) * |Cells(row)| + |Cells(row)|;
    }
  }

  // ---------------------------------------------------------------- positions in a row

  /** The column of a position. */
  function ColumnAt(row: seq<Byte>, pos: nat): nat
    requires pos <= |row|
  {
    Count(row, TAB, 0, pos)
  }

  /** Where the cell of a position starts. */
  function CellStart(row: seq<Byte>, pos: nat): (p: nat)
    requires pos <= |row|
    ensures p <= pos && (p == 0 || row[p - 1] == TAB) && forall j :: p <= j < pos ==> row[j] != TAB
  {
    if pos == 0 || row[pos - 1] == TAB then pos else CellStart(row, pos - 1)
  }

  /** The line of a position within its cell. */
  function LineAt(row: seq<Byte>, pos: nat): nat
    requires pos <= |row|
  {
    if pos == 0 || row[pos - 1] == TAB then 0
    else LineAt(row, pos - 1) + if row[pos - 1] == VTAB then 1 else 0
  }

  /** The greatest line up to a position. */
  function MaxLine(row: seq<Byte>, pos: nat): (m: nat)
    requires pos <= |row|
  {
    if pos == 0 then 0
    else var m := MaxLine(row, pos - 1); if LineAt(row, pos) > m then LineAt(row, pos) else m
  }

  predicate IsStart(row: seq<Byte>, pos: nat)
    requires pos <= |row|
  {
    pos == 0 || row[pos - 1] == TAB || row[pos - 1] == VTAB
  }

  predicate IsCellEnd(row: seq<Byte>, pos: nat)
    requires pos <= |row|
  {
    pos == |row| || row[pos] == TAB
  }

  /** Where the part at a position ends. */
  function PartEnd(row: seq<Byte>, pos: nat): (e: nat)
    requires pos <= |row|
    ensures pos <= e <= |row|
    ensures forall i :: pos <= i < e ==> row[i] != TAB && row[i] != VTAB
    ensures e < |row| ==> row[e] == TAB || row[e] == VTAB
    decreases |row| - pos
  {
    if pos == |row| || row[pos] == TAB || row[pos] == VTAB then pos else PartEnd(row, pos + 1)
  }

  lemma {:induction false} PartEndUnique(row: seq<Byte>, pos: nat, e: nat)
    requires pos <= e <= |row| && (forall i :: pos <= i < e ==> row[i] != TAB && row[i] != VTAB)
    requires e < |row| ==> row[e] == TAB || row[e] == VTAB
    ensures PartEnd(row, pos) == e
    decreases e - pos
  {
    if pos < e {
      PartEndUnique(row, pos + 1, e);
    }
  }

  lemma {:induction false} LineCounts(row: seq<Byte>, p: nat, pos: nat)
    requires p <= pos <= |row| && (p == 0 || row[p - 1] == TAB) && forall j :: p <= j < pos ==> row[j] != TAB
    ensures LineAt(row, pos) == Count(row, VTAB, p, pos)
  {
    if p < pos {
      LineCounts(row, p, pos - 1);
    }
  }

  /** The cell a position lies in. */
  lemma CellAt(row: seq<Byte>, pos: nat)
    requires pos <= |row|
    ensures var p, c := CellStart(row, pos), ColumnAt(row, pos);
            && c < |Cells(row)| && Cells(row)[c] == row[p..Find(row, TAB, p)] && Find(row, TAB, p) == Find(row, TAB, pos)
            && LineAt(row, pos) == Count(row, VTAB, p, pos)
  {
    var p := CellStart(row, pos);
    CountSplits(row, TAB, 0, p, pos);
    CountNone(row, TAB, p, pos);
    SplitAt(row, TAB, 0, p);
    FindUnique(row, TAB, p, Find(row, TAB, pos));
    LineCounts(row, p, pos);
  }

  lemma SliceOfSlice<T>(s: seq<T>, p: nat, e: nat, a: nat, b: nat)
    requires p <= e <= |s| && a <= b <= e - p
    ensures s[p..e][a..b] == s[p + a..p + b]
  {
    var x, y := s[p..e][a..b], s[p + a..p + b];
    forall i | 0 <= i < |x|
      ensures x[i] == y[i]
    {
      assert x[i] == s[p..e][a + i];
    }
  }

  lemma EndWithinCell(row: seq<Byte>, p: nat, e: nat, pos: nat)
    requires p <= pos <= e <= |row| && (forall j :: p <= j < e ==> row[j] != TAB) && IsCellEnd(row, e)
    ensures PartEnd(row, pos) == p + Find(row[p..e], VTAB, pos - p)
  {
    var cell := row[p..e];
    var f := Find(cell, VTAB, pos - p);
    forall i | pos <= i < p + f
      ensures row[i] != TAB && row[i] != VTAB
    {
      assert cell[i - p] == row[i];
    }
    PartEndUnique(row, pos, p + f);
  }

  lemma LineOfCell(row: seq<Byte>, p: nat, e: nat, pos: nat)
    requires p <= pos <= e <= |row| && (forall j :: p <= j < e ==> row[j] != TAB) && IsCellEnd(row, e)
    requires pos == p || row[pos - 1] == VTAB
    ensures var n := Count(row, VTAB, p, pos); n < |CellLines(row[p..e])| && CellLines(row[p..e])[n] == row[pos..PartEnd(row, pos)]
  {
    hide Find; hide Count; hide SplitFrom;
    var cell := row[p..e];
    assert pos > p ==> cell[pos - p - 1] == row[pos - 1];
    CountSlice(row, VTAB, p, e, pos - p);
    SplitAt(cell, VTAB, 0, pos - p);
    EndWithinCell(row, p, e, pos);
    hide PartEnd;
    SliceOfSlice(row, p, e, pos - p, Find(cell, VTAB, pos - p));
  }

  /** A part that starts at a position is the grid's part in its line and column. */
  lemma StartIsPart(row: seq<Byte>, pos: nat)
    requires pos <= |row| && IsStart(row, pos)
    ensures ColumnAt(row, pos) < |Cells(row)| && LineAt(row, pos) < |CellLines(Cells(row)[ColumnAt(row, pos)])|
    ensures PartText(row, LineAt(row, pos), ColumnAt(row, pos)) == row[pos..PartEnd(row, pos)]
  {
    hide ColumnAt; hide LineAt; hide Cells; hide CellLines; hide PartEnd;
    CellAt(row, pos);
    var p, e := CellStart(row, pos), Find(row, TAB, pos);
    LineOfCell(row, p, e, pos);
  }

  /** At the end of a cell all its lines have been passed. */
  lemma EndCountsLines(row: seq<Byte>, pos: nat)
    requires pos <= |row| && IsCellEnd(row, pos)
    ensures ColumnAt(row, pos) < |Cells(row)| && |CellLines(Cells(row)[ColumnAt(row, pos)])| == LineAt(row, pos) + 1
  {
    CellAt(row, pos);
    hide ColumnAt; hide LineAt; hide Cells;
    var p := CellStart(row, pos);
    assert Find(row, TAB, pos) == pos;
    SplitLength(row[p..pos], VTAB, 0);
    CountSlice(row, VTAB, p, pos, pos - p);
  }

  lemma LastColumn(row: seq<Byte>)
    ensures ColumnAt(row, |row|) + 1 == |Cells(row)|
  {
    SplitLength(row, TAB, 0);
  }

  /** Every position lies in the grid. */
  lemma InGrid(row: seq<Byte>, pos: nat)
    requires pos <= |row|
    ensures ColumnAt(row, pos) < |Cells(row)| && LineAt(row, pos) < Height(row)
  {
    CellAt(row, pos);
    var e := Find(row, TAB, pos);
    CountNone(row, TAB, pos, e);
    CountSplits(row, TAB, 0, pos, e);
    EndCountsLines(row, e);
    LineGrows(row, pos, e);
  }

  lemma {:induction false} LineGrows(row: seq<Byte>, pos: nat, e: nat)
    requires pos <= e <= |row| && forall j :: pos <= j < e ==> row[j] != TAB
    ensures LineAt(row, pos) <= LineAt(row, e)
  {
    if pos < e {
      LineGrows(row, pos, e - 1);
    }
  }

  lemma {:induction false} MaxLineBounds(row: seq<Byte>, pos: nat)
    requires pos <= |row|
    ensures MaxLine(row, pos) < Height(row)
    ensures forall p :: 0 <= p <= pos ==> LineAt(row, p) <= MaxLine(row, pos)
  {
    InGrid(row, pos);
    if pos > 0 {
      MaxLineBounds(row, pos - 1);
    } else {
      assert LineAt(row, 0) == 0;
    }
  }

  /** The greatest line that a scan of the whole row meets is the last line of the grid. */
  lemma MaxLineIsHeight(row: seq<Byte>)
    ensures MaxLine(row, |row|) + 1 == Height(row)
  {
    MaxLineBounds(row, |row|);
    var c :| 0 <= c < |Cells(row)| && |CellLines(Cells(row)[c])| == Height(row);
    var e := EndOfColumn(row, c);
    EndCountsLines(row, e);
  }

  lemma {:induction false} EndOfColumn(row: seq<Byte>, c: nat) returns (e: nat)
    requires c < |Cells(row)|
    ensures e <= |row| && IsCellEnd(row, e) && ColumnAt(row, e) == c
  {
    if c == 0 {
      e := Find(row, TAB, 0);
      CountNone(row, TAB, 0, e);
    } else {
      var b := EndOfColumn(row, c - 1);
      LastColumn(row);
      assert b < |row|;
      e := Find(row, TAB, b + 1);
      CountNone(row, TAB, b + 1, e);
      CountSplits(row, TAB, 0, b + 1, e);
    }
  }
}
