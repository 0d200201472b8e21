/**
 The column widths of a usage table. Parts as wide as a threshold are ignored; while the
 columns left of the last one do not fit the screen, the threshold falls to the widest of them.
 */
module ColumnLayout {
  import opened Common
  import opened Utf8
  import opened LineParts
  import opened PartIterator

  const MAX_COLUMNS: nat := 8
  const FIRST_THRESHOLD: nat := 10000

  // ---------------------------------------------------------------- the reference

  /** A part as the layout sees it; one of a row without separators does not count. */
  datatype Item = Item(column: nat, width: nat, counts: bool)

  /** More than one part is in the row. */
  predicate Divided(row: seq<Byte>) {
    TAB in row || VTAB in row
  }

  function ItemOf(row: seq<Byte>, p: Part): Item {
    Item(p.column, Width(p.text), p.column > 0 || p.line > 0 || Divided(row))
  }

  function Items(row: seq<Byte>, parts: seq<Part>): seq<Item> {
    if parts == [] then [] else var n := |parts| - 1; Items(row, parts[..n]) + [ItemOf(row, parts[n])]
  }

  /** The items of all rows, in the order of iteration. */
  function TableItems(rows: seq<seq<Byte>>): seq<Item> {
    if rows == [] then [] else Items(rows[0], Grid(rows[0])) + TableItems(rows[1..])
  }

  /** The last column, of the first eight. */
  function Last(items: seq<Item>): (c: nat)
    ensures c < MAX_COLUMNS
  {
    if items == [] then 0
    else
      var n := |items| - 1;
      if items[n].column < MAX_COLUMNS then Max(Last(items[..n]), items[n].column) else Last(items[..n])
  }

  /** The item has a say in the width of a column. */
  predicate Weighs(item: Item, column: nat, threshold: nat) {
    item.column == column && item.counts && item.width < threshold
  }

  function Widest(items: seq<Item>, column: nat, threshold: nat): (w: nat)
    ensures threshold > 0 ==> w < threshold
  {
    if items == [] then 0
    else
      var n := |items| - 1;
      var w := Widest(items[..n], column, threshold);
      if Weighs(items[n], column, threshold) then Max(w, items[n].width) else w
  }

  /** The greatest width among the items that have a say, or 0. */
  lemma {:induction false} WidestIsGreatest(items: seq<Item>, column: nat, threshold: nat)
    ensures var w := Widest(items, column, threshold);
            && (forall k :: 0 <= k < |items| && Weighs(items[k], column, threshold) ==> items[k].width <= w)
            && (w == 0 || exists k :: 0 <= k < |items| && Weighs(items[k], column, threshold) && items[k].width == w)
  {
    if items != [] {
      WidestIsGreatest(items[..|items| - 1], column, threshold);
    }
  }

  /** The widths of the first columns together. */
  function Total(items: seq<Item>, columns: nat, threshold: nat): nat {
    if columns == 0 then 0 else Total(items, columns - 1, threshold) + Widest(items, columns - 1, threshold)
  }

  function WidestOf(items: seq<Item>, columns: nat, threshold: nat): (w: nat)
    ensures forall c :: 0 <= c < columns ==> Widest(items, c, threshold) <= w
    ensures threshold > 0 ==> w < threshold
  {
    if columns == 0 then 0 else Max(WidestOf(items, columns - 1, threshold), Widest(items, columns - 1, threshold))
  }

  /** The columns left of the last one, with parts as wide as the threshold ignored. */
  function Left(items: seq<Item>, threshold: nat): nat {
    Total(items, Last(items), threshold)
  }

  /** The threshold of the next round. */
  function Lowered(items: seq<Item>, threshold: nat): nat {
    WidestOf(items, Last(items), threshold)
  }

  lemma {:induction false} NothingNothing(items: seq<Item>, columns: nat, threshold: nat)
    requires WidestOf(items, columns, threshold) == 0
    ensures Total(items, columns, threshold) == 0
  {
    if columns > 0 {
      NothingNothing(items, columns - 1, threshold);
    }
  }

  /** While the columns do not fit, the threshold falls. */
  lemma ThresholdFalls(items: seq<Item>, threshold: nat, width: nat)
    requires Left(items, threshold) > width
    ensures 0 < Lowered(items, threshold) < threshold
  {
    hide Total; hide WidestOf;
    if Lowered(items, threshold) == 0 {
      NothingNothing(items, Last(items), threshold);
    }
    if threshold == 0 {
      ZeroThreshold(items, Last(items));
    }
  }

  lemma {:induction false} ZeroThreshold(items: seq<Item>, columns: nat)
    ensures Total(items, columns, 0) == 0
  {
    if columns > 0 {
      ZeroThreshold(items, columns - 1);
      NoneBelowZero(items, columns - 1);
    }
  }

  lemma {:induction false} NoneBelowZero(items: seq<Item>, column: nat)
    ensures Widest(items, column, 0) == 0
  {
    if items != [] {
      NoneBelowZero(items[..|items| - 1], column);
    }
  }

  /** Thresholds between the widest part that counts and the one in force weigh the same. */
  lemma {:induction false} SameBetween(items: seq<Item>, column: nat, low: nat, high: nat)
    requires Widest(items, column, high) < low <= high
    ensures Widest(items, column, low) == Widest(items, column, high)
  {
    if items != [] {
      SameBetween(items[..|items| - 1], column, low, high);
    }
  }

  lemma {:induction false} TotalBetween(items: seq<Item>, columns: nat, low: nat, high: nat)
    requires WidestOf(items, columns, high) < low <= high
    ensures Total(items, columns, low) == Total(items, columns, high)
  {
    if columns > 0 {
      TotalBetween(items, columns - 1, low, high);
      SameBetween(items, columns - 1, low, high);
    }
  }

  /** No threshold above this one, up to the first, lets the columns fit. */
  ghost predicate NoneFitsAbove(items: seq<Item>, threshold: nat, width: nat) {
    forall t: nat :: threshold < t <= FIRST_THRESHOLD ==> Left(items, t) > width
  }

  /** Lowering the threshold skips none that would do. */
  lemma NoneSkipped(items: seq<Item>, threshold: nat, width: nat)
    requires threshold <= FIRST_THRESHOLD && NoneFitsAbove(items, threshold, width) && Left(items, threshold) > width
    ensures NoneFitsAbove(items, Lowered(items, threshold), width)
  {
    forall t: nat | Lowered(items, threshold) < t <= FIRST_THRESHOLD
      ensures Left(items, t) > width
    {
      if t <= threshold {
        TotalBetween(items, Last(items), t, threshold);
      }
    }
  }

  /** Fewer parts count, so a smaller threshold never widens a column. */
  lemma {:induction false} Monotone(items: seq<Item>, column: nat, low: nat, high: nat)
    requires low <= high
    ensures Widest(items, column, low) <= Widest(items, column, high)
  {
    if items != [] {
      Monotone(items[..|items| - 1], column, low, high);
    }
  }

  lemma {:induction false} TotalMonotone(items: seq<Item>, columns: nat, low: nat, high: nat)
    requires low <= high
    ensures Total(items, columns, low) <= Total(items, columns, high)
  {
    if columns > 0 {
      TotalMonotone(items, columns - 1, low, high);
      Monotone(items, columns - 1, low, high);
    }
  }

  /** Of all thresholds up to the first, exactly those up to this one let the columns fit. */
  ghost predicate IsLimit(items: seq<Item>, threshold: nat, width: nat) {
    forall t: nat :: t <= FIRST_THRESHOLD ==> (Left(items, t) <= width <==> t <= threshold)
  }

  lemma LimitReached(items: seq<Item>, threshold: nat, width: nat)
    requires threshold <= FIRST_THRESHOLD && NoneFitsAbove(items, threshold, width) && Left(items, threshold) <= width
    ensures IsLimit(items, threshold, width)
  {
    forall t: nat | t <= FIRST_THRESHOLD
      ensures Left(items, t) <= width <==> t <= threshold
    {
      if t <= threshold {
        TotalMonotone(items, Last(items), t, threshold);
      }
    }
  }

  /** A column from `start` to `end` is wide enough for every part that has a say, and no wider than one of them needs. */
  ghost predicate Snug(items: seq<Item>, threshold: nat, column: nat, start: nat, end: nat) {
    && (forall k :: 0 <= k < |items| && items[k].column == column && items[k].counts && items[k].width < threshold ==>
                      start + items[k].width <= end)
    && (end == start || exists k ::
          0 <= k < |items| && items[k].column == column && items[k].counts && items[k].width < threshold && start + items[k].width == end)
  }

  /** What tab stops have to be. */
  ghost predicate Aligned(items: seq<Item>, threshold: nat, tabStop: seq<nat>) {
    |tabStop| == 8 && tabStop[0] == 0 && forall c :: 0 <= c < 7 ==> Snug(items, threshold, c, tabStop[c], tabStop[c + 1])
  }

  lemma TotalSnug(items: seq<Item>, column: nat, threshold: nat)
    ensures Snug(items, threshold, column, Total(items, column, threshold), Total(items, column + 1, threshold))
  {
    hide Widest;
    WidestIsGreatest(items, column, threshold);
  }

  /** For every threshold, the sums of column widths are such tab stops. */
  lemma TotalsAligned(items: seq<Item>, threshold: nat, tabStop: seq<nat>)
    requires |tabStop| == MAX_COLUMNS && forall c :: 0 <= c < MAX_COLUMNS ==> tabStop[c] == Total(items, c, threshold)
    ensures Aligned(items, threshold, tabStop)
  {
    hide Snug;
    forall c | 0 <= c < 7
      ensures Snug(items, threshold, c, tabStop[c], tabStop[c + 1])
    {
      TotalSnug(items, c, threshold);
      assert tabStop[c + 1] == Total(items, c + 1, threshold) && tabStop[c] == Total(items, c, threshold);
    }
  }

  /** The last column that any part is in, of columns 0 to 7. */
  lemma {:induction false} LastIsLast(items: seq<Item>)
    ensures forall k :: 0 <= k < |items| && items[k].column < 8 ==> items[k].column <= Last(items)
    ensures Last(items) == 0 || exists k :: 0 <= k < |items| && items[k].column == Last(items) < 8
  {
    if items != [] {
      LastIsLast(items[..|items| - 1]);
    }
  }

  lemma {:induction false} CountsSome(s: seq<Byte>, sep: Byte, n: nat)
    requires n <= |s|
    ensures Count(s, sep, 0, n) == 0 <==> sep !in s[..n]
  {
    if n > 0 {
      CountsSome(s, sep, n - 1);
      assert s[..n] == s[..n - 1] + [s[n - 1]];
    }
  }

  lemma PartsCounted(s: seq<Byte>, sep: Byte)
    ensures |Split(s, sep)| == 1 <==> sep !in s
    ensures sep !in s ==> Split(s, sep) == [s]
  {
    SplitLength(s, sep, 0);
    CountsSome(s, sep, |s|);
    assert s[..|s|] == s;
    if sep !in s {
      SplitOne(s, sep);
    }
  }

  /** A row is divided if it has more than one part. */
  lemma DividedMeans(row: seq<Byte>)
    ensures Divided(row) <==> |Grid(row)| > 1
  {
    hide Split;
    GridLength(row, Height(row));
    PartsCounted(row, TAB);
    if TAB in row {
      assert Height(row) >= |CellLines(Cells(row)[0])| >= 1;
      assert Height(row) * |Cells(row)| >= |Cells(row)|;
    } else {
      PartsCounted(row, VTAB);
      OneCell(row);
    }
  }

  lemma {:induction false} ItemsOf(row: seq<Byte>, parts: seq<Part>)
    ensures |Items(row, parts)| == |parts| && forall k :: 0 <= k < |parts| ==> Items(row, parts)[k] == ItemOf(row, parts[k])
  {
    if parts != [] {
      ItemsOf(row, parts[..|parts| - 1]);
    }
  }

  /** The items of a row: its parts in order, none of which counts if there is only one. */
  lemma ItemsOfRow(row: seq<Byte>)
    ensures var grid, items := Grid(row), Items(row, Grid(row));
            && |items| == |grid|
            && forall k :: 0 <= k < |grid| ==> items[k] == Item(grid[k].column, Width(grid[k].text), |grid| > 1)
  {
    hide Items; hide Divided; hide Grid; hide Width;
    ItemsOf(row, Grid(row));
    DividedMeans(row);
    if |Grid(row)| == 1 {
      OnlyPart(row);
    }
  }

  lemma OnlyPart(row: seq<Byte>)
    requires |Grid(row)| == 1
    ensures Grid(row)[0].column == 0 && Grid(row)[0].line == 0
  {
    hide Cells; hide CellLines;
    GridLength(row, Height(row));
    assert Height(row) > 0;
    GridIndex(row, Height(row), 0, 0);
  }

  lemma OneCell(row: seq<Byte>)
    requires Cells(row) == [row]
    ensures Height(row) == |CellLines(row)|
  {
  }

  // ---------------------------------------------------------------- one measuring pass

  /** The counters after these items. */
  ghost predicate Tallied(items: seq<Item>, threshold: nat, colWidth: seq<nat>, last: nat) {
    |colWidth| == MAX_COLUMNS && last == Last(items) && forall c :: 0 <= c < MAX_COLUMNS ==> colWidth[c] == Widest(items, c, threshold)
  }

  lemma TallyNone(threshold: nat, colWidth: seq<nat>)
    requires |colWidth| == MAX_COLUMNS && forall c :: 0 <= c < MAX_COLUMNS ==> colWidth[c] == 0
    ensures Tallied([], threshold, colWidth, 0)
  {
  }

  lemma TallyOne(items: seq<Item>, item: Item, threshold: nat, before: seq<nat>, last: nat, after: seq<nat>)
    requires Tallied(items, threshold, before, last) && |after| == MAX_COLUMNS
    requires forall c :: 0 <= c < MAX_COLUMNS ==> after[c] == if Weighs(item, c, threshold) then Max(before[c], item.width) else before[c]
    ensures Tallied(items + [item], threshold, after, if item.column < MAX_COLUMNS then Max(last, item.column) else last)
  {
    assert (items + [item])[..|items|] == items;
  }

  lemma ItemsConcat(row: seq<Byte>, parts: seq<Part>, p: Part)
    ensures Items(row, parts + [p]) == Items(row, parts) + [ItemOf(row, p)]
  {
    assert (parts + [p])[..|parts|] == parts;
  }

  lemma StartsLater(row: seq<Byte>, pos: nat)
    requires pos <= |row| && IsStart(row, pos)
    ensures pos == 0 || ColumnAt(row, pos) > 0 || LineAt(row, pos) > 0
  {
  }

  /** Whether the first part is followed by a separator is whether the row has any. */
  lemma FirstSeparator(row: seq<Byte>, pos: nat, line: nat, max: nat)
    requires Returned(row, pos, 0, line, 0, max)
    ensures pos == 0 && (PartEnd(row, 0) < |row| <==> Divided(row))
  {
    StartsLater(row, pos);
    var e := PartEnd(row, 0);
    assert e < |row| ==> row[e] in row;
  }

  /** What the character behind the first part tells. */
  lemma FirstFollowed(text: seq<Byte>, start: nat, pos: nat, line: nat, max: nat)
    requires NUL !in text && start <= |text| && Returned(Row(text, start), pos, 0, line, 0, max)
    ensures var next := start + PartEnd(Row(text, start), 0);
            pos == 0 && next <= |text| && (CharAt(text, next) == TAB || CharAt(text, next) == VTAB <==> Divided(Row(text, start)))
  {
    FirstSeparator(Row(text, start), pos, line, max);
    PartEndInText(text, start, 0);
    hide Row; hide Returned; hide RowEnd;
    CharInRow(text, start, PartEnd(Row(text, start), 0));
  }

  lemma PartEndInText(text: seq<Byte>, start: nat, pos: nat)
    requires start <= |text| && start + pos <= RowEnd(text, start)
    ensures pos <= |Row(text, start)| && start + PartEnd(Row(text, start), pos) <= RowEnd(text, start) <= |text|
  {
  }

  /** The iterator's part, in terms of the text it is in. */
  lemma StandsAt(it: LinePartIterator)
    requires it.AtPart()
    ensures it.Valid()
    ensures var text, pos := it.table[it.rowDesc], it.ptr - it.rowStart;
            && NUL !in text && it.rowStart <= |text| && 0 <= pos <= |Row(text, it.rowStart)| && it.col >= 0
            && it.ptr + it.len == it.rowStart + PartEnd(Row(text, it.rowStart), pos) <= |text|
            && Returned(Row(text, it.rowStart), pos, it.col, it.lineInBlock, it.targetLineInBlock, it.maxLineInBlock)
  {
    hide Row; hide RowEnd; hide PartEnd; hide Width; hide Returned; hide Height;
    PartEndInText(it.table[it.rowDesc], it.rowStart, it.ptr - it.rowStart);
  }

  /** Whether the part at which the iterator stands counts. */
  method Counts(it: LinePartIterator) returns (counts: bool)
    requires it.AtPart()
    ensures it.col >= 0 && counts == (it.col > 0 || it.targetLineInBlock > 0 || Divided(it.CurrentRow()))
  {
    hide LinePartIterator.AtPart; hide IsTable; hide Row; hide RowEnd; hide PartEnd; hide Returned; hide CharAt; hide Divided;
    StandsAt(it);
    var text := it.table[it.rowDesc];
    var next := CharAt(text, it.ptr + it.len);
    counts := it.col > 0 || it.targetLineInBlock > 0 || next == TAB || next == VTAB;
    if it.col == 0 && it.targetLineInBlock == 0 {
      FirstFollowed(text, it.rowStart, it.ptr - it.rowStart, it.lineInBlock, it.maxLineInBlock);
    }
  }

  /** Lets a part widen its column. */
  method Widen(item: Item, threshold: nat, colWidth: array<nat>, last: nat, ghost items: seq<Item>) returns (newLast: nat)
    requires Tallied(items, threshold, colWidth[..], last)
    modifies colWidth
    ensures Tallied(items + [item], threshold, colWidth[..], newLast)
  {
    ghost var before := colWidth[..];
    TallyShape(items, threshold, before, last);
    hide Tallied;
    newLast := last;
    if item.column < MAX_COLUMNS {
      newLast := Max(newLast, item.column);
      if item.width < threshold {
        if item.counts {
          colWidth[item.column] := Max(colWidth[item.column], item.width);
        }
      }
    }
    TallyOne(items, item, threshold, before, last, colWidth[..]);
  }

  /** What the iterator says of the part at which it stands. */
  method Observe(it: LinePartIterator) returns (item: Item)
    requires it.AtPart()
    ensures 0 <= it.col < |Cells(it.CurrentRow())|
    ensures var row, l, c := it.CurrentRow(), it.targetLineInBlock, it.col; item == ItemOf(row, Part(l, c, PartText(row, l, c)))
  {
    hide LinePartIterator.AtPart; hide Row; hide Width; hide PartText; hide Cells;
    it.PartHere();
    var counts := Counts(it);
    item := Item(it.col, it.screenLen, counts);
  }

  lemma TallyShape(items: seq<Item>, threshold: nat, colWidth: seq<nat>, last: nat)
    requires Tallied(items, threshold, colWidth, last)
    ensures |colWidth| == MAX_COLUMNS
  {
  }

  /** All parts of the current row. */
  method MeasureRow(it: LinePartIterator, threshold: nat, colWidth: array<nat>, last: nat, ghost items: seq<Item>) returns (newLast: nat)
    requires it.Fresh() && Tallied(items, threshold, colWidth[..], last)
    modifies it, colWidth
    ensures it.Done() && it.rowDesc == old(it.rowDesc) && it.rowStart == old(it.rowStart)
    ensures Tallied(items + Items(old(it.CurrentRow()), Grid(old(it.CurrentRow()))), threshold, colWidth[..], newLast)
  {
    ghost var row := it.CurrentRow();
    hide Row; hide RowEnd; hide PartsBefore; hide PartText; hide Height; hide Grid; hide Cells; hide Returned; hide Tallied;
    hide Items; hide LinePartIterator.Measured; hide ItemOf; hide Find; hide RowsOf; hide Divided; hide CharAt;
    newLast := last;
    ghost var parts := [];
    NoPartsBefore(row);
    NoItems(row, items);
    var ok := it.Next();
    while ok
      invariant it.Valid() && it.rowDesc == old(it.rowDesc) && it.rowStart == old(it.rowStart)
      invariant if ok then it.AtPart() && 0 <= it.col < |Cells(row)| && parts == PartsBefore(row, it.col, it.targetLineInBlock)
                else it.Done() && parts == Grid(row)
      invariant Tallied(items + Items(row, parts), threshold, colWidth[..], newLast)
      decreases ok, Height(row) - it.targetLineInBlock, |Cells(row)| - it.col
    {
      var item := Observe(it);
      newLast := Widen(item, threshold, colWidth, newLast, items + Items(row, parts));
      ghost var part := Part(it.targetLineInBlock, it.col, PartText(row, it.targetLineInBlock, it.col));
      PartFollows(row, it.col, it.targetLineInBlock);
      ItemsConcat(row, parts, part);
      Regroup(items, Items(row, parts), [ItemOf(row, part)]);
      parts := parts + [part];
      ok := it.Next();
    }
  }

  lemma NoItems(row: seq<Byte>, items: seq<Item>)
    ensures items + Items(row, []) == items
  {
  }

  /** All rows of the table. */
  method MeasureTable(it: LinePartIterator, threshold: nat, colWidth: array<nat>) returns (last: nat)
    requires it.Valid() && colWidth.Length == MAX_COLUMNS
    modifies it, colWidth
    ensures it.Valid() && Tallied(TableItems(RowsOf(it.table, 0)), threshold, colWidth[..], last)
  {
    hide Row; hide RowEnd; hide Grid; hide Items; hide RowsFrom; hide RowsOf; hide Tallied; hide TableItems;
    last := 0;
    for i := 0 to MAX_COLUMNS
      modifies colWidth
      invariant forall c :: 0 <= c < i ==> colWidth[c] == 0
    {
      colWidth[i] := 0;
    }
    TallyNone(threshold, colWidth[..]);
    it.RestartTable();
    ghost var items := [];
    RowsOfNext(it.table, 0);
    var ok := it.NextRow();
    while ok
      invariant it.Valid() && (ok ==> it.Fresh()) && Tallied(items, threshold, colWidth[..], last)
      invariant items + (if ok then TableItems(RowsFrom(it.table, it.rowDesc, it.rowStart)) else []) == TableItems(RowsOf(it.table, 0))
      decreases ok, if ok then |RowsFrom(it.table, it.rowDesc, it.rowStart)| else 0
    {
      ghost var row, rows := it.CurrentRow(), RowsFrom(it.table, it.rowDesc, it.rowStart);
      last := MeasureRow(it, threshold, colWidth, last, items);
      ok := it.NextRow();
      ghost var rest := if ok then RowsFrom(it.table, it.rowDesc, it.rowStart) else [];
      TableItemsCons(row, rest);
      Regroup(items, Items(row, Grid(row)), TableItems(rest));
      items := items + Items(row, Grid(row));
    }
    assert items + [] == items;
  }

  lemma TableItemsCons(row: seq<Byte>, rows: seq<seq<Byte>>)
    ensures TableItems([row] + rows) == Items(row, Grid(row)) + TableItems(rows) && TableItems([]) == []
  {
    assert ([row] + rows)[1..] == rows;
  }

  // ---------------------------------------------------------------- the loop over thresholds

  /** Adds up the columns left of the last one and finds the widest. */
  method SumLeft(colWidth: array<nat>, last: nat, ghost items: seq<Item>, ghost limit: nat) returns (leftWidth: nat, threshold: nat)
    requires Tallied(items, limit, colWidth[..], last)
    ensures leftWidth == Left(items, limit) && threshold == Lowered(items, limit)
  {
    leftWidth, threshold := 0, 0;
    for i := 0 to last
      invariant leftWidth == Total(items, i, limit) && threshold == WidestOf(items, i, limit)
    {
      assert colWidth[i] == colWidth[..][i];
      leftWidth := leftWidth + colWidth[i];
      threshold := Max(threshold, colWidth[i]);
    }
  }

  /** One round: what it finds, and the threshold for the next. */
  method Round(it: LinePartIterator, limit: nat, width: nat, colWidth: array<nat>, ghost items: seq<Item>)
    returns (last: nat, leftWidth: nat, threshold: nat)
    requires it.Valid() && colWidth.Length == MAX_COLUMNS && items == TableItems(RowsOf(it.table, 0))
    requires limit <= FIRST_THRESHOLD && NoneFitsAbove(items, limit, width)
    modifies it, colWidth
    ensures it.Valid() && Tallied(items, limit, colWidth[..], last) && leftWidth == Left(items, limit) && threshold <= FIRST_THRESHOLD
    ensures if leftWidth <= width then IsLimit(items, limit, width) else threshold < limit && NoneFitsAbove(items, threshold, width)
  {
    hide RowsOf; hide TableItems; hide Tallied; hide Left; hide Lowered; hide IsLimit; hide NoneFitsAbove;
    last := MeasureTable(it, limit, colWidth);
    leftWidth, threshold := SumLeft(colWidth, last, items, limit);
    if leftWidth <= width {
      LimitReached(items, limit, width);
      LoweredBelow(items, limit);
    } else {
      ThresholdFalls(items, limit, width);
      NoneSkipped(items, limit, width);
    }
  }

  /** Lowers the threshold until the columns left of the last one fit; `limit` is the threshold of the last round. */
  method ColumnWidths(it: LinePartIterator, width: nat, colWidth: array<nat>, ghost items: seq<Item>)
    returns (last: nat, leftWidth: nat, ghost limit: nat)
    requires it.Valid() && colWidth.Length == MAX_COLUMNS && items == TableItems(RowsOf(it.table, 0))
    modifies it, colWidth
    ensures it.Valid() && limit <= FIRST_THRESHOLD
    ensures Tallied(items, limit, colWidth[..], last) && leftWidth == Left(items, limit) <= width && IsLimit(items, limit, width)
  {
    hide RowsOf; hide TableItems; hide Tallied; hide Left; hide IsLimit; hide NoneFitsAbove;
    NoneAboveFirst(items, width);
    var threshold: nat := FIRST_THRESHOLD;
    limit := threshold;
    last, leftWidth, threshold := Round(it, threshold, width, colWidth, items);
    while leftWidth > width
      invariant it.Valid() && limit <= FIRST_THRESHOLD && threshold <= FIRST_THRESHOLD
      invariant Tallied(items, limit, colWidth[..], last) && leftWidth == Left(items, limit)
      invariant if leftWidth <= width then IsLimit(items, limit, width) else NoneFitsAbove(items, threshold, width)
      decreases leftWidth > width, threshold
    {
      limit := threshold;
      last, leftWidth, threshold := Round(it, threshold, width, colWidth, items);
    }
  }

  lemma LoweredBelow(items: seq<Item>, threshold: nat)
    requires threshold <= FIRST_THRESHOLD
    ensures Lowered(items, threshold) <= FIRST_THRESHOLD
  {
    if threshold == 0 {
      NoneWidest(items, Last(items));
    }
  }

  lemma {:induction false} NoneWidest(items: seq<Item>, columns: nat)
    ensures WidestOf(items, columns, 0) == 0
  {
    if columns > 0 {
      NoneWidest(items, columns - 1);
      NoneBelowZero(items, columns - 1);
    }
  }

  lemma NoneAboveFirst(items: seq<Item>, width: nat)
    ensures NoneFitsAbove(items, FIRST_THRESHOLD, width)
  {
  }

  /** The screen width after the guards against nonsense and overflow. */
  function Guarded(width: int): (w: nat)
    ensures 1 <= w <= 10000 && (1 <= width <= 10000 ==> w == width) && (width < 1 ==> w == 80) && (width > 10000 ==> w == 10000)
  {
    if width < 1 then 80 else if width > 10000 then 10000 else width
  }

  /**
   The layout of a table: the tab stop of the last column is where the columns before it end,
   and what is left of the screen is never negative.
   */
  method LayOut(table: seq<seq<Byte>>, screen: int) returns (tabStop: seq<nat>, last: nat, rightWidth: int, ghost limit: nat)
    requires IsTable(table)
    ensures last < MAX_COLUMNS == |tabStop| && limit <= FIRST_THRESHOLD
    ensures var items := TableItems(RowsOf(table, 0));
            && last == Last(items) && IsLimit(items, limit, Guarded(screen))
            && (forall c :: 0 <= c < MAX_COLUMNS ==> tabStop[c] == Total(items, c, limit))
            && rightWidth == Guarded(screen) - Left(items, limit) >= 0
    ensures var items := TableItems(RowsOf(table, 0));
            && Aligned(items, limit, tabStop) && rightWidth == Guarded(screen) - tabStop[last]
            && (forall k :: 0 <= k < |items| && items[k].column < 8 ==> items[k].column <= last)
            && (last == 0 || exists k :: 0 <= k < |items| && items[k].column == last)
            && forall t: nat :: t <= 10000 ==> (Left(items, t) <= Guarded(screen) <==> t <= limit)
  {
    hide RowsOf; hide TableItems; hide IsLimit; hide Tallied; hide IsTable; hide Aligned; hide Last; hide Total;
    var width := screen;
    if width < 1 {
      width := 80;
    }
    if width > 10000 {
      width := 10000;
    }
    ghost var items := TableItems(RowsOf(table, 0));
    var it := new LinePartIterator(table);
    var colWidth := new nat[MAX_COLUMNS];
    var leftWidth;
    last, leftWidth, limit := ColumnWidths(it, width, colWidth, items);
    TallyLast(items, limit, colWidth[..], last);
    tabStop := TabStops(colWidth, last, items, limit);
    rightWidth := width - tabStop[last];
    TotalsAligned(items, limit, tabStop);
    LastIsLast(items);
    LimitMeans(items, limit, width);
  }

  lemma LimitMeans(items: seq<Item>, threshold: nat, width: nat)
    requires IsLimit(items, threshold, width)
    ensures forall t: nat :: t <= 10000 ==> (Left(items, t) <= width <==> t <= threshold)
  {
  }

  lemma TallyLast(items: seq<Item>, threshold: nat, colWidth: seq<nat>, last: nat)
    requires Tallied(items, threshold, colWidth, last)
    ensures last == Last(items)
  {
  }

  method TabStops(colWidth: array<nat>, last: nat, ghost items: seq<Item>, ghost limit: nat) returns (tabStop: seq<nat>)
    requires Tallied(items, limit, colWidth[..], last)
    ensures |tabStop| == MAX_COLUMNS && forall c :: 0 <= c < MAX_COLUMNS ==> tabStop[c] == Total(items, c, limit)
  {
    tabStop := [0];
    for i := 1 to MAX_COLUMNS
      invariant |tabStop| == i && forall c :: 0 <= c < i ==> tabStop[c] == Total(items, c, limit)
    {
      assert colWidth[i - 1] == colWidth[..][i - 1];
      tabStop := tabStop + [tabStop[i - 1] + colWidth[i - 1]];
    }
  }
}
