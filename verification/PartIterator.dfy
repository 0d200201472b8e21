/**
 The iterator over the parts of a usage table. It keeps one pointer into the help text and a
 few counters, and scans each row once per line to return its parts in line-major order.
 */
module PartIterator {
  import opened Common
  import opened Utf8
  import opened LineParts

  /** The character at a position of a string, whose end reads as 0. */
  function CharAt(text: seq<Byte>, i: nat): Byte
    requires i <= |text|
  {
    if i < |text| then text[i] else NUL
  }

  predicate IsSeparator(c: Byte) {
    c == NUL || c == VTAB || c == TAB || c == NEWLINE
  }

  /** Where the part at a position of the help text ends. */
  function Stop(text: seq<Byte>, i: nat): (e: nat)
    requires i <= |text|
    ensures i <= e <= |text| && (forall j :: i <= j < e ==> !IsSeparator(text[j])) && IsSeparator(CharAt(text, e))
    decreases |text| - i
  {
    if IsSeparator(CharAt(text, i)) then i else Stop(text, i + 1)
  }

  function RowEnd(text: seq<Byte>, start: nat): (e: nat)
    requires start <= |text|
    ensures start <= e <= |text|
  {
    Find(text, NEWLINE, start)
  }

  /** The row that starts there. */
  function Row(text: seq<Byte>, start: nat): (row: seq<Byte>)
    requires start <= |text|
    ensures |row| == RowEnd(text, start) - start
  {
    text[start..RowEnd(text, start)]
  }

  lemma SeparatorsSkipped(s: seq<Byte>)
    requires s != [] && !IsSeparator(s[0])
    ensures forall j :: 0 <= j < CharLen(s) ==> !IsSeparator(s[j])
  {
    TailContinues(s);
    hide CharLen;
    forall j | 0 <= j < CharLen(s)
      ensures !IsSeparator(s[j])
    {
      assert j > 0 ==> IsContinuation(s[j]);
    }
  }

  lemma {:induction false} StopBeyond(text: seq<Byte>, i: nat, k: nat)
    requires i <= k <= |text| && forall j :: i <= j < k ==> !IsSeparator(text[j])
    ensures Stop(text, i) == Stop(text, k)
    decreases k - i
  {
    if i < k {
      StopBeyond(text, i + 1, k);
    }
  }

  lemma NextStop(text: seq<Byte>, i: nat)
    requires i < |text| && !IsSeparator(text[i])
    ensures var n, e := CharLen(text[i..]), Stop(text, i); i + n <= e && Stop(text, i + n) == e
  {
    var s := text[i..];
    SeparatorsSkipped(s);
    var n := CharLen(s);
    hide CharLen; hide IsSeparator;
    forall j | i <= j < i + n
      ensures !IsSeparator(text[j])
    {
      assert s[j - i] == text[j];
    }
    StopBeyond(text, i, i + n);
  }

  lemma WidthStep(s: seq<Byte>, k: nat)
    requires s != [] && CharLen(s) <= k <= |s|
    ensures Width(s[..k]) == CharWidth(s) + Width(s[CharLen(s)..k])
  {
    hide CharLen; hide CharWidth;
    CutBehind(s, k);
    assert s[..k][CharLen(s)..] == s[CharLen(s)..k];
  }

  lemma Inside(text: seq<Byte>, i: nat)
    requires i <= |text|
    ensures !IsSeparator(CharAt(text, i)) ==> i < |text|
    ensures IsSeparator(CharAt(text, i)) ==> Stop(text, i) == i && Width(text[i..i]) == 0
  {
  }

  lemma NextChar(text: seq<Byte>, i: nat)
    requires i < |text| && !IsSeparator(text[i])
    ensures var n, e := CharLen(text[i..]), Stop(text, i);
            i + n <= e && Stop(text, i + n) == e && Width(text[i..e]) == CharWidth(text[i..]) + Width(text[i + n..e])
  {
    hide CharLen; hide CharWidth; hide Width; hide IsSeparator; hide Stop;
    var s := text[i..];
    NextStop(text, i);
    var n, e := CharLen(s), Stop(text, i);
    WidthStep(s, e - i);
    assert s[..e - i] == text[i..e];
    assert s[n..e - i] == text[i + n..e];
  }

  lemma CharEnds(s: seq<Byte>, k: nat)
    requires s != [] && s[0] > 0xC1 && 1 <= k <= CharLen(s)
    ensures k < CharLen(s) <==> k < |s| && IsContinuation(s[k])
  {
    TailContinues(s);
    assert CharLen(s) < |s| ==> !IsContinuation(s[1..][Run(s[1..])]);
  }

  lemma GatherNext(ch: bv32, s: seq<Byte>, k: nat, n: nat)
    requires k < n <= |s|
    ensures Gather(ch, s[k..n]) == Gather(AddContinuation(ch, s[k]), s[k + 1..n])
  {
    hide AddContinuation;
    assert s[k..n][1..] == s[k + 1..n];
  }

  /** The decoder's own loop: it runs over the continuation bytes to the last byte of the character, which a 0 or a separator ends. */
  method DecodeOn(text: seq<Byte>, at: nat) returns (last: nat, ch: bv32)
    requires at < |text| && text[at] > 0xC1
    ensures last + 1 == at + CharLen(text[at..]) && ch == CodePoint(text[at..])
  {
    ghost var s, n := text[at..], CharLen(text[at..]);
    ch := text[at] as bv32;
    ch := ch & ((0xFFFF_FFFF as bv32) >> LeadingZeros(ch ^ 0xFF));
    assert ch == LeadBits(s[0]);
    hide LeadBits; hide CharLen; hide Gather;
    last := at;
    CharEnds(s, 1);
    while IsContinuation(CharAt(text, last + 1))
      invariant at <= last < at + n && Gather(LeadBits(s[0]), s[1..n]) == Gather(ch, s[last + 1 - at..n])
      decreases n - (last - at)
    {
      CharEnds(s, last + 1 - at);
      GatherNext(ch, s, last + 1 - at, n);
      ch := (ch << 6) ^ (CharAt(text, last + 1) as bv32) ^ 0x80;
      last := last + 1;
    }
    CharEnds(s, last + 1 - at);
    GatherNone(ch, s[n..n]);
  }

  lemma GatherNone(ch: bv32, s: seq<Byte>)
    requires s == []
    ensures Gather(ch, s) == ch
  {
  }

  lemma WidthOfChar(s: seq<Byte>)
    requires s != []
    ensures CharWidth(s) == if s[0] > 0xC1 && CodePoint(s) >= 0x1100 && IsWideChar(CodePoint(s)) then 2 else 1
    ensures s[0] <= 0xC1 ==> CharLen(s) == 1
  {
  }

  /** The bytes and the screen columns of the part at `ptr`. */
  method Measure(text: seq<Byte>, ptr: nat) returns (len: nat, screenLen: nat)
    requires ptr <= |text|
    ensures ptr + len == Stop(text, ptr) && screenLen == Width(text[ptr..ptr + len])
  {
    hide CharLen; hide CharWidth; hide Width; hide Stop; hide IsSeparator; hide CodePoint; hide IsWideChar;
    screenLen, len := 0, 0;
    ghost var e := Stop(text, ptr);
    while !IsSeparator(CharAt(text, ptr + len))
      invariant ptr + len <= e && Stop(text, ptr + len) == e
      invariant Width(text[ptr..e]) == screenLen + Width(text[ptr + len..e])
      decreases e - (ptr + len)
    {
      Inside(text, ptr + len);
      NextChar(text, ptr + len);
      WidthOfChar(text[ptr + len..]);
      screenLen := screenLen + 1;
      if text[ptr + len] > 0xC1 {
        var last, ch := DecodeOn(text, ptr + len);
        len := last - ptr;
        if ch >= 0x1100 && IsWideChar(ch) {
          screenLen := screenLen + 1;
        }
      }
      len := len + 1;
    }
    Inside(text, ptr + len);
  }

  lemma StopIsPartEnd(text: seq<Byte>, start: nat, pos: nat)
    requires start <= |text| && NUL !in text && pos <= |Row(text, start)|
    ensures Stop(text, start + pos) == start + PartEnd(Row(text, start), pos)
    ensures var e := PartEnd(Row(text, start), pos); text[start + pos..start + e] == Row(text, start)[pos..e]
  {
    var row := Row(text, start);
    var e := Stop(text, start + pos);
    hide CharLen;
    assert e <= RowEnd(text, start) by {
      StopWithin(text, start + pos, RowEnd(text, start));
    }
    forall i | pos <= i < e - start
      ensures row[i] != TAB && row[i] != VTAB
    {
      assert row[i] == text[start + i];
    }
    assert e - start < |row| ==> row[e - start] == text[e] && text[e] != NEWLINE;
    PartEndUnique(row, pos, e - start);
    SliceOfSlice(text, start, RowEnd(text, start), pos, e - start);
  }

  lemma {:induction false} StopWithin(text: seq<Byte>, i: nat, e: nat)
    requires i <= e <= |text| && IsSeparator(CharAt(text, e))
    ensures Stop(text, i) <= e
    decreases e - i
  {
    if i < e {
      StopWithin(text, i + 1, e);
    }
  }

  // ---------------------------------------------------------------- the scan, on the grid

  /** The next part in line-major order. */
  function Successor(row: seq<Byte>, column: nat, line: nat): (nat, nat) {
    if column + 1 < |Cells(row)| then (column + 1, line) else (0, line + 1)
  }

  predicate IsLast(row: seq<Byte>, column: nat, line: nat) {
    column + 1 == |Cells(row)| && line + 1 == Height(row)
  }

  /** The greatest line met so far: all of the row's, from the second scan on. */
  function Seen(row: seq<Byte>, pos: nat, target: nat): nat
    requires pos <= |row|
  {
    MaxLine(row, if target == 0 then pos else |row|)
  }

  /** The counters agree with the position. */
  ghost predicate On(row: seq<Byte>, pos: nat, column: nat, line: nat, target: nat, max: nat) {
    pos <= |row| && column == ColumnAt(row, pos) && line == LineAt(row, pos) && target < Height(row) && max == Seen(row, pos, target)
  }

  /** The part in line `target` of this column has just been returned: the one that starts here, or the padding of a cell that ends here. */
  ghost predicate Returned(row: seq<Byte>, pos: nat, column: nat, line: nat, target: nat, max: nat) {
    On(row, pos, column, line, target, max) && if line == target then IsStart(row, pos) else line < target && IsCellEnd(row, pos)
  }

  /** Between the part in column `c`, line `l` and the next one: leaving its cell, or looking for the line in the next cell. */
  ghost predicate Between(row: seq<Byte>, pos: nat, column: nat, line: nat, target: nat, max: nat, hit: bool, c: nat, l: nat) {
    && On(row, pos, column, line, target, max)
    && if hit then column == c && target == l && (line >= target || IsCellEnd(row, pos))
       else line < target && (column, target) == Successor(row, c, l)
  }

  /** What is returned is the grid's part. */
  lemma ReturnedIsPart(row: seq<Byte>, pos: nat, column: nat, line: nat, target: nat, max: nat)
    requires Returned(row, pos, column, line, target, max)
    ensures column < |Cells(row)| && PartText(row, target, column) == row[pos..PartEnd(row, pos)]
  {
    if line == target {
      StartIsPart(row, pos);
    } else {
      EndCountsLines(row, pos);
    }
  }

  lemma PassOther(row: seq<Byte>, pos: nat, column: nat, line: nat, target: nat, max: nat, hit: bool, c: nat, l: nat)
    requires Between(row, pos, column, line, target, max, hit, c, l) && pos < |row| && row[pos] != TAB && row[pos] != VTAB
    ensures Between(row, pos + 1, column, line, target, max, hit, c, l)
  {
    MaxLineBounds(row, pos);
  }

  lemma PassVtab(row: seq<Byte>, pos: nat, column: nat, line: nat, target: nat, max: nat, hit: bool, c: nat, l: nat)
    requires Between(row, pos, column, line, target, max, hit, c, l) && pos < |row| && row[pos] == VTAB
    ensures var more := if line + 1 > max then line + 1 else max;
            if line + 1 == target then
              Returned(row, pos + 1, column, line + 1, target, more) && target < Height(row)
              && (column, target) == Successor(row, c, l) && !IsLast(row, c, l)
            else Between(row, pos + 1, column, line + 1, target, more, hit, c, l)
  {
    MaxLineBounds(row, |row|);
    assert LineAt(row, pos + 1) == line + 1;
  }

  lemma PassTab(row: seq<Byte>, pos: nat, column: nat, line: nat, target: nat, max: nat, c: nat, l: nat)
    requires Between(row, pos, column, line, target, max, true, c, l) && pos < |row| && row[pos] == TAB
    ensures if target == 0 then
              Returned(row, pos + 1, column + 1, 0, target, max) && target < Height(row) && (column + 1, target) == Successor(row, c, l)
            else Between(row, pos + 1, column + 1, 0, target, max, false, c, l)
    ensures !IsLast(row, c, l)
  {
    InGrid(row, pos + 1);
    MaxLineBounds(row, pos);
  }

  lemma PadCell(row: seq<Byte>, pos: nat, column: nat, line: nat, target: nat, max: nat, c: nat, l: nat)
    requires Between(row, pos, column, line, target, max, false, c, l) && IsCellEnd(row, pos)
    ensures Returned(row, pos, column, line, target, max) && target < Height(row) && (column, target) == Successor(row, c, l) && !IsLast(row, c, l)
  {
  }

  lemma PassEnd(row: seq<Byte>, column: nat, line: nat, target: nat, max: nat, c: nat, l: nat)
    requires Between(row, |row|, column, line, target, max, true, c, l)
    ensures target + 1 > max <==> IsLast(row, c, l)
    ensures target + 1 <= max ==> Between(row, 0, 0, 0, target + 1, max, false, c, l)
    ensures max + 1 == Height(row)
  {
    LastColumn(row);
    MaxLineIsHeight(row);
  }

  // ---------------------------------------------------------------- rows of a table

  /** The rows of the help texts from one on. */
  function RowsOf(table: seq<seq<Byte>>, desc: nat): seq<seq<Byte>>
    requires desc <= |table|
    decreases |table| - desc
  {
    if desc == |table| then [] else Split(table[desc], NEWLINE) + RowsOf(table, desc + 1)
  }

  /** The rows from a row start on. */
  function RowsFrom(table: seq<seq<Byte>>, desc: nat, start: nat): seq<seq<Byte>>
    requires desc < |table| && start <= |table[desc]|
  {
    SplitFrom(table[desc], NEWLINE, start) + RowsOf(table, desc + 1)
  }

  /** A text with newlines, which are bytes 10, between its rows has these rows. */
  lemma WrittenText(table: seq<seq<Byte>>, desc: nat, rows: seq<seq<Byte>>)
    requires desc < |table| && rows != [] && table[desc] == Join(rows, 10) && forall i :: 0 <= i < |rows| ==> 10 !in rows[i]
    ensures RowsOf(table, desc) == rows + RowsOf(table, desc + 1)
  {
    SplitJoined(rows, 10);
  }

  /** A table of help texts; none of them holds a 0. */
  predicate IsTable(table: seq<seq<Byte>>) {
    table != [] && forall i :: 0 <= i < |table| ==> 0 !in table[i]
  }

  const NULL: int := -1

  class LinePartIterator {
    const table: seq<seq<Byte>>
    var rowDesc: nat
    var rowStart: nat
    var ptr: int
    var col: int
    var len: nat
    var screenLen: nat
    var maxLineInBlock: nat
    var lineInBlock: nat
    var targetLineInBlock: nat
    var hitTargetLine: bool

    ghost predicate Positioned()
      reads this
    {
      IsTable(table) && rowDesc < |table| && rowStart <= |table[rowDesc]|
    }

    ghost predicate Valid()
      reads this
    {
      Positioned() && (ptr == NULL || rowStart <= ptr <= RowEnd(table[rowDesc], rowStart))
    }

    ghost function CurrentRow(): seq<Byte>
      requires Valid()
      reads this
    {
      Row(table[rowDesc], rowStart)
    }

    /** At the start of a row, before its first part. */
    ghost predicate Fresh()
      reads this
    {
      && Valid() && ptr == rowStart && col == -1 && len == 0
      && maxLineInBlock == 0 && lineInBlock == 0 && targetLineInBlock == 0 && hitTargetLine
    }

    ghost predicate Measured()
      requires Valid() && ptr != NULL
      reads this
    {
      var pos := ptr - rowStart;
      len == PartEnd(CurrentRow(), pos) - pos && screenLen == Width(CurrentRow()[pos..pos + len])
    }

    /** At a part. */
    ghost predicate AtPart()
      reads this
    {
      && Valid() && ptr != NULL && col >= 0 && hitTargetLine && Measured() && targetLineInBlock < Height(CurrentRow())
      && Returned(CurrentRow(), ptr - rowStart, col, lineInBlock, targetLineInBlock, maxLineInBlock)
    }

    /** Behind the last part of a row. */
    ghost predicate Done()
      reads this
    {
      && Valid() && ptr == RowEnd(table[rowDesc], rowStart) && col >= 0 && len == 0 && hitTargetLine
      && targetLineInBlock > maxLineInBlock && maxLineInBlock + 1 == Height(CurrentRow())
    }

    constructor (table: seq<seq<Byte>>)
      requires IsTable(table)
      ensures Valid() && this.table == table && rowDesc == 0 && rowStart == 0 && ptr == NULL
    {
      this.table := table;
      rowDesc, rowStart, ptr := 0, 0, NULL;
      col, len, screenLen, maxLineInBlock, lineInBlock, targetLineInBlock, hitTargetLine := -1, 0, 0, 0, 0, 0, true;
    }

    method RestartTable()
      requires Valid()
      modifies this
      ensures Valid() && rowDesc == 0 && rowStart == 0 && ptr == NULL
    {
      rowDesc, rowStart, ptr := 0, 0, NULL;
    }

    method RestartRow()
      requires Positioned()
      modifies this
      ensures Fresh() && rowDesc == old(rowDesc) && rowStart == old(rowStart)
    {
      ptr := rowStart;
      col, len, screenLen, maxLineInBlock, lineInBlock, targetLineInBlock, hitTargetLine := -1, 0, 0, 0, 0, 0, true;
    }

    method SkipToRowEnd()
      requires Valid() && ptr != NULL
      modifies this`ptr
      ensures Valid() && ptr == RowEnd(table[rowDesc], rowStart)
    {
      var text := table[rowDesc];
      ghost var e := RowEnd(text, rowStart);
      hide RowEnd;
      while CharAt(text, ptr) != NUL && CharAt(text, ptr) != NEWLINE
        invariant Valid() && ptr != NULL && text == table[rowDesc]
        decreases e - ptr
      {
        CharInRow(text, rowStart, ptr - rowStart);
        ptr := ptr + 1;
      }
      CharInRow(text, rowStart, ptr - rowStart);
    }

    /** Moves to the first row, or from a row to the next. */
    method NextRow() returns (ok: bool)
      requires Valid()
      modifies this
      ensures Valid() && (ok ==> Fresh())
      ensures old(ptr) == NULL ==> ok && rowDesc == old(rowDesc) && rowStart == old(rowStart)
      ensures old(ptr) != NULL ==>
                RowsFrom(table, old(rowDesc), old(rowStart))
                == [old(CurrentRow())] + if ok then RowsFrom(table, rowDesc, rowStart) else []
    {
      hide RowsFrom; hide Row; hide RowEnd;
      if ptr == NULL {
        RestartRow();
        return true;
      }
      SkipToRowEnd();
      RowsAfter(table, rowDesc, rowStart);
      var text := table[rowDesc];
      EndOfText(text, ptr);
      if CharAt(text, ptr) == NUL {
        if rowDesc + 1 == |table| {
          return false;
        }
        rowDesc := rowDesc + 1;
        rowStart := 0;
      } else {
        rowStart := ptr + 1;
      }
      RestartRow();
      return true;
    }

    method UpdateLength()
      requires Valid() && ptr != NULL
      modifies this`len, this`screenLen
      ensures Measured()
    {
      hide Stop; hide PartEnd; hide Width; hide Row; hide RowEnd;
      StopIsPartEnd(table[rowDesc], rowStart, ptr - rowStart);
      len, screenLen := Measure(table[rowDesc], ptr);
    }

    /** Moves to the next part of the row. */
    method Next() returns (ok: bool)
      requires Valid() && (ptr == NULL || Fresh() || AtPart() || Done())
      modifies this
      ensures Valid() && rowDesc == old(rowDesc) && rowStart == old(rowStart)
      ensures old(ptr) == NULL ==> !ok && ptr == NULL
      ensures old(Fresh()) ==> ok && AtPart() && col == 0 && targetLineInBlock == 0
      ensures old(AtPart()) ==> Arrived(old(col), old(targetLineInBlock), true, ok)
      ensures old(Done()) ==> !ok && Done()
    {
      hide Row; hide RowEnd; hide PartEnd; hide Width; hide Returned; hide Between; hide Successor; hide IsLast; hide Height;
      if ptr == NULL {
        return false;
      }
      if col == -1 {
        First();
        return true;
      }
      ghost var c, l, running := col as nat, targetLineInBlock, AtPart();
      Leave();
      ok := NextPart(c, l, running);
    }

    method First()
      requires Fresh()
      modifies this`col, this`len, this`screenLen
      ensures AtPart() && col == 0 && targetLineInBlock == 0
    {
      hide Row; hide RowEnd; hide PartEnd; hide Width; hide Returned; hide Between; hide Successor; hide IsLast; hide Height;
      col := 0;
      FirstPart(CurrentRow());
      UpdateLength();
    }

    /** Moves to the end of the part. */
    method Leave()
      requires AtPart() || Done()
      modifies this`ptr
      ensures Scanning(col, targetLineInBlock, old(AtPart()))
      ensures !old(AtPart()) ==> Done()
    {
      hide Row; hide RowEnd; hide PartEnd; hide Width; hide Returned; hide Between; hide Successor; hide IsLast; hide Height;
      if AtPart() {
        LeavePart(CurrentRow(), ptr - rowStart, col, lineInBlock, targetLineInBlock, maxLineInBlock);
      }
      ptr := ptr + len;
    }

    /** Where the iterator is and how wide it is there. */
    lemma PartHere()
      requires AtPart()
      ensures Valid() && ptr != NULL && 0 <= col < |Cells(CurrentRow())|
      ensures screenLen == Width(PartText(CurrentRow(), targetLineInBlock, col))
    {
      hide Row; hide RowEnd; hide PartEnd; hide Width; hide Returned; hide Height; hide PartText;
      ReturnedIsPart(CurrentRow(), ptr - rowStart, col, lineInBlock, targetLineInBlock, maxLineInBlock);
    }

    /** The part the iterator is at. */
    method Current() returns (part: Part)
      requires AtPart()
      ensures 0 <= col < |Cells(CurrentRow())| && targetLineInBlock < Height(CurrentRow())
      ensures part == Part(targetLineInBlock, col, PartText(CurrentRow(), targetLineInBlock, col))
    {
      hide Row; hide RowEnd; hide PartEnd; hide Width; hide Returned; hide Height; hide PartText;
      ReturnedIsPart(CurrentRow(), ptr - rowStart, col, lineInBlock, targetLineInBlock, maxLineInBlock);
      StopIsPartEnd(table[rowDesc], rowStart, ptr - rowStart);
      part := Part(targetLineInBlock, col, table[rowDesc][ptr..ptr + len]);
    }

    /** The scan for the next part, which leads on from the part in column `c`, line `l`. */
    method NextPart(ghost c: nat, ghost l: nat, ghost running: bool) returns (ok: bool)
      requires Scanning(c, l, running)
      modifies this
      ensures rowDesc == old(rowDesc) && rowStart == old(rowStart) && Arrived(c, l, running, ok)
    {
      ghost var row, e := CurrentRow(), RowEnd(table[rowDesc], rowStart);
      hide Scanning; hide Arrived; hide Row; hide RowEnd; hide Height;
      ok := true;
      var going := true;
      while going
        invariant rowDesc == old(rowDesc) && rowStart == old(rowStart)
        invariant if going then Scanning(c, l, running) else Arrived(c, l, running, ok)
        decreases going, Height(row) - targetLineInBlock, e - ptr
      {
        going, ok := Scan(c, l, running);
      }
    }

    /** One round of the scan. */
    method Scan(ghost c: nat, ghost l: nat, ghost running: bool) returns (going: bool, ok: bool)
      requires Scanning(c, l, running)
      modifies this
      ensures rowDesc == old(rowDesc) && rowStart == old(rowStart)
      ensures going ==> Scanning(c, l, running)
      ensures going ==> if targetLineInBlock == old(targetLineInBlock) then old(ptr) < ptr <= RowEnd(table[rowDesc], rowStart)
                        else old(targetLineInBlock) < targetLineInBlock < Height(CurrentRow())
      ensures !going ==> Arrived(c, l, running, ok)
    {
      hide Row; hide RowEnd; hide Height; hide LinePartIterator.Arrived; hide LinePartIterator.InBetween;
      hide LinePartIterator.Done;
      CharInRow(table[rowDesc], rowStart, ptr - rowStart);
      var ch := CharAt(table[rowDesc], ptr);
      if ch == VTAB {
        going, ok := ScanVtab(c, l, running);
      } else if ch == TAB {
        going, ok := ScanTab(c, l, running);
      } else if ch == NUL || ch == NEWLINE {
        going, ok := ScanEnd(c, l, running);
      } else {
        SkipChar(c, l, running);
        going, ok := true, true;
      }
    }

    /** The round at a character that is no separator. */
    method SkipChar(ghost c: nat, ghost l: nat, ghost running: bool)
      requires Scanning(c, l, running) && ptr - rowStart < |CurrentRow()|
      requires CurrentRow()[ptr - rowStart] != TAB && CurrentRow()[ptr - rowStart] != VTAB
      modifies this`ptr
      ensures Scanning(c, l, running) && ptr == old(ptr) + 1
    {
      hide Row; hide RowEnd; hide PartEnd; hide Width; hide Returned; hide Between; hide Successor; hide IsLast; hide Height;
      PassOther(CurrentRow(), ptr - rowStart, col, lineInBlock, targetLineInBlock, maxLineInBlock, hitTargetLine, c, l);
      ptr := ptr + 1;
    }

    /** The round at a vertical tab: the cell's next line starts. */
    method ScanVtab(ghost c: nat, ghost l: nat, ghost running: bool) returns (going: bool, ok: bool)
      requires Scanning(c, l, running) && ptr - rowStart < |CurrentRow()| && CurrentRow()[ptr - rowStart] == VTAB
      modifies this
      ensures rowDesc == old(rowDesc) && rowStart == old(rowStart) && targetLineInBlock == old(targetLineInBlock)
      ensures going ==> Scanning(c, l, running) && ptr == old(ptr) + 1
      ensures !going ==> Arrived(c, l, running, ok)
    {
      hide Row; hide RowEnd; hide PartEnd; hide Width; hide Returned; hide Between; hide Successor; hide IsLast; hide Height;
      PassVtab(CurrentRow(), ptr - rowStart, col, lineInBlock, targetLineInBlock, maxLineInBlock, hitTargetLine, c, l);
      lineInBlock := lineInBlock + 1;
      maxLineInBlock := if lineInBlock > maxLineInBlock then lineInBlock else maxLineInBlock;
      ptr := ptr + 1;
      going, ok := lineInBlock != targetLineInBlock, true;
      if !going {
        UpdateLength();
        hitTargetLine := true;
      }
    }

    /** The round at a tab: the cell is padded, or the next one starts. */
    method ScanTab(ghost c: nat, ghost l: nat, ghost running: bool) returns (going: bool, ok: bool)
      requires Scanning(c, l, running) && ptr - rowStart < |CurrentRow()| && CurrentRow()[ptr - rowStart] == TAB
      modifies this
      ensures rowDesc == old(rowDesc) && rowStart == old(rowStart) && targetLineInBlock == old(targetLineInBlock)
      ensures going ==> Scanning(c, l, running) && ptr == old(ptr) + 1
      ensures !going ==> Arrived(c, l, running, ok)
    {
      hide Row; hide RowEnd; hide PartEnd; hide Width; hide Returned; hide Between; hide Successor; hide IsLast; hide Height;
      if !hitTargetLine {
        Pad(c, l, running);
        return false, true;
      }
      PassTab(CurrentRow(), ptr - rowStart, col, lineInBlock, targetLineInBlock, maxLineInBlock, c, l);
      hitTargetLine := false;
      lineInBlock := 0;
      col := col + 1;
      ptr := ptr + 1;
      going, ok := lineInBlock != targetLineInBlock, true;
      if !going {
        UpdateLength();
        hitTargetLine := true;
      }
    }

    /** A cell that ends before the line: a part of length 0 stands for it. */
    method Pad(ghost c: nat, ghost l: nat, ghost running: bool)
      requires Scanning(c, l, running) && !hitTargetLine && IsCellEnd(CurrentRow(), ptr - rowStart)
      modifies this`len, this`screenLen, this`hitTargetLine
      ensures Arrived(c, l, running, true)
    {
      hide Row; hide RowEnd; hide PartEnd; hide Width; hide Returned; hide Between; hide Successor; hide IsLast; hide Height;
      PadCell(CurrentRow(), ptr - rowStart, col, lineInBlock, targetLineInBlock, maxLineInBlock, c, l);
      UpdateLength();
      hitTargetLine := true;
    }

    /** The round at the end of the row: pad the last cell, stop, or go back for the next line. */
    method ScanEnd(ghost c: nat, ghost l: nat, ghost running: bool) returns (going: bool, ok: bool)
      requires Scanning(c, l, running) && ptr == RowEnd(table[rowDesc], rowStart)
      modifies this
      ensures rowDesc == old(rowDesc) && rowStart == old(rowStart)
      ensures going ==> Scanning(c, l, running) && old(targetLineInBlock) < targetLineInBlock < Height(CurrentRow())
      ensures !going ==> Arrived(c, l, running, ok)
    {
      hide Row; hide RowEnd; hide PartEnd; hide Width; hide Returned; hide Between; hide Successor; hide IsLast; hide Height;
      ghost var row := CurrentRow();
      if !hitTargetLine {
        Pad(c, l, running);
        return false, true;
      }
      if running {
        PassEnd(row, col, lineInBlock, targetLineInBlock, maxLineInBlock, c, l);
      }
      targetLineInBlock := targetLineInBlock + 1;
      if targetLineInBlock > maxLineInBlock {
        UpdateLength();
        return false, false;
      }
      hitTargetLine := false;
      lineInBlock := 0;
      col := 0;
      ptr := rowStart;
      return true, true;
    }

    /** On the way to the next part, or again at the end. */
    ghost predicate Scanning(c: nat, l: nat, running: bool)
      reads this
    {
      && Valid() && ptr != NULL && col >= 0 && targetLineInBlock >= 0
      && if running then InBetween(c, l) else Done()
    }

    /** At the part that follows, or behind the last one. */
    ghost predicate Arrived(c: nat, l: nat, running: bool, ok: bool)
      reads this
    {
      && Valid() && ptr != NULL && col >= 0
      && if running && !IsLast(CurrentRow(), c, l) then ok && AtPart() && (col as nat, targetLineInBlock) == Successor(CurrentRow(), c, l)
         else !ok && Done()
    }

    ghost predicate InBetween(c: nat, l: nat)
      requires Valid() && ptr != NULL && col >= 0
      reads this
    {
      Between(CurrentRow(), ptr - rowStart, col, lineInBlock, targetLineInBlock, maxLineInBlock, hitTargetLine, c, l)
    }
  }

  /** What a character of the text says about its place in the row. */
  lemma CharInRow(text: seq<Byte>, start: nat, pos: nat)
    requires NUL !in text && start <= |text| && start + pos <= RowEnd(text, start)
    ensures pos == |Row(text, start)| <==> CharAt(text, start + pos) == NUL || CharAt(text, start + pos) == NEWLINE
    ensures pos < |Row(text, start)| ==> CharAt(text, start + pos) == Row(text, start)[pos]
  {
    assert start + pos < |text| ==> text[start + pos] in text;
  }

  lemma EndOfText(text: seq<Byte>, ptr: nat)
    requires NUL !in text && ptr <= |text|
    ensures CharAt(text, ptr) == NUL <==> ptr == |text|
  {
    assert ptr < |text| ==> text[ptr] in text;
  }

  lemma FirstPart(row: seq<Byte>)
    ensures Returned(row, 0, 0, 0, 0, 0) && 0 < Height(row)
  {
    InGrid(row, 0);
  }

  lemma {:induction false} LeavePart(row: seq<Byte>, pos: nat, column: nat, line: nat, target: nat, max: nat)
    requires Returned(row, pos, column, line, target, max)
    ensures Between(row, PartEnd(row, pos), column, line, target, max, true, column, target)
  {
    LeaveFrom(row, pos, column, line, target, max);
  }

  lemma {:induction false} LeaveFrom(row: seq<Byte>, pos: nat, column: nat, line: nat, target: nat, max: nat)
    requires Between(row, pos, column, line, target, max, true, column, target)
    ensures Between(row, PartEnd(row, pos), column, line, target, max, true, column, target)
    decreases |row| - pos
  {
    if pos < |row| && row[pos] != TAB && row[pos] != VTAB {
      PassOther(row, pos, column, line, target, max, true, column, target);
      LeaveFrom(row, pos + 1, column, line, target, max);
    }
  }

  lemma RowsAfter(table: seq<seq<Byte>>, desc: nat, start: nat)
    requires desc < |table| && start <= |table[desc]|
    ensures var text, e := table[desc], RowEnd(table[desc], start);
            RowsFrom(table, desc, start)
            == [Row(text, start)]
               + if e < |text| then RowsFrom(table, desc, e + 1) else if desc + 1 < |table| then RowsFrom(table, desc + 1, 0) else []
  {
    var text, e, rest := table[desc], RowEnd(table[desc], start), RowsOf(table, desc + 1);
    hide RowsOf;
    RowsOfNext(table, desc + 1);
    hide Find;
    if e == |text| {
      assert text[start..] == Row(text, start);
    } else {
      Regroup([Row(text, start)], SplitFrom(text, NEWLINE, e + 1), rest);
    }
  }

  lemma RowsOfNext(table: seq<seq<Byte>>, desc: nat)
    requires desc <= |table|
    ensures RowsOf(table, desc) == if desc < |table| then RowsFrom(table, desc, 0) else []
  {
  }

  // ---------------------------------------------------------------- a whole row

  /** The parts before the one in line `line`, column `column`. */
  function PartsBefore(row: seq<Byte>, column: nat, line: nat): seq<Part>
    requires column < |Cells(row)|
  {
    GridTo(row, line) + GridLine(row, line)[..column]
  }

  /** With the part itself, these are the parts before the next one, or all of them. */
  lemma PartFollows(row: seq<Byte>, column: nat, line: nat)
    requires column < |Cells(row)|
    ensures var more := PartsBefore(row, column, line) + [Part(line, column, PartText(row, line, column))];
            if IsLast(row, column, line) then more == Grid(row)
            else var (c, l) := Successor(row, column, line); more == PartsBefore(row, c, l)
  {
    var all := GridLine(row, line);
    hide Height; hide Cells;
    Regroup(GridTo(row, line), all[..column], [all[column]]);
    assert all[..column] + [all[column]] == all[..column + 1];
    if column + 1 == |Cells(row)| {
      assert all[..column + 1] == all;
      assert GridTo(row, line + 1) == GridTo(row, line) + all;
      assert GridLine(row, line + 1)[..0] == [];
    }
  }

  lemma NoPartsBefore(row: seq<Byte>)
    ensures PartsBefore(row, 0, 0) == []
  {
    assert GridLine(row, 0)[..0] == [];
  }

  /** Repeated calls return the grid, line by line, and then false. */
  method RowParts(it: LinePartIterator) returns (parts: seq<Part>)
    requires it.Fresh()
    modifies it
    ensures it.Done() && it.rowDesc == old(it.rowDesc) && it.rowStart == old(it.rowStart)
    ensures parts == Grid(old(it.CurrentRow()))
  {
    ghost var row := it.CurrentRow();
    hide Row; hide RowEnd; hide PartsBefore; hide PartText; hide Height; hide Grid; hide Cells; hide Returned;
    hide LinePartIterator.Measured;
    NoPartsBefore(row);
    parts := [];
    var ok := it.Next();
    while ok
      invariant it.Valid() && it.rowDesc == old(it.rowDesc) && it.rowStart == old(it.rowStart)
      invariant if ok then it.AtPart() && 0 <= it.col < |Cells(row)| && parts == PartsBefore(row, it.col, it.targetLineInBlock)
                else it.Done() && parts == Grid(row)
      decreases ok, Height(row) - it.targetLineInBlock, |Cells(row)| - it.col
    {
      var part := it.Current();
      PartFollows(row, it.col, it.targetLineInBlock);
      parts := parts + [part];
      ok := it.Next();
    }
  }
}
