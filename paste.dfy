/** Pasting spreadsheet text into the roster table
    (app/students/StudentsPageInner.tsx): the whole-table paste, which turns
    every non-blank line into a new student and replaces the list, and the
    field paste, which writes a block of cells into the existing rows from
    the row and column where it was dropped. */
module Paste {
  import opened Util
  import opened Text
  import opened Roster

  predicate NonBlank(s: string) { !Blank(s) }

  /** `text.split('\n').filter(row => row.trim())`. */
  function NonBlankLines(text: string): (rows: seq<string>)
    ensures forall i :: 0 <= i < |rows| ==> NonBlank(rows[i]) && '\n' !in rows[i]
  {
    var rows := Filter(Split(text, '\n'), NonBlank);
    assert forall i :: 0 <= i < |rows| ==> rows[i] in rows;
    rows
  }

  /** Lines joined with newlines come back as the non-blank ones among
      them, in their order. */
  lemma NonBlankLinesOfJoin(lines: seq<string>)
    requires |lines| >= 1
    requires forall k :: 0 <= k < |lines| ==> '\n' !in lines[k]
    ensures NonBlankLines(Join(lines, '\n')) == Filter(lines, NonBlank)
  {
    SplitJoin(lines, '\n');
  }

  // ------------------------------------------------------ whole-table paste

  /** One pasted line, columns name, gender, problem, special, group, rank.
      The name, gender and group cells are trimmed; the two flag cells are
      compared as they are. */
  function ParseRow(row: string): (s: Student)
    ensures var cols := Split(row, '\t');
      && s.name == Trim(Cell(cols, 0))
      && (s.gender == F <==> Trim(Cell(cols, 1)) in {"F", "f", "여", "여자"})
      && (s.isProblem <==> SameIgnoringCase(Cell(cols, 2), "true") || Cell(cols, 2) == "1" || Cell(cols, 2) == "문제")
      && (s.isSpecial <==> SameIgnoringCase(Cell(cols, 3), "true") || Cell(cols, 3) == "1" || Cell(cols, 3) == "특수")
      && s.groupName == GroupOfCell(Cell(cols, 4))
      && (s.groupName == "" || s.groupName in ValidGroups)
      && s.rank == RankOfCell(Cell(cols, 5))
      && (s.rank.None? <==> forall i :: 0 <= i < |Cell(cols, 5)| ==> !IsDigit(Cell(cols, 5)[i]))
      && (s.rank.Some? ==> s.rank.value >= 0)
      && s.id.None? && s.previousSection.None?
  {
    var cols := Split(row, '\t');
    Student(None, Trim(Cell(cols, 0)), GenderOfCell(Cell(cols, 1)),
            FlagOfCell(Cell(cols, 2), "문제"), FlagOfCell(Cell(cols, 3), "특수"),
            GroupOfCell(Cell(cols, 4)), RankOfCell(Cell(cols, 5)), None)
  }

  /** `handlePaste`: the new student list, one student per non-blank line in
      line order; it replaces the previous list entirely. */
  function PasteTable(text: string): seq<Student>
  {
    var rows := NonBlankLines(text);
    seq(|rows|, i requires 0 <= i < |rows| => ParseRow(rows[i]))
  }

  /** Pasting lines joined by newlines yields exactly one student per
      non-blank line, parsed from that line, in line order. */
  lemma {:induction false} PasteOneStudentPerLine(lines: seq<string>)
    requires |lines| >= 1
    requires forall k :: 0 <= k < |lines| ==> '\n' !in lines[k]
    ensures |PasteTable(Join(lines, '\n'))| == |KeptPositions(lines, NonBlank)|
    ensures forall i :: 0 <= i < |PasteTable(Join(lines, '\n'))| ==>
      PasteTable(Join(lines, '\n'))[i] == ParseRow(lines[KeptPositions(lines, NonBlank)[i]])
  {
    NonBlankLinesOfJoin(lines);
    FilterAt(lines, NonBlank);
  }

  // ------------------------------------------------------------ field paste

  /** `fieldOrder`: the order of the table's pasteable columns. */
  const FieldOrder: seq<Key> := [NameKey, GenderKey, ProblemKey, SpecialKey, GroupKey, RankKey]

  /** `fieldOrder.indexOf(field)`. */
  function FieldIndex(k: Key): (i: int)
    ensures -1 <= i < |FieldOrder|
    ensures i == -1 <==> k == IdKey || k == PreviousSectionKey
    ensures i >= 0 ==> FieldOrder[i] == k
  {
    match k
    case NameKey => 0
    case GenderKey => 1
    case ProblemKey => 2
    case SpecialKey => 3
    case GroupKey => 4
    case RankKey => 5
    case IdKey | PreviousSectionKey => -1
  }

  /** `indexOf` finds a field exactly when it is one of the pasteable
      columns. */
  lemma FieldIndexFindsColumn(k: Key)
    ensures FieldIndex(k) >= 0 <==> k in FieldOrder
  {
  }

  /** The value a pasted cell gives field `k`: the cell is trimmed first,
      then converted as the field requires. The id and the previous section
      have no column, and no cell is ever converted for them. */
  function PastedValue(k: Key, cell: string): (v: Value)
  {
    var t := Trim(cell);
    match k
    case RankKey => NumVal(RankOfCell(t))
    case GenderKey => GenderVal(GenderOfCell(t))
    case ProblemKey => BoolVal(FlagOfCell(t, "문제"))
    case SpecialKey => BoolVal(FlagOfCell(t, "특수"))
    case NameKey => StrVal(t)
    case GroupKey => StrVal(GroupOfCell(t))
    case IdKey | PreviousSectionKey => NumVal(None)
  }

  /** Every converted cell has the kind of value its field holds. */
  lemma PastedValueFits(k: Key, cell: string)
    ensures Fits(k, PastedValue(k, cell))
  {
    match k
    case RankKey =>
    case GenderKey =>
    case ProblemKey =>
    case SpecialKey =>
    case NameKey =>
    case GroupKey =>
    case IdKey =>
    case PreviousSectionKey =>
  }

  /** One pasted cell written into field `k` of a row: only that field
      changes, to the converted cell; a key without a column falls through
      every branch and writes nothing. */
  function PasteCell(s: Student, k: Key, cell: string): (r: Student)
    ensures FieldIndex(k) >= 0 ==> Get(r, k) == PastedValue(k, cell)
    ensures forall k' :: k' != k ==> Get(r, k') == Get(s, k')
    ensures FieldIndex(k) < 0 ==> r == s
  {
    if FieldIndex(k) >= 0 then
      var v := PastedValue(k, cell);
      PastedValueFits(k, cell);
      SetThenGet(s, k, v);
      Set(s, k, v)
    else s
  }

  /** The cells of one pasted line written into one row, left to right:
      cell `c` goes to field `FieldOrder[start + c]`, and cells past the last
      field are dropped. */
  function ApplyCells(s: Student, cols: seq<string>, start: nat): Student
    decreases |cols|
  {
    if cols == [] then s
    else
      var c := |cols| - 1;
      var prev := ApplyCells(s, cols[..c], start);
      if start + c < |FieldOrder| then PasteCell(prev, FieldOrder[start + c], cols[c]) else prev
  }

  /** Writing one more cell of the line extends the row written so far. */
  lemma ApplyCellsStep(s: Student, cols: seq<string>, start: nat, c: nat)
    requires c < |cols|
    ensures ApplyCells(s, cols[..c + 1], start) ==
      if start + c < |FieldOrder| then PasteCell(ApplyCells(s, cols[..c], start), FieldOrder[start + c], cols[c])
      else ApplyCells(s, cols[..c], start)
  {
    assert cols[..c + 1][..c] == cols[..c];
  }

  /** Each field has one column: `FieldIndex` inverts `FieldOrder`. */
  lemma FieldIndexOfOrder()
    ensures forall j :: 0 <= j < |FieldOrder| ==> FieldIndex(FieldOrder[j]) == j
  {
  }

  /** The field `FieldOrder[j]` after one more cell was written. */
  lemma AppliedCellField(prev: Student, cols: seq<string>, start: nat, j: nat)
    requires cols != [] && j < |FieldOrder|
    ensures var c := |cols| - 1;
      var next := if start + c < |FieldOrder| then PasteCell(prev, FieldOrder[start + c], cols[c]) else prev;
      Get(next, FieldOrder[j]) == if j == start + c then PastedValue(FieldOrder[j], cols[c]) else Get(prev, FieldOrder[j])
  {
    var c := |cols| - 1;
    if start + c < |FieldOrder| && j != start + c {
      FieldIndexOfOrder();
      assert FieldOrder[j] != FieldOrder[start + c];
    }
  }

  /** Pasting a line never touches the id or the previous section. */
  lemma {:induction false} ApplyCellsKeepsIdentity(s: Student, cols: seq<string>, start: nat)
    ensures ApplyCells(s, cols, start).id == s.id
    ensures ApplyCells(s, cols, start).previousSection == s.previousSection
    decreases |cols|
  {
    if cols != [] {
      var c := |cols| - 1;
      var prev := ApplyCells(s, cols[..c], start);
      ApplyCellsKeepsIdentity(s, cols[..c], start);
      if start + c < |FieldOrder| {
        var next := PasteCell(prev, FieldOrder[start + c], cols[c]);
        assert Get(next, IdKey) == Get(prev, IdKey);
        assert Get(next, PreviousSectionKey) == Get(prev, PreviousSectionKey);
      }
    }
  }

  /** After a line is pasted into a row, field `FieldOrder[j]` holds the
      converted cell `j - start` when there is such a cell, and its old value
      otherwise. */
  lemma {:induction false} ApplyCellsFields(s: Student, cols: seq<string>, start: nat, j: nat)
    requires j < |FieldOrder|
    ensures Get(ApplyCells(s, cols, start), FieldOrder[j]) ==
      if start <= j < start + |cols| then PastedValue(FieldOrder[j], cols[j - start])
      else Get(s, FieldOrder[j])
    decreases |cols|
  {
    if cols != [] {
      var c := |cols| - 1;
      var init := cols[..c];
      ApplyCellsFields(s, init, start, j);
      AppliedCellField(ApplyCells(s, init, start), cols, start, j);
      if start <= j < start + c {
        assert init[j - start] == cols[j - start];
      }
    }
  }

  /** The row at position `i` before the paste; a row the paste adds starts
      as `createEmptyStudent()`. */
  function RowBefore(students: seq<Student>, i: int): Student
  {
    if 0 <= i < |students| then students[i] else EmptyStudent()
  }

  /** How a paste writes one line into one row. The placement of the
      written rows below holds for any such writer; the field paste uses
      `WriteLine`. */
  type RowWriter = (Student, string) -> Student

  /** One pasted line written into a row: the line is split at tabs and its
      cells written from column `start` rightwards. */
  function WriteLine(start: nat): RowWriter
  {
    (s: Student, line: string) => ApplyCells(s, Split(line, '\t'), start)
  }

  /** The rows written by a paste, in line order: line `r` of `rows` written
      into the row `startIndex + r` had before. */
  function WrittenRows(students: seq<Student>, startIndex: nat, rows: seq<string>, write: RowWriter): (w: seq<Student>)
    ensures |w| == |rows|
    decreases |rows|
  {
    if rows == [] then []
    else
      var r := |rows| - 1;
      WrittenRows(students, startIndex, rows[..r], write) + [write(RowBefore(students, startIndex + r), rows[r])]
  }

  /** Line `r` of a paste, written into the row it lands on. */
  lemma {:induction false} WrittenRowAt(students: seq<Student>, startIndex: nat, rows: seq<string>, write: RowWriter, r: nat)
    requires r < |rows|
    ensures WrittenRows(students, startIndex, rows, write)[r] == write(RowBefore(students, startIndex + r), rows[r])
    decreases |rows|
  {
    if r < |rows| - 1 {
      var init := rows[..|rows| - 1];
      WrittenRowAt(students, startIndex, init, write, r);
      assert init[r] == rows[r];
    }
  }

  /** The rows `written` placed over the table from row `startIndex`: the
      table grows to hold them all (rows added only to fill a gap stay
      empty), and every other row keeps its value. */
  function Overlay(students: seq<Student>, startIndex: nat, written: seq<Student>): (t: seq<Student>)
    ensures |t| >= |students|
  {
    var n := if written == [] || |students| >= startIndex + |written| then |students| else startIndex + |written|;
    seq(n, i requires 0 <= i < n =>
      if startIndex <= i < startIndex + |written| then written[i - startIndex] else RowBefore(students, i))
  }

  /** Nothing placed over the table leaves it as it is. */
  lemma OverlayOfNothing(students: seq<Student>, startIndex: nat)
    ensures Overlay(students, startIndex, []) == students
  {
  }

  /** One more row placed: the table padded with empty rows up to the next
      target row still holds that row's original value there, and
      overwriting it places one more row. */
  lemma OverlayStep(students: seq<Student>, startIndex: nat, written: seq<Student>, w: Student, grown: seq<Student>)
    requires var p := Overlay(students, startIndex, written);
      |grown| == (if |p| > startIndex + |written| then |p| else startIndex + |written| + 1)
    requires var p := Overlay(students, startIndex, written);
      |p| <= |grown| && grown[..|p|] == p
    requires var p := Overlay(students, startIndex, written);
      forall i :: |p| <= i < |grown| ==> grown[i] == EmptyStudent()
    ensures startIndex + |written| < |grown|
    ensures grown[startIndex + |written|] == RowBefore(students, startIndex + |written|)
    ensures grown[startIndex + |written| := w] == Overlay(students, startIndex, written + [w])
  {
    var p := Overlay(students, startIndex, written);
    var q := Overlay(students, startIndex, written + [w]);
    var target := startIndex + |written|;
    assert forall i :: 0 <= i < |p| ==> grown[i] == p[i] by {
      forall i | 0 <= i < |p| ensures grown[i] == p[i] {
        assert grown[..|p|][i] == grown[i];
      }
    }
    assert grown[target] == RowBefore(students, target);
    var g := grown[target := w];
    assert |g| == |q|;
    forall i | 0 <= i < |q| ensures g[i] == q[i] {
      if startIndex <= i < target {
        assert (written + [w])[i - startIndex] == written[i - startIndex];
      }
    }
  }

  /** The table after the non-blank lines `rows` were pasted from row
      `startIndex` at column `field`: nothing changes when there is no line
      or the field has no column; otherwise the written rows are placed from
      row `startIndex`. */
  function FieldPasteOf(students: seq<Student>, startIndex: nat, field: Key, rows: seq<string>): seq<Student>
  {
    if rows == [] || FieldIndex(field) < 0 then students
    else Overlay(students, startIndex, WrittenRows(students, startIndex, rows, WriteLine(FieldIndex(field))))
  }

  /** What `handleFieldPaste(startIndex, field)` leaves in the table. */
  function FieldPasteResult(students: seq<Student>, startIndex: nat, field: Key, text: string): seq<Student>
  {
    FieldPasteOf(students, startIndex, field, NonBlankLines(text))
  }

  /** The row that receives line `r` of a paste holds written row `r`. */
  lemma FieldPasteRow(students: seq<Student>, startIndex: nat, field: Key, rows: seq<string>, r: nat)
    requires FieldIndex(field) >= 0 && r < |rows|
    ensures startIndex + r < |FieldPasteOf(students, startIndex, field, rows)|
    ensures FieldPasteOf(students, startIndex, field, rows)[startIndex + r]
      == WrittenRows(students, startIndex, rows, WriteLine(FieldIndex(field)))[r]
  {
  }

  /** What a paste writes into the row that receives line `r`: field
      `FieldOrder[j]` holds the trimmed, converted cell `j - start` of the
      line when that cell exists; every field left of column `start` and
      every field the line is too short to reach keeps the row's old
      value. */
  lemma WrittenRowCell(students: seq<Student>, startIndex: nat, rows: seq<string>, start: nat, r: nat, j: nat)
    requires r < |rows| && j < |FieldOrder|
    ensures var cols := Split(rows[r], '\t');
      Get(WrittenRows(students, startIndex, rows, WriteLine(start))[r], FieldOrder[j]) ==
        if start <= j < start + |cols| then PastedValue(FieldOrder[j], cols[j - start])
        else Get(RowBefore(students, startIndex + r), FieldOrder[j])
  {
    WrittenRowAt(students, startIndex, rows, WriteLine(start), r);
    ApplyCellsFields(RowBefore(students, startIndex + r), Split(rows[r], '\t'), start, j);
  }

  /** A field paste that writes anything makes the table just long enough
      for its last line, and never shorter than before. */
  lemma FieldPasteLength(students: seq<Student>, startIndex: nat, field: Key, rows: seq<string>)
    ensures |FieldPasteOf(students, startIndex, field, rows)| ==
      if rows == [] || FieldIndex(field) < 0 then |students|
      else if |students| >= startIndex + |rows| then |students| else startIndex + |rows|
  {
  }

  /** A field paste never changes the id or the previous section of the
      rows it writes into. */
  lemma FieldPasteKeepsIdentity(students: seq<Student>, startIndex: nat, field: Key, rows: seq<string>, r: nat)
    requires FieldIndex(field) >= 0 && r < |rows|
    ensures startIndex + r < |FieldPasteOf(students, startIndex, field, rows)|
    ensures FieldPasteOf(students, startIndex, field, rows)[startIndex + r].id
      == RowBefore(students, startIndex + r).id
    ensures FieldPasteOf(students, startIndex, field, rows)[startIndex + r].previousSection
      == RowBefore(students, startIndex + r).previousSection
  {
    FieldPasteRow(students, startIndex, field, rows, r);
    WrittenRowAt(students, startIndex, rows, WriteLine(FieldIndex(field)), r);
    ApplyCellsKeepsIdentity(RowBefore(students, startIndex + r), Split(rows[r], '\t'), FieldIndex(field));
  }

  /** A field paste never shortens the table, and a row no line lands on
      keeps its value (rows added to fill a gap are empty). */
  lemma FieldPasteOtherRows(students: seq<Student>, startIndex: nat, field: Key, rows: seq<string>, i: nat)
    requires i < |FieldPasteOf(students, startIndex, field, rows)|
    requires !(startIndex <= i < startIndex + |rows|)
    ensures |FieldPasteOf(students, startIndex, field, rows)| >= |students|
    ensures FieldPasteOf(students, startIndex, field, rows)[i] == RowBefore(students, i)
  {
  }

  /** One row of `handleFieldPaste`: padding the table for the first `r`
      lines up to the target row and then writing line `r` into it gives
      the table for the first `r + 1` lines. */
  lemma FieldPasteStep(students: seq<Student>, startIndex: nat, rows: seq<string>, write: RowWriter, r: nat)
    requires r < |rows|
    ensures WriteRow(Overlay(students, startIndex, WrittenRows(students, startIndex, rows[..r], write)), startIndex + r, rows[r], write)
      == Overlay(students, startIndex, WrittenRows(students, startIndex, rows[..r + 1], write))
  {
    var written := WrittenRows(students, startIndex, rows[..r], write);
    var w := write(RowBefore(students, startIndex + r), rows[r]);
    OverlayStep(students, startIndex, written, w, Padded(Overlay(students, startIndex, written), startIndex + r));
    WrittenRowsSnoc(students, startIndex, rows, write, r);
  }

  /** The rows written for the first `r + 1` lines are those for the first
      `r` lines followed by line `r` written into its row. */
  lemma WrittenRowsSnoc(students: seq<Student>, startIndex: nat, rows: seq<string>, write: RowWriter, r: nat)
    requires r < |rows|
    ensures WrittenRows(students, startIndex, rows[..r + 1], write)
      == WrittenRows(students, startIndex, rows[..r], write) + [write(RowBefore(students, startIndex + r), rows[r])]
  {
    assert rows[..r + 1][..r] == rows[..r];
  }

  /** `while (updated.length <= targetRowIndex) updated.push(createEmptyStudent())`:
      the rows already there stay, and empty rows are appended until row
      `target` exists. */
  method PadRows(table: seq<Student>, target: int) returns (padded: seq<Student>)
    ensures padded == Padded(table, target)
  {
    padded := table;
    while |padded| <= target
      invariant |table| <= |padded|
      invariant |padded| == |table| || |padded| <= target + 1
      invariant padded == table + seq(|padded| - |table|, _ => EmptyStudent())
    {
      padded := padded + [EmptyStudent()];
    }
  }

  /** The table grown with empty rows until row `target` exists. */
  function Padded(table: seq<Student>, target: int): (padded: seq<Student>)
    ensures |padded| == if |table| > target then |table| else target + 1
    ensures padded[..|table|] == table
    ensures forall i :: |table| <= i < |padded| ==> padded[i] == EmptyStudent()
  {
    if |table| > target then table else table + seq(target + 1 - |table|, _ => EmptyStudent())
  }

  /** One line of a paste: the table is grown until row `target` exists,
      then the line is written into that row. */
  function WriteRow(table: seq<Student>, target: nat, line: string, write: RowWriter): (t: seq<Student>)
    ensures |t| == if |table| > target then |table| else target + 1
  {
    var padded := Padded(table, target);
    padded[target := write(padded[target], line)]
  }

  /** The table `rows.forEach(...)` leaves after its first `n` lines,
      grown and written one line at a time. */
  function PasteSteps(students: seq<Student>, startIndex: nat, rows: seq<string>, write: RowWriter, n: nat): seq<Student>
    requires n <= |rows|
  {
    if n == 0 then students
    else
      var r := n - 1;
      WriteRow(PasteSteps(students, startIndex, rows, write, r), startIndex + r, rows[r], write)
  }

  /** One more line pasted: the table after `n + 1` lines is line `n`
      written over the table after `n` lines. */
  lemma PasteStepsNext(students: seq<Student>, startIndex: nat, rows: seq<string>, write: RowWriter, n: nat)
    requires n < |rows|
    ensures PasteSteps(students, startIndex, rows, write, n + 1)
      == WriteRow(PasteSteps(students, startIndex, rows, write, n), startIndex + n, rows[n], write)
  {
  }

  /** Writing the lines one at a time, each into a table grown just enough
      to hold it, places every written row over the old table. */
  lemma {:induction false} PasteStepsPlace(students: seq<Student>, startIndex: nat, rows: seq<string>, write: RowWriter, n: nat)
    requires n <= |rows|
    ensures PasteSteps(students, startIndex, rows, write, n)
      == Overlay(students, startIndex, WrittenRows(students, startIndex, rows[..n], write))
  {
    if n == 0 {
      assert rows[..0] == [];
      OverlayOfNothing(students, startIndex);
    } else {
      var r := n - 1;
      assert PasteSteps(students, startIndex, rows, write, r)
        == Overlay(students, startIndex, WrittenRows(students, startIndex, rows[..r], write)) by {
        PasteStepsPlace(students, startIndex, rows, write, r);
      }
      FieldPasteStep(students, startIndex, rows, write, r);
    }
  }

  /** All the lines written one at a time place every written row. */
  lemma PasteStepsPlaceAll(students: seq<Student>, startIndex: nat, rows: seq<string>, write: RowWriter)
    ensures PasteSteps(students, startIndex, rows, write, |rows|)
      == Overlay(students, startIndex, WrittenRows(students, startIndex, rows, write))
  {
    PasteStepsPlace(students, startIndex, rows, write, |rows|);
    assert rows[..|rows|] == rows;
  }

  /** `cols.forEach(...)` for one line: cell `c` is trimmed, converted and
      written into field `FieldOrder[start + c]` of row `target`, cells past
      the last field are skipped, and no other row changes. */
  method PasteLine(table: seq<Student>, target: nat, cols: seq<string>, start: nat)
    returns (updated: seq<Student>)
    requires target < |table|
    ensures updated == table[target := ApplyCells(table[target], cols, start)]
  {
    updated := table;
    assert cols[..0] == [];
    var c := 0;
    while c < |cols|
      invariant 0 <= c <= |cols|
      invariant updated == table[target := ApplyCells(table[target], cols[..c], start)]
    {
      var targetFieldIndex := start + c;
      if targetFieldIndex < |FieldOrder| {
        updated := updated[target := PasteCell(updated[target], FieldOrder[targetFieldIndex], cols[c])];
      }
      ApplyCellsStep(table[target], cols, start, c);
      c := c + 1;
    }
    assert cols[..|cols|] == cols;
  }

  /** The callback of `rows.forEach(...)` for one line: the table is
      extended with empty students up to the target row, then the cells of
      the line are written into that row's fields from column `start`
      rightwards. */
  method PasteRow(table: seq<Student>, target: nat, line: string, start: nat) returns (updated: seq<Student>)
    ensures updated == WriteRow(table, target, line, WriteLine(start))
  {
    var padded := PadRows(table, target);
    var cols := Split(line, '\t');
    updated := PasteLine(padded, target, cols, start);
  }

  /** `rows.forEach(...)`: the lines are pasted one after another, line `r`
      into row `startIndex + r`. */
  method PasteRows(students: seq<Student>, startIndex: nat, rows: seq<string>, startFieldIndex: nat)
    returns (updated: seq<Student>)
    ensures updated == Overlay(students, startIndex, WrittenRows(students, startIndex, rows, WriteLine(startFieldIndex)))
  {
    var table := students;
    for r: nat := 0 to |rows|
      invariant table == PasteSteps(students, startIndex, rows, WriteLine(startFieldIndex), r)
    {
      PasteStepsNext(students, startIndex, rows, WriteLine(startFieldIndex), r);
      table := PasteRow(table, startIndex + r, rows[r], startFieldIndex);
    }
    PasteStepsPlaceAll(students, startIndex, rows, WriteLine(startFieldIndex));
    return table;
  }

  /** `handleFieldPaste(startIndex, field)`: the non-blank lines of the
      pasted text are written into the table from row `startIndex` and the
      column of `field`; nothing happens when there is no such line or the
      field has no column. */
  method FieldPaste(students: seq<Student>, startIndex: nat, field: Key, text: string)
    returns (updated: seq<Student>)
    ensures updated == FieldPasteResult(students, startIndex, field, text)
  {
    var rows := NonBlankLines(text);
    if |rows| == 0 {
      return students;
    }
    var startFieldIndex := FieldIndex(field);
    if startFieldIndex == -1 {
      return students;
    }
    updated := PasteRows(students, startIndex, rows, startFieldIndex);
  }
}
