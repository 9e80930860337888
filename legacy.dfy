/** The older students page (app/students/page.tsx): a five-field row, a
    paste parser that copies cells without trimming or normalising them, the
    row edits, the save filter and the fallback to one empty row when the
    server returns nothing. */
module LegacyRoster {
  import opened Util
  import opened Text
  import Roster
  import opened Paste

  /** One row of the older page. */
  datatype LegacyStudent = LegacyStudent(
    id: Option<int>,
    name: string,
    gender: Roster.Gender,
    isProblem: bool,
    groupName: string)

  /** `createEmptyStudent()`. */
  function EmptyLegacyStudent(): LegacyStudent
  {
    LegacyStudent(None, "", Roster.M, false, "")
  }

  // ----------------------------------------------------------------- paste

  /** `cols[1]?.toUpperCase() === 'F' || cols[1] === '여'`: the cell is used
      as it is, so " F" and "여자" give 'M'. */
  function LegacyGenderOfCell(cell: string): (g: Roster.Gender)
    ensures g == Roster.F <==> cell in {"F", "f", "여"}
  {
    UpperIsF(cell);
    if UpperAscii(cell) == "F" || cell == "여" then Roster.F else Roster.M
  }

  /** One pasted line: name, gender, problem flag and group, in that order.
      The name and the group are copied verbatim ('' when the line has no
      such cell). */
  function ParseLegacyRow(row: string): (s: LegacyStudent)
    ensures var cols := Split(row, '\t');
      && s.name == cols[0]
      && (s.gender == Roster.F <==> Roster.Cell(cols, 1) in {"F", "f", "여"})
      && (s.isProblem <==> Roster.SameIgnoringCase(Roster.Cell(cols, 2), "true")
                           || Roster.Cell(cols, 2) == "1" || Roster.Cell(cols, 2) == "문제")
      && s.groupName == Roster.Cell(cols, 3)
      && s.id.None?
  {
    var cols := Split(row, '\t');
    LegacyStudent(None, Roster.Cell(cols, 0), LegacyGenderOfCell(Roster.Cell(cols, 1)),
                  Roster.FlagOfCell(Roster.Cell(cols, 2), "문제"), Roster.Cell(cols, 3))
  }

  /** `handlePaste`: one student per non-blank line, in line order; the
      result replaces the previous list. */
  function LegacyPasteTable(text: string): seq<LegacyStudent>
  {
    var rows := NonBlankLines(text);
    seq(|rows|, i requires 0 <= i < |rows| => ParseLegacyRow(rows[i]))
  }

  /** Pasting lines joined by newlines yields exactly one student per
      non-blank line, parsed from that line, in line order. */
  lemma {:induction false} LegacyPasteOneStudentPerLine(lines: seq<string>)
    requires |lines| >= 1
    requires forall k :: 0 <= k < |lines| ==> '\n' !in lines[k]
    ensures |LegacyPasteTable(Join(lines, '\n'))| == |KeptPositions(lines, NonBlank)|
    ensures forall i :: 0 <= i < |LegacyPasteTable(Join(lines, '\n'))| ==>
      LegacyPasteTable(Join(lines, '\n'))[i] == ParseLegacyRow(lines[KeptPositions(lines, NonBlank)[i]])
  {
    NonBlankLinesOfJoin(lines);
    FilterAt(lines, NonBlank);
  }

  /** The older and the newer parser read a gender cell the same way when
      the cell has no surrounding white space and is not 여자; they differ
      exactly there. */
  lemma GenderParsersAgree(cell: string)
    requires Trim(cell) == cell && cell != "여자"
    ensures LegacyGenderOfCell(cell) == Roster.GenderOfCell(cell)
  {
  }

  /** 여자 is read as 'M' by the older parser and as 'F' by the newer one. */
  lemma GenderParsersDifferOnYeoja()
    ensures LegacyGenderOfCell("여자") == Roster.M
    ensures Roster.GenderOfCell("여자") == Roster.F
  {
    TrimFixed("여자");
  }

  // ------------------------------------------------------------- row edits

  /** `addRow`: one empty row is appended after the existing rows. */
  function AddLegacyRow(students: seq<LegacyStudent>): (r: seq<LegacyStudent>)
    ensures |r| == |students| + 1 && r[..|students|] == students
    ensures r[|students|] == EmptyLegacyStudent()
  {
    students + [EmptyLegacyStudent()]
  }

  /** `removeRow(index)`: deletes exactly row `index` and keeps the others
      in order; an index outside the table changes nothing. */
  function RemoveLegacyRow(students: seq<LegacyStudent>, index: int): (r: seq<LegacyStudent>)
    ensures r == if 0 <= index < |students| then students[..index] + students[index + 1..] else students
  {
    RemoveAtIsDeletion(students, index);
    RemoveAt(students, index)
  }

  /** The names an edit of the older table can target. */
  datatype LegacyKey = IdField | NameField | GenderField | ProblemField | GroupField

  /** `{ ...student, [field]: value }` on a five-field row, with the value
      already of the field's kind. */
  datatype LegacyEdit =
    | SetId(id: Option<int>)
    | SetName(name: string)
    | SetGender(gender: Roster.Gender)
    | SetProblem(isProblem: bool)
    | SetGroup(groupName: string)

  function EditedKey(e: LegacyEdit): LegacyKey
  {
    match e
    case SetId(_) => IdField
    case SetName(_) => NameField
    case SetGender(_) => GenderField
    case SetProblem(_) => ProblemField
    case SetGroup(_) => GroupField
  }

  /** Whether the edited field of `s` holds the value the edit carries. */
  predicate Carries(s: LegacyStudent, e: LegacyEdit)
  {
    match e
    case SetId(v) => s.id == v
    case SetName(v) => s.name == v
    case SetGender(v) => s.gender == v
    case SetProblem(v) => s.isProblem == v
    case SetGroup(v) => s.groupName == v
  }

  /** Whether two rows agree on field `k`. */
  predicate SameField(s: LegacyStudent, t: LegacyStudent, k: LegacyKey)
  {
    match k
    case IdField => s.id == t.id
    case NameField => s.name == t.name
    case GenderField => s.gender == t.gender
    case ProblemField => s.isProblem == t.isProblem
    case GroupField => s.groupName == t.groupName
  }

  function ApplyEdit(s: LegacyStudent, e: LegacyEdit): LegacyStudent
  {
    match e
    case SetId(v) => s.(id := v)
    case SetName(v) => s.(name := v)
    case SetGender(v) => s.(gender := v)
    case SetProblem(v) => s.(isProblem := v)
    case SetGroup(v) => s.(groupName := v)
  }

  /** `updateStudent(index, field, value)`: row `index` takes the new value
      in the edited field, keeps every other field, and no other row
      changes. The table only ever passes the index of a displayed row. */
  function UpdateLegacyStudent(students: seq<LegacyStudent>, index: nat, e: LegacyEdit): (r: seq<LegacyStudent>)
    requires index < |students|
    ensures |r| == |students|
    ensures forall j :: 0 <= j < |r| && j != index ==> r[j] == students[j]
    ensures forall k :: k != EditedKey(e) ==> SameField(r[index], students[index], k)
    ensures Carries(r[index], e)
    ensures r[index] == ApplyEdit(students[index], e)
  {
    students[index := ApplyEdit(students[index], e)]
  }

  /** An edit writes the value it carries: the edited field reads back that
      value, so any two edited rows agree on it. */
  lemma EditWritesItsField(s: LegacyStudent, t: LegacyStudent, e: LegacyEdit)
    ensures Carries(ApplyEdit(s, e), e)
    ensures SameField(ApplyEdit(s, e), ApplyEdit(t, e), EditedKey(e))
    ensures forall k :: SameField(s, t, k) ==> SameField(ApplyEdit(s, e), ApplyEdit(t, e), k)
  {
  }

  // ------------------------------------------------------------------ save

  predicate HasLegacyName(s: LegacyStudent) { !Blank(s.name) }

  /** `handleSave`: only the rows with a non-blank name are sent, in table
      order; the save is refused when there is none. */
  function LegacySaveRequest(students: seq<LegacyStudent>): (r: Result<seq<LegacyStudent>, Roster.SaveError>)
    ensures r.Err? <==> forall i :: 0 <= i < |students| ==> !HasLegacyName(students[i])
    ensures r.Ok? ==> |r.value| == |KeptPositions(students, HasLegacyName)|
    ensures r.Ok? ==> forall i :: 0 <= i < |r.value| ==>
      r.value[i] == students[KeptPositions(students, HasLegacyName)[i]]
  {
    var named := Filter(students, HasLegacyName);
    FilterEmpty(students, HasLegacyName);
    FilterAt(students, HasLegacyName);
    if |named| == 0 then Err(Roster.NoNamedStudent) else Ok(named)
  }

  // ------------------------------------------------------------------ load

  /** A row as the server returns it for the older page. */
  datatype LegacyStoredRow = LegacyStoredRow(
    id: int,
    name: string,
    gender: Roster.Gender,
    isProblem: int,
    groupName: Option<string>)

  function FromLegacyStored(row: LegacyStoredRow): LegacyStudent
  {
    LegacyStudent(Some(row.id), row.name, row.gender, row.isProblem != 0,
                  if row.groupName.Some? then row.groupName.value else "")
  }

  /** `loadStudents`: the rows of a successful, non-empty response in server
      order; otherwise (an empty response, or a failed request, modelled as
      `None`) a single empty row. */
  function LegacyLoadStudents(response: Option<seq<LegacyStoredRow>>): (r: seq<LegacyStudent>)
    ensures |r| >= 1
    ensures response.Some? && |response.value| > 0 ==>
      |r| == |response.value| &&
      forall i :: 0 <= i < |r| ==>
        && r[i].id == Some(response.value[i].id)
        && r[i].name == response.value[i].name
        && r[i].gender == response.value[i].gender
        && (r[i].isProblem <==> response.value[i].isProblem != 0)
        && (response.value[i].groupName.None? ==> r[i].groupName == "")
        && (response.value[i].groupName.Some? ==> r[i].groupName == response.value[i].groupName.value)
    ensures response.None? || |response.value| == 0 ==> r == [EmptyLegacyStudent()]
  {
    if response.Some? && |response.value| > 0 then
      seq(|response.value|, i requires 0 <= i < |response.value| => FromLegacyStored(response.value[i]))
    else [EmptyLegacyStudent()]
  }
}
