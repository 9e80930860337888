/** The student roster of one class section, as edited on the students page
    (app/students/StudentsPageInner.tsx): the row record, reading and writing
    one field, the converters that turn a pasted spreadsheet cell into a field
    value, the row edits, the save filter, the guard in front of the
    redistribution request and the normalisation of rows loaded from the
    server. */
module Roster {
  import opened Util
  import opened Text

  datatype Gender = M | F

  /** One roster row. `None` stands for both `null` and a property that is
      absent from the object. */
  datatype Student = Student(
    id: Option<int>,
    name: string,
    gender: Gender,
    isProblem: bool,
    isSpecial: bool,
    groupName: string,
    rank: Option<int>,
    previousSection: Option<int>)

  /** `createEmptyStudent()`. */
  function EmptyStudent(): Student
  {
    Student(None, "", M, false, false, "", None, None)
  }

  /** `keyof Student`: the names a row edit or a field paste can target. */
  datatype Key = IdKey | NameKey | GenderKey | ProblemKey | SpecialKey | GroupKey | RankKey | PreviousSectionKey

  /** The value held by one field. */
  datatype Value = StrVal(s: string) | GenderVal(g: Gender) | BoolVal(b: bool) | NumVal(n: Option<int>)

  /** The kind of value each field holds. */
  predicate Fits(k: Key, v: Value)
  {
    match k
    case NameKey | GroupKey => v.StrVal?
    case GenderKey => v.GenderVal?
    case ProblemKey | SpecialKey => v.BoolVal?
    case IdKey | RankKey | PreviousSectionKey => v.NumVal?
  }

  /** `student[key]`. */
  function Get(s: Student, k: Key): (v: Value)
    ensures Fits(k, v)
  {
    match k
    case IdKey => NumVal(s.id)
    case NameKey => StrVal(s.name)
    case GenderKey => GenderVal(s.gender)
    case ProblemKey => BoolVal(s.isProblem)
    case SpecialKey => BoolVal(s.isSpecial)
    case GroupKey => StrVal(s.groupName)
    case RankKey => NumVal(s.rank)
    case PreviousSectionKey => NumVal(s.previousSection)
  }

  /** `{ ...student, [key]: value }`. */
  function Set(s: Student, k: Key, v: Value): Student
    requires Fits(k, v)
  {
    match k
    case IdKey => s.(id := v.n)
    case NameKey => s.(name := v.s)
    case GenderKey => s.(gender := v.g)
    case ProblemKey => s.(isProblem := v.b)
    case SpecialKey => s.(isSpecial := v.b)
    case GroupKey => s.(groupName := v.s)
    case RankKey => s.(rank := v.n)
    case PreviousSectionKey => s.(previousSection := v.n)
  }

  /** Two rows with the same value in every field are the same row. */
  lemma RowsAgreeOnEveryKey(s: Student, t: Student)
    requires forall k: Key :: Get(s, k) == Get(t, k)
    ensures s == t
  {
    assert Get(s, IdKey) == Get(t, IdKey) && Get(s, NameKey) == Get(t, NameKey);
    assert Get(s, GenderKey) == Get(t, GenderKey) && Get(s, ProblemKey) == Get(t, ProblemKey);
    assert Get(s, SpecialKey) == Get(t, SpecialKey) && Get(s, GroupKey) == Get(t, GroupKey);
    assert Get(s, RankKey) == Get(t, RankKey) && Get(s, PreviousSectionKey) == Get(t, PreviousSectionKey);
  }

  /** Writing a field: that field reads back the written value and every
      other field keeps its value. */
  lemma SetThenGet(s: Student, k: Key, v: Value)
    requires Fits(k, v)
    ensures Get(Set(s, k, v), k) == v
    ensures forall k' :: k' != k ==> Get(Set(s, k, v), k') == Get(s, k')
  {
  }

  // ------------------------------------------------------- cell converters

  /** The cell `k` of a split row; a missing cell (`cols[k]` is `undefined`)
      converts exactly like an empty one in every converter below. */
  function Cell(cols: seq<string>, k: nat): string
  {
    if k < |cols| then cols[k] else ""
  }

  /** Gender of a cell: 'F' for F, f, 여 or 여자 once trimmed; 'M' for
      everything else, including M/남/남자, an unknown word and "". */
  function GenderOfCell(cell: string): (g: Gender)
    ensures g == F <==> Trim(cell) in {"F", "f", "여", "여자"}
  {
    var t := Trim(cell);
    UpperIsF(t);
    if UpperAscii(t) == "F" || t == "여" || t == "여자" then F else M
  }

  /** Equal up to the case of ASCII letters, character by character. */
  predicate SameIgnoringCase(a: string, b: string)
  {
    |a| == |b| && forall i :: 0 <= i < |a| ==> LowerChar(a[i]) == LowerChar(b[i])
  }

  /** A true/false flag cell: `cell.toLowerCase() === 'true' || cell === '1'
      || cell === word`, where `word` is 문제 or 특수. */
  function FlagOfCell(cell: string, word: string): (b: bool)
    ensures b <==> SameIgnoringCase(cell, "true") || cell == "1" || cell == word
  {
    assert LowerAscii(cell) == "true" <==> SameIgnoringCase(cell, "true") by {
      if SameIgnoringCase(cell, "true") {
        assert forall i :: 0 <= i < 4 ==> LowerAscii(cell)[i] == "true"[i];
      }
    }
    LowerAscii(cell) == "true" || cell == "1" || cell == word
  }

  /** A rank cell: all non-digits are removed and the digits read as a
      decimal number; a cell without any ASCII digit gives `null`. */
  function RankOfCell(cell: string): (r: Option<int>)
    ensures r.None? <==> forall i :: 0 <= i < |cell| ==> !IsDigit(cell[i])
    ensures r.Some? ==> r.value >= 0 && r.value == DecimalValue(KeepDigits(cell))
  {
    var digits := KeepDigits(cell);
    if digits == [] then None else Some(DecimalValue(digits))
  }

  /** A number typed or pasted as digits comes back as that rank. */
  lemma RankOfPrintedNumber(n: nat)
    ensures RankOfCell(DecimalString(n)) == Some(n)
  {
    var d := DecimalString(n);
    FilterAll(d, IsDigit);
    DecimalRoundTrip(n);
  }

  /** The only group labels a row may carry besides "". */
  const ValidGroups: seq<string> :=
    ["그룹1", "그룹2", "그룹3", "그룹4", "그룹5", "그룹6", "그룹7", "그룹8", "그룹9", "그룹10"]

  const GroupPrefix: string := "그룹"

  /** A group cell, trimmed: a plain number n becomes 그룹n, anything else
      loses all its white space; the outcome is kept only if it is one of
      그룹1 … 그룹10, and is "" otherwise. */
  function GroupOfCell(cell: string): (g: string)
    ensures g == "" || g in ValidGroups
  {
    var t := Trim(cell);
    var normal := if t != "" && AllDigits(t) then GroupPrefix + t
                 else if t != "" then RemoveSpaces(t)
                 else t;
    if normal in ValidGroups then normal else ""
  }

  /** The spellings of 1 … 10 that a digit-only group cell must have. */
  const GroupNumerals: seq<string> := ["1", "2", "3", "4", "5", "6", "7", "8", "9", "10"]

  lemma ValidGroupsAreNumbered()
    ensures |ValidGroups| == |GroupNumerals| == 10
    ensures forall j :: 0 <= j < 10 ==> ValidGroups[j] == GroupPrefix + GroupNumerals[j]
  {
  }

  lemma PrefixCancels(p: string, a: string, b: string)
    requires p + a == p + b
    ensures a == b
  {
    assert a == (p + a)[|p|..];
    assert b == (p + b)[|p|..];
  }

  /** A cell holding only digits yields 그룹n exactly when its trimmed text
      is one of the numerals 1 … 10; so "01" or "11" give "". */
  lemma GroupOfDigitCell(cell: string)
    requires Trim(cell) != "" && AllDigits(Trim(cell))
    ensures GroupOfCell(cell) != "" <==> Trim(cell) in GroupNumerals
    ensures GroupOfCell(cell) != "" ==> GroupOfCell(cell) == GroupPrefix + Trim(cell)
  {
    var t := Trim(cell);
    ValidGroupsAreNumbered();
    if GroupOfCell(cell) != "" {
      var j :| 0 <= j < 10 && ValidGroups[j] == GroupPrefix + t;
      PrefixCancels(GroupPrefix, t, GroupNumerals[j]);
    }
    if t in GroupNumerals {
      var j :| 0 <= j < 10 && GroupNumerals[j] == t;
      assert ValidGroups[j] == GroupPrefix + t;
    }
  }

  /** Any other non-blank cell is matched with its white space removed. */
  lemma GroupOfWordCell(cell: string)
    requires Trim(cell) != "" && !AllDigits(Trim(cell))
    ensures GroupOfCell(cell) == (if RemoveSpaces(Trim(cell)) in ValidGroups then RemoveSpaces(Trim(cell)) else "")
  {
  }

  /** "01" is a digit cell but not one of the numerals, so it gives "". */
  lemma LeadingZeroGroupIsDropped()
    ensures GroupOfCell("01") == ""
  {
    TrimFixed("01");
    assert AllDigits("01");
    assert "01" !in GroupNumerals;
    GroupOfDigitCell("01");
  }

  // ------------------------------------------------------------- row edits

  /** `addRow`: one empty row is appended after the existing rows. */
  function AddRow(students: seq<Student>): (r: seq<Student>)
    ensures |r| == |students| + 1 && r[..|students|] == students
    ensures r[|students|] == EmptyStudent()
  {
    students + [EmptyStudent()]
  }

  /** `removeRow(index)`: deletes exactly row `index` and keeps the others in
      order; an index outside the table changes nothing. */
  function RemoveRow(students: seq<Student>, index: int): (r: seq<Student>)
    ensures r == if 0 <= index < |students| then students[..index] + students[index + 1..] else students
  {
    RemoveAtIsDeletion(students, index);
    RemoveAt(students, index)
  }

  /** `updateStudent(index, key, value)`: row `index` gets `value` in field
      `key`; every other field of that row and every other row is kept. The
      table only ever passes the index of a displayed row. */
  function UpdateStudent(students: seq<Student>, index: nat, k: Key, v: Value): (r: seq<Student>)
    requires index < |students| && Fits(k, v)
    ensures |r| == |students|
    ensures forall j :: 0 <= j < |r| && j != index ==> r[j] == students[j]
    ensures Get(r[index], k) == v
    ensures forall k' :: k' != k ==> Get(r[index], k') == Get(students[index], k')
  {
    SetThenGet(students[index], k, v);
    students[index := Set(students[index], k, v)]
  }

  /** The rank input's `onChange`: the typed text goes through the rank
      converter and the result is written to the row. */
  function TypeRank(students: seq<Student>, index: nat, text: string): (r: seq<Student>)
    requires index < |students|
    ensures |r| == |students|
    ensures forall j :: 0 <= j < |r| && j != index ==> r[j] == students[j]
    ensures r[index] == students[index].(rank := RankOfCell(text))
  {
    UpdateStudent(students, index, RankKey, NumVal(RankOfCell(text)))
  }

  // ------------------------------------------------------------------ save

  predicate HasName(s: Student) { !Blank(s.name) }

  datatype SaveError = NoNamedStudent

  /** `handleSave`: only the rows with a non-blank name are sent, in table
      order; the save is refused when there is none. */
  function SaveRequest(students: seq<Student>): (r: Result<seq<Student>, SaveError>)
    ensures r.Err? <==> forall i :: 0 <= i < |students| ==> !HasName(students[i])
    ensures r.Ok? ==> forall s :: s in r.value ==> s in students && HasName(s)
    ensures r.Ok? ==> forall i :: 0 <= i < |students| && HasName(students[i]) ==> students[i] in r.value
    ensures r.Ok? ==> |r.value| == |KeptPositions(students, HasName)|
    ensures r.Ok? ==> forall i :: 0 <= i < |r.value| ==> r.value[i] == students[KeptPositions(students, HasName)[i]]
  {
    var named := Filter(students, HasName);
    FilterEmpty(students, HasName);
    FilterAt(students, HasName);
    if |named| == 0 then Err(NoNamedStudent) else Ok(named)
  }

  // ------------------------------------------------------------ distribute

  datatype DistributeStep =
    | TooFewSections      // alert: at least 2 sections
    | LoginRequired       // no school id in local storage
    | Cancelled           // the confirm dialog was dismissed
    | Request(sectionCount: int)

  /** A JavaScript string that is truthy: present and non-empty. */
  predicate Truthy(o: Option<string>)
  {
    o.Some? && o.value != ""
  }

  /** The checks `handleDistribute` makes before it posts: a class id that is
      present and non-empty, a section count of at least 2, a stored school
      id, and the user's confirmation, in that order. */
  function DistributeDecision(classId: Option<string>, sectionCount: int, schoolId: Option<string>, confirmed: bool): (r: DistributeStep)
    ensures r == TooFewSections <==> !Truthy(classId) || sectionCount < 2
    ensures r == LoginRequired <==> Truthy(classId) && sectionCount >= 2 && !Truthy(schoolId)
    ensures r == Cancelled <==> Truthy(classId) && sectionCount >= 2 && Truthy(schoolId) && !confirmed
    ensures r == Request(sectionCount) <==> Truthy(classId) && sectionCount >= 2 && Truthy(schoolId) && confirmed
    ensures r.Request? ==> r.sectionCount == sectionCount
  {
    if !Truthy(classId) || sectionCount == 0 || sectionCount < 2 then TooFewSections
    else if !Truthy(schoolId) then LoginRequired
    else if !confirmed then Cancelled
    else Request(sectionCount)
  }

  // ------------------------------------------------------------------ load

  /** A row as the server returns it (SQLite integers for the flags, `null`
      for a missing group, rank or previous section). */
  datatype StoredRow = StoredRow(
    id: int,
    name: string,
    gender: Gender,
    isProblem: int,
    isSpecial: int,
    groupName: Option<string>,
    rank: Option<int>,
    previousSection: Option<int>)

  /** `x || null` on a nullable number: 0 and null both become null. */
  function NonZero(x: Option<int>): (r: Option<int>)
    ensures r.Some? <==> x.Some? && x.value != 0
    ensures r.Some? ==> r == x
  {
    if x.Some? && x.value != 0 then x else None
  }

  function FromStored(row: StoredRow): Student
  {
    Student(Some(row.id), row.name, row.gender, row.isProblem != 0, row.isSpecial != 0,
            if row.groupName.Some? then row.groupName.value else "",
            NonZero(row.rank), NonZero(row.previousSection))
  }

  /** `loadStudents`: the rows of a successful, non-empty response in
      server order, normalised; otherwise (an empty response, or a failed
      request, modelled as `None`) a single empty row. */
  function LoadStudents(response: Option<seq<StoredRow>>): (r: seq<Student>)
    ensures |r| >= 1
    ensures response.Some? && |response.value| > 0 ==>
      |r| == |response.value| &&
      forall i :: 0 <= i < |r| ==>
        && r[i].id == Some(response.value[i].id)
        && r[i].name == response.value[i].name
        && r[i].gender == response.value[i].gender
        && (r[i].isProblem <==> response.value[i].isProblem != 0)
        && (r[i].isSpecial <==> response.value[i].isSpecial != 0)
        && r[i].groupName == (if response.value[i].groupName.Some? then response.value[i].groupName.value else "")
        && r[i].rank == NonZero(response.value[i].rank)
        && r[i].previousSection == NonZero(response.value[i].previousSection)
    ensures response.None? || |response.value| == 0 ==> r == [EmptyStudent()]
  {
    if response.Some? && |response.value| > 0 then
      seq(|response.value|, i requires 0 <= i < |response.value| => FromStored(response.value[i]))
    else [EmptyStudent()]
  }
}
