# Roster transformations of the class-assignment app

This project models, in Dafny, the client-side roster logic of a web app that
teachers use to prepare class rosters before students are distributed into
sections. Every piece works on a list of student records: name, gender,
problem-student and special-class flags, group label, rank, and previous
section.

- **Students page** (`app/students/StudentsPageInner.tsx`; modules `Text`,
  `Roster` and `Paste`):
  - the spreadsheet paste parser and its cell normalisers (gender, flags,
    rank digits, group labels 그룹1…그룹10);
  - the field-anchored grid paste. It is an imperative method with the
    source's loops: grow the table with `push`, then write cell by cell;
  - the row edits, the save filter, the distribution guard and the
    normalisation of loaded records.
- **Group editor** (`app/students/SeparationModal.tsx`; module `Separation`):
  - group loading, a loop filling a name-to-members map;
  - selection toggling;
  - group creation with the max+1 numbering rule;
  - delete, rename and member removal, which dissolves groups below two
    members;
  - writing group names back onto the roster.
- **Rank board** (`app/students/RankModal.tsx`; module `RankSlots`):
  - per-gender slots ranked 1…n and a pool of unranked students;
  - the class `RankBoard`, whose `DragEnd` method replays the handler's
    sequential state writes, so the last write wins;
  - writing slot ranks back onto the roster.
- **Older students page** (`app/students/page.tsx`; module `LegacyRoster`):
  its five-field paste parser, the row edits, the save filter and the
  empty-result fallback.

Some conventions hold throughout:
- A student in the modals is identified by its position in the roster the
  modal was opened with. This stands in for JavaScript object identity.
- A missing spreadsheet cell behaves like an empty one.
- Confirmation dialogs, server responses and `Date.now()` tokens are
  parameters.
- `Util` holds `Option`, `Result` and an order-preserving `Filter`, with
  lemmas about the positions it keeps.

## Model

| member | source | states |
|---|---|---|
| Text.Trim | app/students/StudentsPageInner.tsx:152 | `trim` leaves no JavaScript white space at either end, is empty exactly for blank text and never lengthens it |
| Text.TrimStartShape | app/students/StudentsPageInner.tsx:255 | dropping leading white space removes a blank prefix and keeps a suffix that is empty or starts with a non-space |
| Text.TrimEndShape | app/students/StudentsPageInner.tsx:255 | dropping trailing white space removes a blank suffix and keeps a prefix that is empty or ends with a non-space |
| Text.TrimIdempotent | app/students/StudentsPageInner.tsx:255 | trimming a trimmed cell changes nothing |
| Text.Split | app/students/StudentsPageInner.tsx:149 | `split('\t')` gives at least one piece and no piece contains the separator |
| Text.JoinSplit | app/students/StudentsPageInner.tsx:146 | joining the pieces of a split gives the text back |
| Text.SplitJoin | app/students/StudentsPageInner.tsx:146 | splitting joined separator-free lines gives the lines back |
| Text.RemoveSpaces | app/students/StudentsPageInner.tsx:168 | after `replace(/\s/g, '')` what is left is the subsequence of the cell's non-space characters, in their original order, each taken from its kept position |
| Text.KeepDigits | app/students/StudentsPageInner.tsx:161 | after `replace(/\D/g, '')` what is left is the subsequence of the cell's digits in their original order; it is all digits, and empty exactly when the cell has no digit |
| Text.DecimalRoundTrip | app/students/StudentsPageInner.tsx:162 | `parseInt` of the printed form of n is n |
| Text.UpperIsF | app/students/StudentsPageInner.tsx:152 | `toUpperCase() === 'F'` holds exactly for "F" and "f" |
| Roster.SetThenGet | app/students/StudentsPageInner.tsx:210-214 | writing field k makes k read back the value and leaves every other field unchanged |
| Roster.GenderOfCell | app/students/StudentsPageInner.tsx:152-158 | 'F' exactly when the trimmed cell is F, f, 여 or 여자; 'M' for everything else, a missing cell included |
| Roster.FlagOfCell | app/students/StudentsPageInner.tsx:177-178 | true exactly when the cell is "true" in any letter case, "1", or the flag word |
| Roster.RankOfCell | app/students/StudentsPageInner.tsx:161-162 | null exactly when the cell has no ASCII digit; otherwise the decimal value of its digits, never negative |
| Roster.RankOfPrintedNumber | app/students/StudentsPageInner.tsx:161-162 | a cell holding the printed number n parses back to rank n |
| Roster.GroupOfCell | app/students/StudentsPageInner.tsx:165-172 | the parsed group is '' or one of 그룹1…그룹10 |
| Roster.ValidGroupsAreNumbered | app/students/StudentsPageInner.tsx:171 | the valid labels are the prefix 그룹 followed by 1…10 |
| Roster.GroupOfDigitCell | app/students/StudentsPageInner.tsx:165-166 | an all-digit cell n gives 그룹n exactly when n is one of 1…10, and '' otherwise |
| Roster.GroupOfWordCell | app/students/StudentsPageInner.tsx:167-172 | any other cell has every white space removed and is kept only when the result is a valid label |
| Roster.LeadingZeroGroupIsDropped | app/students/StudentsPageInner.tsx:165-172 | the cell "01" gives '' |
| Roster.AddRow | app/students/StudentsPageInner.tsx:202-204 | one empty student is appended and the existing rows are kept |
| Roster.RemoveRow | app/students/StudentsPageInner.tsx:206-208 | exactly row i is deleted and the others keep their order; an index outside the table changes nothing |
| Roster.UpdateStudent | app/students/StudentsPageInner.tsx:210-214 | the edited field of the edited row reads back the new value, every other field of that row and every other row stay as they were |
| Roster.TypeRank | app/students/StudentsPageInner.tsx:663-667 | typing into the rank input sets that row's rank to the digits' value, or null, and changes nothing else |
| Roster.SaveRequest | app/students/StudentsPageInner.tsx:306-312 | the save sends exactly the rows with a non-blank name, in table order, and is refused when there is none |
| Roster.DistributeDecision | app/students/StudentsPageInner.tsx:349-363 | each outcome exactly characterised: refused for a missing class or fewer than 2 sections, otherwise a login is asked for when the school is unknown, otherwise it is cancelled when the user declines, and the request with that section count goes out exactly when all checks pass and the user confirmed |
| Roster.NonZero | app/students/StudentsPageInner.tsx:118-119 | `x \|\| null` keeps a value other than 0 and turns 0 and null into null |
| Roster.LoadStudents | app/students/StudentsPageInner.tsx:107-129 | a non-empty response is normalised row by row in server order: id, name and gender are copied, the 0/1 flags become booleans, a missing group becomes the empty name, and a rank or previous section of 0 becomes unset; an empty or failed one gives a single empty row |
| Paste.NonBlankLines | app/students/StudentsPageInner.tsx:146 | the kept lines contain no newline and are not blank |
| Paste.NonBlankLinesOfJoin | app/students/StudentsPageInner.tsx:146 | the lines kept from joined text are exactly its non-blank lines, in order |
| Paste.ParseRow | app/students/StudentsPageInner.tsx:148-182 | the line is split on tabs and each column goes to its field: the trimmed first cell is the name, the second gives F exactly for F/f/여/여자, the flags are true exactly for true (any case), 1 or 문제/특수, the group is that cell's converted group (empty or one of the valid names), the rank is that cell's converted rank (unset exactly when it has no digit); id and previous section are unset |
| Paste.PasteOneStudentPerLine | app/students/StudentsPageInner.tsx:146-184 | the paste produces exactly one student per non-blank line, in line order, and nothing else |
| Paste.FieldIndex | app/students/StudentsPageInner.tsx:232-233 | `indexOf` in the six-field order is -1 exactly for id and previous section, and otherwise the field's position |
| Paste.FieldIndexFindsColumn | app/students/StudentsPageInner.tsx:232-233 | a field has a position exactly when it is one of the six pasteable fields |
| Paste.PasteCell | app/students/StudentsPageInner.tsx:255-298 | a pasted cell writes its converted value into its field and leaves every other field unchanged |
| Paste.ApplyCellsFields | app/students/StudentsPageInner.tsx:250-298 | after a line is pasted into a row, each field holds its cell's converted value when the line reaches it, and its old value otherwise |
| Paste.ApplyCellsKeepsIdentity | app/students/StudentsPageInner.tsx:250-298 | a pasted line never changes the id or the previous section |
| Paste.WrittenRowCell | app/students/StudentsPageInner.tsx:240-298 | line r writes field j of row startIndex + r from its cell j - start when that cell exists; fields left of the anchor and past the line's end keep their value |
| Paste.FieldPasteRow | app/students/StudentsPageInner.tsx:240-257 | the row that receives line r holds that line written over the row it replaced |
| Paste.FieldPasteLength | app/students/StudentsPageInner.tsx:227-247 | a paste with no line or an unknown field keeps the length; otherwise the table becomes max(old length, startIndex + line count) long |
| Paste.FieldPasteOtherRows | app/students/StudentsPageInner.tsx:240-247 | a row no line lands on keeps its value, and rows added only to fill a gap are empty students |
| Paste.FieldPasteKeepsIdentity | app/students/StudentsPageInner.tsx:240-298 | the rows written keep their id and previous section |
| Paste.FieldPasteStep | app/students/StudentsPageInner.tsx:240-247 | growing the table of the first r lines up to row startIndex + r and writing line r there gives the table of the first r + 1 lines |
| Paste.PadRows | app/students/StudentsPageInner.tsx:245-247 | the `while`/`push` loop keeps every row and appends empty rows up to and including the target row |
| Paste.Padded | app/students/StudentsPageInner.tsx:245-247 | the grown table is just long enough to hold the target row, keeps every old row and holds empty students after them |
| Paste.PasteLine | app/students/StudentsPageInner.tsx:250-298 | the column loop replaces the target row by the line written over it and changes no other row |
| Paste.WriteRow | app/students/StudentsPageInner.tsx:240-298 | one line grows the table exactly to the larger of its length and the target row plus one |
| Paste.PasteRow | app/students/StudentsPageInner.tsx:240-298 | the callback for one line grows the table up to its target row, then writes the line's cells into that row |
| Paste.PasteStepsPlace | app/students/StudentsPageInner.tsx:240-299 | writing the first n lines one at a time, each into a table grown just enough, places the n written rows over the old table |
| Paste.PasteRows | app/students/StudentsPageInner.tsx:240-299 | the row loop leaves the table with every written row in place over the old table |
| Paste.FieldPaste | app/students/StudentsPageInner.tsx:217-304 | the whole handler leaves the table as the field-paste specification describes, unchanged when nothing or no known field was pasted |
| LegacyRoster.LegacyGenderOfCell | app/students/page.tsx:87 | 'F' exactly when the untrimmed cell is F, f or 여 |
| LegacyRoster.ParseLegacyRow | app/students/page.tsx:84-91 | name and group are copied verbatim ('' when missing), gender and the problem flag read as above, no id |
| LegacyRoster.LegacyPasteOneStudentPerLine | app/students/page.tsx:78-94 | the older paste produces exactly one student per non-blank line, in line order |
| LegacyRoster.GenderParsersAgree | app/students/page.tsx:87 | the older and newer gender parsers agree on every cell without surrounding white space except 여자 |
| LegacyRoster.GenderParsersDifferOnYeoja | app/students/page.tsx:87 | 여자 is 'M' for the older parser and 'F' for the newer one |
| LegacyRoster.AddLegacyRow | app/students/page.tsx:96-98 | one empty student is appended and the existing rows are kept |
| LegacyRoster.RemoveLegacyRow | app/students/page.tsx:100-102 | exactly row i is deleted and the others keep their order |
| LegacyRoster.UpdateLegacyStudent | app/students/page.tsx:104-108 | the edited field of the edited row reads back the new value, every other field of that row and every other row stay as they were |
| LegacyRoster.EditWritesItsField | app/students/page.tsx:104-108 | the edited field reads back the value the edit carries, so two edited rows agree on it, and agreement on every other field is preserved |
| LegacyRoster.LegacySaveRequest | app/students/page.tsx:110-116 | the save sends exactly the rows with a non-blank name, in order, and is refused when there is none |
| LegacyRoster.LegacyLoadStudents | app/students/page.tsx:50-69 | a non-empty response is copied row by row; an empty or failed one gives a single empty row |
| Separation.IndicesWith | app/students/SeparationModal.tsx:42-48 | the members gathered under a name are exactly the students with that exact group name, in roster order |
| Separation.FirstAppearances | app/students/SeparationModal.tsx:42-49 | the map's keys are exactly the non-blank group names present, each once |
| Separation.LoadGroups | app/students/SeparationModal.tsx:40-57 | the loop filling the map produces exactly the loaded groups |
| Separation.AddMember | app/students/SeparationModal.tsx:43-47 | pushing a grouped student onto its name's list, created empty on first sight, keeps every list equal to the positions carrying that name |
| Separation.SkipMember | app/students/SeparationModal.tsx:42-43 | a student without a group name leaves the map matching the longer roster prefix |
| Separation.LoadedGroupsPartition | app/students/SeparationModal.tsx:42-55 | a student is in some loaded group exactly when its group name is non-blank, and then in exactly one |
| Separation.FirstAppearanceOrder | app/students/SeparationModal.tsx:42-49 | the keys are ordered by the first student carrying each name |
| Separation.LoadedGroupsInFirstAppearanceOrder | app/students/SeparationModal.tsx:51-55 | loaded groups appear in order of their first member |
| Separation.Toggle | app/students/SeparationModal.tsx:60-68 | toggling flips the index's membership, leaves every other index unchanged and keeps the selection free of duplicates |
| Separation.ToggleTwice | app/students/SeparationModal.tsx:60-68 | toggling the same index twice restores the selection |
| Separation.GroupNumberOfLabel | app/students/SeparationModal.tsx:84-85 | the number read from 그룹n is n |
| Separation.GroupNumberReadsLeftmostMatch | app/students/SeparationModal.tsx:83-84 | a name with no 그룹 followed by a digit gives 0; otherwise the number is the decimal value of the whole digit run after the leftmost such 그룹 |
| Separation.NextGroupNumber | app/students/SeparationModal.tsx:82-91 | the next number is at least 1, above every existing number, and is 1 or the largest plus one |
| Separation.NewGroupNameIsFresh | app/students/SeparationModal.tsx:82-93 | the new name's number exceeds every existing group's number, so no group has that name |
| Separation.CreateGroup | app/students/SeparationModal.tsx:70-107 | refused with no or one selected student; otherwise exactly one group named 그룹(next) with the selected students is appended and the selection is cleared |
| Separation.DeleteGroup | app/students/SeparationModal.tsx:109-113 | with confirmation exactly the groups with that id are removed, the others kept in order; without it nothing changes |
| Separation.FindGroup | app/students/SeparationModal.tsx:116 | the first group with the id, or none |
| Separation.StartRename | app/students/SeparationModal.tsx:115-121 | for a known group the editor starts with its id and current name; otherwise nothing changes |
| Separation.SaveRename | app/students/SeparationModal.tsx:123-136 | a blank name or no edit changes no group; otherwise only the edited group's name changes, to the trimmed text, and the editor closes |
| Separation.RenameKeepsNamesNonBlank | app/students/SeparationModal.tsx:123-133 | renaming never introduces a blank group name |
| Separation.WithoutMember | app/students/SeparationModal.tsx:141 | the filter removes exactly that student and keeps every other member in its original order, position by position |
| Separation.RemoveFromGroup | app/students/SeparationModal.tsx:138-152 | the target group loses the student and is dropped when fewer than two members remain; every other group is untouched |
| Separation.RemoveFromGroupKeepsOrder | app/students/SeparationModal.tsx:138-152 | the result is the list of surviving groups in their original order: position k holds the k-th group that is kept, with the student taken out of it when it is the target |
| Separation.FirstContaining | app/students/SeparationModal.tsx:158 | the first group containing the student, or none |
| Separation.SaveGroups | app/students/SeparationModal.tsx:154-168 | same length and order; each student's group name becomes its first group's name or '', and nothing else changes |
| Separation.SaveAfterLoad | app/students/SeparationModal.tsx:154-163 | saving the groups as loaded gives every student back its group name when non-blank, and '' otherwise |
| RankSlots.OfGender | app/students/RankModal.tsx:60-61 | exactly the students of that gender, in roster order |
| RankSlots.FirstWithRank | app/students/RankModal.tsx:69 | the student found is a member of the list with rank r and no member before it has rank r; none is found exactly when no member has rank r |
| RankSlots.InitialSlots | app/students/RankModal.tsx:64-75 | one slot per student of the gender, ranked 1…n in order; slot i holds the first student ranked i + 1 |
| RankSlots.InitialPool | app/students/RankModal.tsx:81-82 | the pool holds exactly the students of that gender whose rank is null or 0 |
| RankSlots.UnplacedAtStart | app/students/RankModal.tsx:64-82 | a student whose rank is outside 1…n and not 0, or repeats an earlier student's rank, starts in no slot and not in the pool |
| RankSlots.FindRank | app/students/RankModal.tsx:114 | the first slot with the target rank, or none |
| RankSlots.FindRankRanked | app/students/RankModal.tsx:114 | on slots ranked 1…n, rank r is found at slot r - 1 exactly when 1 ≤ r ≤ n |
| RankSlots.FindOther | app/students/RankModal.tsx:131 | the first slot holding the student with another rank, or none |
| RankSlots.Without | app/students/RankModal.tsx:128 | the filter removes exactly that student from the pool |
| RankSlots.AsWrittenDrop | app/students/RankModal.tsx:112-136 | a drop keeps the number of slots and their ranks; a rank with no slot changes nothing |
| RankSlots.SlotMove | app/students/RankModal.tsx:113-135 | a slot-to-slot move fills the target, empties the old slot, appends the displaced occupant to the pool and leaves every other slot unchanged |
| RankSlots.PoolDrop | app/students/RankModal.tsx:117-129 | a pool drop places the student and sets the pool to the pool before the drop without it, because the later pool write wins |
| RankSlots.PoolDropLosesOccupant | app/students/RankModal.tsx:117-129 | as written, a pool drop onto an occupied slot leaves the occupant in neither a slot nor the pool |
| RankSlots.SameSlotDropDuplicates | app/students/RankModal.tsx:117-135 | as written, dropping a placed student onto its own slot also appends it to the pool |
| RankSlots.Drop | app/students/RankModal.tsx:112-136 | the corrected drop keeps the number of slots and their ranks |
| RankSlots.DropAgreesElsewhere | app/students/RankModal.tsx:112-136 | the corrected drop equals the written one except in the two faulty cases |
| RankSlots.DropConservesBoard | app/students/RankModal.tsx:112-136 | the corrected drop keeps every student on the board exactly as often as before, so nobody is lost or duplicated |
| RankSlots.RankBoard.constructor | app/students/RankModal.tsx:58-83 | the board opens with the initial slots and pools of both genders |
| RankSlots.RankBoard.DropOnSide | app/students/RankModal.tsx:112-136 | the sequential writes of one gender's branch produce the as-written drop |
| RankSlots.RankBoard.DragEnd | app/students/RankModal.tsx:91-159 | no target, no data or a gender mismatch changes nothing; otherwise only the dragged student's gender side changes, as written, and the slots stay ranked 1…n |
| RankSlots.SlotRank | app/students/RankModal.tsx:165 | the rank of the first slot holding the student, or null exactly when no slot holds it |
| RankSlots.SaveRanks | app/students/RankModal.tsx:161-175 | same length and order; each student's rank becomes that of the slot of its gender holding it, or null, and nothing else changes |
| RankSlots.SavedRanksInRange | app/students/RankModal.tsx:163-171 | every saved rank lies in 1…(number of slots of the student's gender) or is null |
| RankSlots.SaveAfterOpen | app/students/RankModal.tsx:161-171 | saving an untouched board keeps the rank of every student that is the first of its gender with a rank in 1…n, and clears every other rank |

## Left out

- The section-redistribution algorithm is not part of this model. The page only posts to `/api/classes/distribute` and displays the returned statistics.
- API routes and the database layer are not part of this model. `LoadStudents` and `LegacyLoadStudents` take the response, with a failed request written `None`. The save requests stop at the list that would be sent.
- Authentication, school registration, the dashboard and the parent/child class lookup in `loadClassData` are left out. They are forms, network calls and navigation.
- User-interface behaviour is left out: rendering, the dnd-kit sensors, `handleDragStart`'s floating card, the template download, timers, alerts and router pushes. A confirmation dialog is a boolean parameter.
- `Date.now()` group ids are an integer `stamp` parameter of `Separation.CreateGroup`. Loaded groups get `Loaded(index)`.
- Separation.GroupNumber: does not model the precision loss of `parseInt` on more than 15 digits, for the same reason as `RankOfCell`; a group name the page itself creates carries a short number.
- Roster.RankOfCell: does not model the precision loss of `parseInt` on more than 15 digits, because Dafny integers are unbounded and a rank typed by a teacher is short.
- Roster.UpdateStudent: `value: any` is restricted to a value of the edited field's kind. The row index must be a displayed row, as the table guarantees. The JavaScript would create a sparse array for any other index.
- Strings are sequences of Unicode scalar values. UTF-16 surrogate pairs are not modelled, and case folding is modelled for ASCII only. That is exact for the comparisons with "F" and "true".
- Aliasing is not modelled. The field paste and the rank board copy their arrays shallowly and assign fields of the shared row and slot objects, so the previous render's objects also change. Both are modelled on values. The model captures the new state, not the mutation of the old objects.
- Object identity in the modals is modelled by roster position. Two distinct student objects with equal fields are still told apart, as `===` does.
- The section number read from the address bar (`parseInt(searchParams.get('section'))`) is not modelled; it only selects which server request is made.
- The upper bound of 20 sections exists only as an attribute of the HTML input, so `Roster.DistributeDecision` does not check it.

## Findings

| source | as written | input that shows it | evidently intended | confidence | as-written member | corrected member |
|---|---|---|---|---|---|---|
| app/students/RankModal.tsx:117-129 | dropping a pool student onto an occupied slot first queues the occupant for the pool, then overwrites the pool with the pool before the drop minus the dragged student; the second write wins | slot 1 holds student 0, the pool is [1]; drag student 1 from the pool onto rank 1: slot 1 holds 1, the pool is [], student 0 is nowhere on the board | the occupant returns to the pool in place of the dragged student | not executed | RankSlots.PoolDropLosesOccupant | RankSlots.DropConservesBoard |
| app/students/RankModal.tsx:113-135 | dropping a placed student onto the slot it already holds appends it to the pool as a displaced occupant, while it stays in the slot | slot 1 holds student 0, the pool is []; drag student 0 from slot 1 onto rank 1: slot 1 still holds 0 and the pool is [0] | the drop changes nothing | not executed | RankSlots.SameSlotDropDuplicates | RankSlots.DropConservesBoard |

`RankSlots.RankBoard.DragEnd` models the handler as written. `RankSlots.Drop` is the corrected drop. `RankSlots.DropAgreesElsewhere` shows that it differs from the written one only in the two cases above. `RankSlots.DropConservesBoard` proves that it neither loses nor duplicates a student.
