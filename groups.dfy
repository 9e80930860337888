/** The separation-group editor (app/students/SeparationModal.tsx): students
    who must be kept in different sections are gathered in named groups. A
    group holds students by identity, which is modelled by their position in
    the roster the editor was opened with. */
module Separation {
  import opened Util
  import opened Text
  import opened Roster

  /** `group-${index}` for a group built from the roster, `group-${Date.now()}`
      for one created in the editor (the clock reading is a parameter). */
  datatype GroupId = Loaded(index: nat) | Created(stamp: int)

  datatype Group = Group(id: GroupId, name: string, members: seq<nat>)

  /** The editor's state: the groups, the selected roster positions in the
      order they were ticked (a JavaScript `Set` iterates in insertion
      order), and the group being renamed with the text typed so far. */
  datatype EditorState = EditorState(
    groups: seq<Group>,
    selected: seq<nat>,
    editingId: Option<GroupId>,
    editingName: string)

  predicate NoDuplicates<T(==)>(xs: seq<T>)
  {
    forall i, j :: 0 <= i < j < |xs| ==> xs[i] != xs[j]
  }

  predicate Increasing(xs: seq<nat>)
  {
    forall i, j :: 0 <= i < j < |xs| ==> xs[i] < xs[j]
  }

  // ------------------------------------------------------------------ load

  /** `student.group_name && student.group_name.trim()`. */
  predicate Grouped(s: Student) { !Blank(s.groupName) }

  /** The positions of the students whose group is `name`, in roster order. */
  function IndicesWith(students: seq<Student>, name: string): (r: seq<nat>)
    ensures Increasing(r)
    ensures forall k :: 0 <= k < |r| ==> r[k] < |students|
    ensures forall j :: 0 <= j < |students| ==> (j in r <==> students[j].groupName == name)
    decreases |students|
  {
    if students == [] then []
    else
      var n := |students| - 1;
      var init := IndicesWith(students[..n], name);
      if students[n].groupName == name then init + [n] else init
  }

  /** The distinct non-blank group names, in order of first appearance. */
  function FirstAppearances(students: seq<Student>): (r: seq<string>)
    ensures NoDuplicates(r)
    ensures forall k :: 0 <= k < |r| ==> !Blank(r[k])
    ensures forall x :: x in r <==> exists j :: 0 <= j < |students| && Grouped(students[j]) && students[j].groupName == x
    decreases |students|
  {
    if students == [] then []
    else
      var n := |students| - 1;
      var init := FirstAppearances(students[..n]);
      assert forall j :: 0 <= j < n ==> students[..n][j] == students[j];
      if Grouped(students[n]) && students[n].groupName !in init then init + [students[n].groupName] else init
  }

  /** The groups the editor opens with: one per distinct non-blank group
      name, in order of first appearance, holding every student with exactly
      that name, in roster order. */
  function LoadedGroups(students: seq<Student>): (g: seq<Group>)
    ensures |g| == |FirstAppearances(students)|
  {
    var names := FirstAppearances(students);
    seq(|names|, k requires 0 <= k < |names| => Group(Loaded(k), names[k], IndicesWith(students, names[k])))
  }

  /** The effect that builds the groups: the roster is walked once and each
      grouped student is pushed onto the list kept under its group name,
      which is created on first sight; the lists then become groups in the
      order their names were first seen. */
  method LoadGroups(students: seq<Student>) returns (groups: seq<Group>)
    ensures groups == LoadedGroups(students)
  {
    var names: seq<string> := [];
    var members: map<string, seq<nat>> := map[];
    var i := 0;
    while i < |students|
      invariant 0 <= i <= |students|
      invariant names == FirstAppearances(students[..i])
      invariant MembersAgree(members, students[..i])
    {
      var s := students[i];
      IndicesWithStep(students, i);
      if s.groupName != "" && !Blank(s.groupName) {
        AddMember(students, i, members);
        if s.groupName !in members {
          members := members[s.groupName := []];
          names := names + [s.groupName];
        }
        members := members[s.groupName := members[s.groupName] + [i]];
      } else {
        SkipMember(students, i, members);
      }
      i := i + 1;
    }
    assert students[..i] == students;
    groups := seq(|names|, k requires 0 <= k < |names| => Group(Loaded(k), names[k], members[names[k]]));
  }

  /** The lists kept while the roster is walked: one per name seen so far,
      holding the positions of the students with that name. */
  ghost predicate MembersAgree(members: map<string, seq<nat>>, students: seq<Student>)
  {
    && (forall x :: x in members <==> x in FirstAppearances(students))
    && (forall x :: x in members ==> members[x] == IndicesWith(students, x))
  }

  /** A grouped student is pushed onto the list of its name, which starts
      empty when the name is new. */
  lemma AddMember(students: seq<Student>, i: nat, members: map<string, seq<nat>>)
    requires i < |students| && Grouped(students[i])
    requires MembersAgree(members, students[..i])
    ensures var x := students[i].groupName;
      MembersAgree(members[x := (if x in members then members[x] else []) + [i]], students[..i + 1])
  {
    var x := students[i].groupName;
    var m := members[x := (if x in members then members[x] else []) + [i]];
    var seen := FirstAppearances(students[..i]);
    assert FirstAppearances(students[..i + 1]) == seen + (if x in seen then [] else [x]) by {
      IndicesWithStep(students, i);
    }
    forall y | y in m ensures m[y] == IndicesWith(students[..i + 1], y) {
      assert IndicesWith(students[..i + 1], y)
        == IndicesWith(students[..i], y) + (if x == y then [i] else []) by {
        IndicesWithStep(students, i);
      }
      if y == x && x !in members {
        NewNameHasNoMembers(students[..i], x);
      }
    }
  }

  /** A student without a group name changes no list. */
  lemma SkipMember(students: seq<Student>, i: nat, members: map<string, seq<nat>>)
    requires i < |students| && !Grouped(students[i])
    requires MembersAgree(members, students[..i])
    ensures MembersAgree(members, students[..i + 1])
  {
    IndicesWithStep(students, i);
    var x := students[i].groupName;
    assert x !in FirstAppearances(students[..i]);
  }

  /** One more student: its position joins the members of its own group
      name and of no other. */
  lemma IndicesWithStep(students: seq<Student>, i: nat)
    requires i < |students|
    ensures forall x :: (IndicesWith(students[..i + 1], x) ==
                         IndicesWith(students[..i], x) + (if students[i].groupName == x then [i] else []))
    ensures FirstAppearances(students[..i + 1])
      == FirstAppearances(students[..i])
         + (if Grouped(students[i]) && students[i].groupName !in FirstAppearances(students[..i]) then [students[i].groupName] else [])
  {
    assert students[..i + 1][..i] == students[..i];
  }

  /** A non-blank name not seen yet has no members so far. */
  lemma NewNameHasNoMembers(students: seq<Student>, x: string)
    requires !Blank(x) && x !in FirstAppearances(students)
    ensures IndicesWith(students, x) == []
  {
  }

  /** Every student with a non-blank group name is in exactly one loaded
      group, and no other student is in any. */
  lemma LoadedGroupsPartition(students: seq<Student>, j: nat)
    requires j < |students|
    ensures Grouped(students[j]) <==> exists k :: 0 <= k < |LoadedGroups(students)| && j in LoadedGroups(students)[k].members
    ensures forall k1, k2 :: (0 <= k1 < |LoadedGroups(students)| && 0 <= k2 < |LoadedGroups(students)|
      && j in LoadedGroups(students)[k1].members && j in LoadedGroups(students)[k2].members) ==> k1 == k2
  {
    var g := LoadedGroups(students);
    var names := FirstAppearances(students);
    if Grouped(students[j]) {
      var x := students[j].groupName;
      assert x in names;
      var k :| 0 <= k < |names| && names[k] == x;
      assert j in g[k].members;
    }
    forall k | 0 <= k < |g| && j in g[k].members ensures Grouped(students[j]) && names[k] == students[j].groupName {
      assert !Blank(names[k]);
    }
  }

  /** Names are listed in the order of their first carriers: the first
      student with an earlier name comes before the first student with a
      later one. */
  lemma {:induction false} FirstAppearanceOrder(students: seq<Student>, a: nat, b: nat)
    requires a < b < |FirstAppearances(students)|
    ensures IndicesWith(students, FirstAppearances(students)[a]) != []
    ensures IndicesWith(students, FirstAppearances(students)[b]) != []
    ensures IndicesWith(students, FirstAppearances(students)[a])[0] < IndicesWith(students, FirstAppearances(students)[b])[0]
    decreases |students|
  {
    var names := FirstAppearances(students);
    var n := |students| - 1;
    var init := students[..n];
    var prev := FirstAppearances(init);
    assert students[..n + 1] == students;
    IndicesWithStep(students, n);
    NonEmptyMembers(students, names[a]);
    NonEmptyMembers(students, names[b]);
    if b < |prev| {
      assert names[a] == prev[a] && names[b] == prev[b];
      FirstAppearanceOrder(init, a, b);
    } else {
      assert names[a] == prev[a] && names[b] == students[n].groupName && names[b] !in prev;
      NewNameHasNoMembers(init, names[b]);
      NonEmptyMembers(init, names[a]);
    }
  }

  /** Groups appear in order of first appearance: the first member of an
      earlier group comes before the first member of a later one. */
  lemma LoadedGroupsInFirstAppearanceOrder(students: seq<Student>, a: nat, b: nat)
    requires a < b < |LoadedGroups(students)|
    ensures LoadedGroups(students)[a].members != [] && LoadedGroups(students)[b].members != []
    ensures LoadedGroups(students)[a].members[0] < LoadedGroups(students)[b].members[0]
  {
    FirstAppearanceOrder(students, a, b);
  }

  /** A name that occurs is carried by at least one student. */
  lemma NonEmptyMembers(students: seq<Student>, x: string)
    requires x in FirstAppearances(students)
    ensures IndicesWith(students, x) != []
  {
    var j :| 0 <= j < |students| && Grouped(students[j]) && students[j].groupName == x;
    assert j in IndicesWith(students, x);
  }

  // -------------------------------------------------------------- selection

  /** `handleStudentToggle(index)`: a selected position is removed (the rest
      keep their order), an unselected one is added at the end. */
  function Toggle(selected: seq<nat>, index: nat): (r: seq<nat>)
    ensures NoDuplicates(selected) ==> NoDuplicates(r)
    ensures forall x :: x in r <==> (if x == index then index !in selected else x in selected)
  {
    if index in selected then
      var r := Filter(selected, (x: nat) => x != index);
      FilterAt(selected, (x: nat) => x != index);
      r
    else selected + [index]
  }

  /** Toggling the same position twice gives back the same set of selected
      positions, and the very same order when the position was unselected. */
  lemma ToggleTwice(selected: seq<nat>, index: nat)
    ensures forall x :: x in Toggle(Toggle(selected, index), index) <==> x in selected
    ensures index !in selected ==> Toggle(Toggle(selected, index), index) == selected
  {
    if index !in selected {
      var once := selected + [index];
      FilterAll(selected, (x: nat) => x != index);
      FilterAppend(selected, [index], (x: nat) => x != index);
      assert Filter([index], (x: nat) => x != index) == [];
    }
  }

  // --------------------------------------------------------------- numbers

  /** The run of ASCII digits at the start of `s`. */
  function LeadingDigits(s: string): (d: string)
    ensures AllDigits(d) && |d| <= |s| && d == s[..|d|]
    ensures |d| == |s| || !IsDigit(s[|d|])
    decreases |s|
  {
    if s != [] && IsDigit(s[0]) then [s[0]] + LeadingDigits(s[1..]) else []
  }

  lemma {:induction false} LeadingDigitsOfDigits(s: string)
    requires AllDigits(s)
    ensures LeadingDigits(s) == s
    decreases |s|
  {
    if s != [] {
      LeadingDigitsOfDigits(s[1..]);
    }
  }

  /** `name.match(/그룹(\d+)/)` read with `parseInt`, or 0 when there is no
      match: the leftmost 그룹 followed by a digit, and the whole run of
      digits after it. */
  function GroupNumber(name: string): nat
    decreases |name|
  {
    if |name| < 3 then 0
    else if name[..2] == GroupPrefix && IsDigit(name[2]) then DecimalValue(LeadingDigits(name[2..]))
    else GroupNumber(name[1..])
  }

  /** The number is read after the leftmost match of 그룹 and a digit: the
      value of the whole digit run there, and 0 when nothing matches. */
  lemma {:induction false} GroupNumberReadsLeftmostMatch(name: string)
    ensures (forall p :: !MatchesAt(name, p)) ==> GroupNumber(name) == 0
    ensures forall p :: LeftmostMatch(name, p) ==> GroupNumber(name) == DecimalValue(LeadingDigits(name[p + 2..]))
    decreases |name|
  {
    if |name| < 3 {
    } else if name[..2] == GroupPrefix && IsDigit(name[2]) {
      assert MatchesAt(name, 0);
    } else {
      var rest := name[1..];
      MatchesAfterFirst(name);
      GroupNumberReadsLeftmostMatch(rest);
      assert GroupNumber(name) == GroupNumber(rest);
      if forall p :: !MatchesAt(name, p) {
        forall p ensures !MatchesAt(rest, p) {
          assert !MatchesAt(name, p + 1);
        }
      }
      forall p | LeftmostMatch(name, p)
        ensures GroupNumber(name) == DecimalValue(LeadingDigits(name[p + 2..]))
      {
        assert LeftmostMatch(rest, p - 1) by {
          forall q | 0 <= q < p - 1 ensures !MatchesAt(rest, q) {
            assert !MatchesAt(name, q + 1);
          }
        }
        assert name[p + 2..] == rest[p + 1..];
      }
    }
  }

  /** Past a first position that does not match, the matches of `name` are
      those of its tail, shifted by one. */
  lemma MatchesAfterFirst(name: string)
    requires |name| >= 1 && !MatchesAt(name, 0)
    ensures forall p :: MatchesAt(name, p) <==> 1 <= p && MatchesAt(name[1..], p - 1)
  {
    var rest := name[1..];
    forall p ensures MatchesAt(name, p) <==> 1 <= p && MatchesAt(rest, p - 1) {
      if 1 <= p && p + 3 <= |name| {
        assert name[p..p + 2] == rest[p - 1..p + 1];
      }
    }
  }

  /** `p` is the first position where 그룹 and a digit start. */
  predicate LeftmostMatch(name: string, p: int)
  {
    MatchesAt(name, p) && forall q :: 0 <= q < p ==> !MatchesAt(name, q)
  }

  /** `그룹` followed by a digit starts at position `p` of `name`. */
  predicate MatchesAt(name: string, p: int)
  {
    0 <= p && p + 3 <= |name| && name[p..p + 2] == GroupPrefix && IsDigit(name[p + 2])
  }

  /** The label `그룹${n}` carries the number n. */
  lemma GroupNumberOfLabel(n: nat)
    ensures GroupNumber(GroupPrefix + DecimalString(n)) == n
  {
    var d := DecimalString(n);
    var name := GroupPrefix + d;
    assert name[..2] == GroupPrefix && name[2] == d[0] && name[2..] == d;
    LeadingDigitsOfDigits(d);
    DecimalRoundTrip(n);
  }

  /** The number of every group, in list order. */
  function GroupNumbers(groups: seq<Group>): (ns: seq<int>)
    ensures |ns| == |groups|
    ensures forall k :: 0 <= k < |groups| ==> ns[k] == GroupNumber(groups[k].name)
  {
    seq(|groups|, k requires 0 <= k < |groups| => GroupNumber(groups[k].name))
  }

  /** The number of the next group: one more than the largest positive
      number among the existing names, or 1 when there is none. */
  function NextGroupNumber(groups: seq<Group>): (r: nat)
    ensures r >= 1
    ensures forall g :: g in groups ==> GroupNumber(g.name) < r
    ensures r == 1 || exists g :: g in groups && GroupNumber(g.name) == r - 1
  {
    var numbers := GroupNumbers(groups);
    var positive := Filter(numbers, (n: int) => n > 0);
    if positive == [] then
      assert forall g :: g in groups ==> GroupNumber(g.name) == 0 by {
        forall g | g in groups ensures GroupNumber(g.name) == 0 {
          var k :| 0 <= k < |groups| && groups[k] == g;
          assert numbers[k] in numbers;
        }
      }
      1
    else
      var m := SeqMax(positive);
      assert forall g :: g in groups ==> GroupNumber(g.name) <= m by {
        forall g | g in groups ensures GroupNumber(g.name) <= m {
          var k :| 0 <= k < |groups| && groups[k] == g;
          assert numbers[k] in numbers;
        }
      }
      assert exists g :: g in groups && GroupNumber(g.name) == m by {
        assert m in numbers;
        var k :| 0 <= k < |numbers| && (numbers)[k] == m;
        assert groups[k] in groups;
      }
      m + 1
  }

  /** `그룹${nextGroupNumber}`. */
  function NewGroupName(groups: seq<Group>): string
  {
    GroupPrefix + DecimalString(NextGroupNumber(groups))
  }

  /** A new group's number is larger than every existing group's number, so
      its name is not the name of any existing group. */
  lemma NewGroupNameIsFresh(groups: seq<Group>)
    ensures GroupNumber(NewGroupName(groups)) == NextGroupNumber(groups)
    ensures forall g :: g in groups ==> GroupNumber(g.name) < GroupNumber(NewGroupName(groups))
    ensures forall g :: g in groups ==> g.name != NewGroupName(groups)
  {
    GroupNumberOfLabel(NextGroupNumber(groups));
  }

  // ---------------------------------------------------------------- create

  datatype CreateError = NothingSelected | OnlyOneSelected

  /** `handleCreateGroup`: refused with no or one selected student; otherwise
      one group named after the next number, holding the selected students
      in the order they were ticked (positions outside the roster are
      skipped), is appended and the selection is cleared. */
  function CreateGroup(state: EditorState, rosterSize: nat, stamp: int): (r: Result<EditorState, CreateError>)
    requires NoDuplicates(state.selected)
    ensures r == Err(NothingSelected) <==> |state.selected| == 0
    ensures r == Err(OnlyOneSelected) <==> |state.selected| == 1
    ensures r.Ok? ==> |state.selected| >= 2
    ensures r.Ok? ==> |r.value.groups| == |state.groups| + 1 && r.value.groups[..|state.groups|] == state.groups
    ensures r.Ok? ==> r.value.selected == []
    ensures r.Ok? ==> r.value.editingId == state.editingId && r.value.editingName == state.editingName
    ensures r.Ok? ==> var g := r.value.groups[|state.groups|];
      && g.id == Created(stamp)
      && g.name == NewGroupName(state.groups)
      && (forall i :: i in g.members <==> i in state.selected && i < rosterSize)
      && g.members == Filter(state.selected, (i: nat) => i < rosterSize)
  {
    if |state.selected| == 0 then Err(NothingSelected)
    else if |state.selected| == 1 then Err(OnlyOneSelected)
    else
      var members := Filter(state.selected, (i: nat) => i < rosterSize);
      var g := Group(Created(stamp), NewGroupName(state.groups), members);
      assert (state.groups + [g])[..|state.groups|] == state.groups;
      Ok(state.(groups := state.groups + [g], selected := []))
  }

  // ---------------------------------------------------------------- delete

  /** `handleDeleteGroup(id)`, with the answer to the confirm dialog as a
      parameter: when confirmed, every group with that id goes and the
      others stay in order. */
  function DeleteGroup(groups: seq<Group>, id: GroupId, confirmed: bool): (r: seq<Group>)
    ensures !confirmed ==> r == groups
    ensures confirmed ==> forall g :: g in r <==> g in groups && g.id != id
    ensures confirmed ==> |r| == |KeptPositions(groups, (g: Group) => g.id != id)|
    ensures confirmed ==> forall k :: 0 <= k < |r| ==> r[k] == groups[KeptPositions(groups, (g: Group) => g.id != id)[k]]
  {
    if confirmed then
      FilterAt(groups, (g: Group) => g.id != id);
      Filter(groups, (g: Group) => g.id != id)
    else groups
  }

  // ---------------------------------------------------------------- rename

  /** The first group with that id, if any (`groups.find`). */
  function FindGroup(groups: seq<Group>, id: GroupId): (r: Option<nat>)
    ensures r.Some? ==> r.value < |groups| && groups[r.value].id == id
    ensures r.Some? ==> forall k :: 0 <= k < r.value ==> groups[k].id != id
    ensures r.None? ==> forall k :: 0 <= k < |groups| ==> groups[k].id != id
    decreases |groups|
  {
    if groups == [] then None
    else if groups[0].id == id then Some(0)
    else
      var rest := FindGroup(groups[1..], id);
      if rest.Some? then Some(rest.value + 1) else None
  }

  /** `handleRenameGroup(id)`: the editor opens on the group's current
      name; an unknown id changes nothing. */
  function StartRename(state: EditorState, id: GroupId): (r: EditorState)
    ensures FindGroup(state.groups, id).None? ==> r == state
    ensures FindGroup(state.groups, id).Some? ==>
      r == state.(editingId := Some(id), editingName := state.groups[FindGroup(state.groups, id).value].name)
  {
    var found := FindGroup(state.groups, id);
    if found.None? then state
    else state.(editingId := Some(id), editingName := state.groups[found.value].name)
  }

  /** `handleSaveRename`: with nothing being edited or a blank name the
      editor just closes (the typed text is kept); otherwise every group
      with the edited id takes the trimmed name, the others keep theirs, and
      the editor closes and clears. */
  function SaveRename(state: EditorState): (r: EditorState)
    ensures r.editingId.None? && r.selected == state.selected
    ensures |r.groups| == |state.groups|
    ensures state.editingId.None? || Blank(state.editingName) ==> r.groups == state.groups && r.editingName == state.editingName
    ensures state.editingId.Some? && !Blank(state.editingName) ==>
      && r.editingName == ""
      && forall k :: 0 <= k < |r.groups| ==>
        && r.groups[k].id == state.groups[k].id
        && r.groups[k].members == state.groups[k].members
        && r.groups[k].name == (if state.groups[k].id == state.editingId.value then Trim(state.editingName) else state.groups[k].name)
  {
    if state.editingId.None? || Blank(state.editingName) then state.(editingId := None)
    else
      var id := state.editingId.value;
      var name := Trim(state.editingName);
      var groups := seq(|state.groups|, k requires 0 <= k < |state.groups| =>
        if state.groups[k].id == id then state.groups[k].(name := name) else state.groups[k]);
      state.(groups := groups, editingId := None, editingName := "")
  }

  /** A renamed group's name is never blank: the rename either keeps the
      old names or writes a non-blank trimmed text. */
  lemma RenameKeepsNamesNonBlank(state: EditorState)
    requires forall k :: 0 <= k < |state.groups| ==> !Blank(state.groups[k].name)
    ensures forall k :: 0 <= k < |SaveRename(state).groups| ==> !Blank(SaveRename(state).groups[k].name)
  {
    var r := SaveRename(state);
    if state.editingId.Some? && !Blank(state.editingName) {
      TrimIdempotent(state.editingName);
      forall k | 0 <= k < |r.groups| ensures !Blank(r.groups[k].name) {
        if state.groups[k].id == state.editingId.value {
          assert r.groups[k].name == Trim(state.editingName);
        }
      }
    }
  }

  // ---------------------------------------------------------------- remove

  /** The members left once `student` is taken out. */
  function WithoutMember(members: seq<nat>, student: nat): (r: seq<nat>)
    ensures forall i :: i in r <==> i in members && i != student
    ensures |r| <= |members|
    ensures |r| == |KeptPositions(members, (i: nat) => i != student)|
    ensures forall k :: 0 <= k < |r| ==> r[k] == members[KeptPositions(members, (i: nat) => i != student)[k]]
  {
    FilterAt(members, (i: nat) => i != student);
    Filter(members, (i: nat) => i != student)
  }

  /** What the `map` step makes of one group: the student taken out when the
      group has that id, the group itself otherwise. */
  function AfterRemoval(g: Group, id: GroupId, student: nat): Group
  {
    if g.id == id then g.(members := WithoutMember(g.members, student)) else g
  }

  /** The `filter` step keeps a group unless it is the edited one and fewer
      than two members are left in it. */
  predicate KeptAfterRemoval(g: Group, id: GroupId, student: nat)
  {
    g.id != id || |WithoutMember(g.members, student)| >= 2
  }

  /** `handleRemoveStudentFromGroup(id, student)`: in every group with that
      id the student is taken out, and such a group is dropped when fewer
      than two members remain; the other groups stay as they are, in
      order. */
  function RemoveFromGroup(groups: seq<Group>, id: GroupId, student: nat): (r: seq<Group>)
    ensures |r| <= |groups|
    ensures forall g :: g in groups && g.id != id ==> g in r
    ensures forall g :: g in r && g.id != id ==> g in groups
    ensures forall g :: g in r && g.id == id ==> |g.members| >= 2 && student !in g.members
    ensures forall g :: g in r && g.id == id ==>
      exists h :: h in groups && h.id == id && g == h.(members := WithoutMember(h.members, student))
    ensures forall h :: h in groups && h.id == id && |WithoutMember(h.members, student)| >= 2 ==>
      h.(members := WithoutMember(h.members, student)) in r
    decreases |groups|
  {
    if groups == [] then []
    else
      var n := |groups| - 1;
      var init := RemoveFromGroup(groups[..n], id, student);
      var last := groups[n];
      assert forall g :: g in groups <==> g in groups[..n] || g == last;
      if last.id != id then init + [last]
      else
        var left := WithoutMember(last.members, student);
        if |left| < 2 then init else init + [last.(members := left)]
  }

  /** One step of `RemoveFromGroup`: the last group is mapped and kept or
      dropped after the others. */
  lemma RemoveFromGroupSnoc(groups: seq<Group>, id: GroupId, student: nat)
    requires groups != []
    ensures var n := |groups| - 1;
      RemoveFromGroup(groups, id, student) == RemoveFromGroup(groups[..n], id, student)
        + (if KeptAfterRemoval(groups[n], id, student) then [AfterRemoval(groups[n], id, student)] else [])
  {
  }

  /** The groups that survive the removal come out in their original order:
      position k of the result is the k-th kept group, after the map step. */
  lemma {:induction false} RemoveFromGroupKeepsOrder(groups: seq<Group>, id: GroupId, student: nat)
    ensures var kept := KeptPositions(groups, (g: Group) => KeptAfterRemoval(g, id, student));
      && |RemoveFromGroup(groups, id, student)| == |kept|
      && forall k :: 0 <= k < |kept| ==>
           RemoveFromGroup(groups, id, student)[k] == AfterRemoval(groups[kept[k]], id, student)
    decreases |groups|
  {
    if groups != [] {
      var n := |groups| - 1;
      var init := groups[..n];
      var last := groups[n];
      var p := (g: Group) => KeptAfterRemoval(g, id, student);
      RemoveFromGroupKeepsOrder(init, id, student);
      var kept := KeptPositions(groups, p);
      var keptInit := KeptPositions(init, p);
      assert kept == keptInit + (if p(last) then [n] else []);
      var r := RemoveFromGroup(groups, id, student);
      var rInit := RemoveFromGroup(init, id, student);
      RemoveFromGroupSnoc(groups, id, student);
      forall k | 0 <= k < |kept|
        ensures r[k] == AfterRemoval(groups[kept[k]], id, student)
      {
        if k < |keptInit| {
          assert r[k] == rInit[k];
          assert groups[kept[k]] == init[keptInit[k]];
        }
      }
    }
  }

  // ------------------------------------------------------------------ save

  /** The first group holding roster position `i` (`groups.find`). */
  function FirstContaining(groups: seq<Group>, i: nat): (r: Option<nat>)
    ensures r.Some? ==> r.value < |groups| && i in groups[r.value].members
    ensures r.Some? ==> forall k :: 0 <= k < r.value ==> i !in groups[k].members
    ensures r.None? ==> forall k :: 0 <= k < |groups| ==> i !in groups[k].members
    decreases |groups|
  {
    if groups == [] then None
    else if i in groups[0].members then Some(0)
    else
      var rest := FirstContaining(groups[1..], i);
      if rest.Some? then Some(rest.value + 1) else None
  }

  function GroupNameOf(groups: seq<Group>, i: nat): string
  {
    var k := FirstContaining(groups, i);
    if k.Some? then groups[k.value].name else ""
  }

  /** `handleSave`: same students in the same order; each student's group
      becomes the name of the first group holding it, or '' when none does,
      and nothing else about the student changes. */
  function SaveGroups(students: seq<Student>, groups: seq<Group>): (r: seq<Student>)
    ensures |r| == |students|
    ensures forall i :: 0 <= i < |r| ==> r[i] == students[i].(groupName := GroupNameOf(groups, i))
  {
    seq(|students|, i requires 0 <= i < |students| => students[i].(groupName := GroupNameOf(groups, i)))
  }

  /** Saving the groups the editor opened with, untouched, gives every
      student with a non-blank group its own group name back, and clears a
      blank one to ''. */
  lemma SaveAfterLoad(students: seq<Student>)
    ensures forall i :: 0 <= i < |students| ==>
      SaveGroups(students, LoadedGroups(students))[i]
        == students[i].(groupName := if Grouped(students[i]) then students[i].groupName else "")
  {
    var g := LoadedGroups(students);
    forall i | 0 <= i < |students|
      ensures GroupNameOf(g, i) == if Grouped(students[i]) then students[i].groupName else ""
    {
      LoadedGroupsPartition(students, i);
      var k := FirstContaining(g, i);
      if k.Some? {
        assert i in IndicesWith(students, g[k.value].name);
      }
    }
  }
}
