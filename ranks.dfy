/** The rank board (app/students/RankModal.tsx): each gender has one slot per
    student of that gender, ranked 1 … n, and a pool of students without a
    rank; students are dragged between the pool and the slots, and saving
    writes each student's slot rank back to the roster. Students are
    identified by their position in the roster the board was opened with. */
module RankSlots {
  import opened Util
  import opened Roster

  /** A rank slot and the student placed in it, if any. */
  datatype Slot = Slot(rank: int, student: Option<nat>)

  /** Where the dragged card came from: the pool of unranked students or a
      slot (`from` is "unassigned" or "slot-M"/"slot-F"). */
  datatype Origin = FromPool | FromSlot

  /** A drop onto a slot: the dragged student, where it came from, and the
      rank and gender of the slot it was dropped on. */
  datatype DropEvent = DropEvent(student: nat, from: Origin, targetRank: int, targetGender: Gender)

  /** The slots and the pool of one gender. */
  datatype Side = Side(slots: seq<Slot>, pool: seq<nat>)

  /** Slot i carries rank i + 1. */
  predicate RankedSlots(slots: seq<Slot>)
  {
    forall i :: 0 <= i < |slots| ==> slots[i].rank == i + 1
  }

  // ------------------------------------------------------------------ init

  /** `students.filter(s => s.gender === g)`, as roster positions. */
  function OfGender(roster: seq<Student>, g: Gender): (ms: seq<nat>)
    ensures forall k :: 0 <= k < |ms| ==> ms[k] < |roster| && roster[ms[k]].gender == g
    ensures forall i :: 0 <= i < |roster| ==> (i in ms <==> roster[i].gender == g)
    ensures forall a, b :: 0 <= a < b < |ms| ==> ms[a] < ms[b]
  {
    KeptPositions(roster, (s: Student) => s.gender == g)
  }

  /** `members.find(s => s.rank === r)`, as a position in `members`. */
  function FirstRankedAt(roster: seq<Student>, members: seq<nat>, r: int): (k: Option<nat>)
    requires forall k :: 0 <= k < |members| ==> members[k] < |roster|
    ensures k.Some? ==> k.value < |members| && roster[members[k.value]].rank == Some(r)
    ensures k.Some? ==> forall k' :: 0 <= k' < k.value ==> roster[members[k']].rank != Some(r)
    ensures k.None? ==> forall k' :: 0 <= k' < |members| ==> roster[members[k']].rank != Some(r)
    decreases |members|
  {
    if members == [] then None
    else if roster[members[0]].rank == Some(r) then Some(0)
    else
      var rest := FirstRankedAt(roster, members[1..], r);
      if rest.Some? then Some(rest.value + 1) else None
  }

  /** `members.find(s => s.rank === r)`: the first member whose rank is r. */
  function FirstWithRank(roster: seq<Student>, members: seq<nat>, r: int): (m: Option<nat>)
    requires forall k :: 0 <= k < |members| ==> members[k] < |roster|
    ensures m.Some? ==> m.value < |roster| && roster[m.value].rank == Some(r)
    ensures m.Some? ==> exists k :: 0 <= k < |members| && members[k] == m.value &&
                                    forall k' :: 0 <= k' < k ==> roster[members[k']].rank != Some(r)
    ensures m.None? <==> forall k :: 0 <= k < |members| ==> roster[members[k]].rank != Some(r)
  {
    var k := FirstRankedAt(roster, members, r);
    if k.Some? then Some(members[k.value]) else None
  }

  /** The initial slots of gender g: ranks 1 … n for the n students of that
      gender, slot i holding the first of them whose rank is i + 1. */
  function InitialSlots(roster: seq<Student>, g: Gender): (slots: seq<Slot>)
    ensures |slots| == |OfGender(roster, g)|
    ensures RankedSlots(slots)
    ensures forall i :: 0 <= i < |slots| ==> slots[i].student == FirstWithRank(roster, OfGender(roster, g), i + 1)
  {
    var ms := OfGender(roster, g);
    seq(|ms|, i requires 0 <= i < |ms| => Slot(i + 1, FirstWithRank(roster, ms, i + 1)))
  }

  /** `!s.rank`: no rank, or rank 0. */
  predicate Unranked(s: Student) { s.rank.None? || s.rank == Some(0) }

  /** The initial pool of gender g: the students of that gender without a
      rank or with rank 0, in roster order. */
  function InitialPool(roster: seq<Student>, g: Gender): (pool: seq<nat>)
    ensures forall i :: 0 <= i < |roster| ==> (i in pool <==> roster[i].gender == g && Unranked(roster[i]))
    ensures forall x :: x in pool ==> x < |roster|
  {
    Filter(OfGender(roster, g), (m: nat) => m < |roster| && Unranked(roster[m]))
  }

  /** A student whose rank is a number other than 0 but not one of 1 … n
      (n the number of students of its gender), or whose rank an earlier
      student of the same gender already has, starts in no slot and not in
      the pool. */
  lemma UnplacedAtStart(roster: seq<Student>, i: nat)
    requires i < |roster| && roster[i].rank.Some? && roster[i].rank != Some(0)
    requires var r := roster[i].rank.value;
      !(1 <= r <= |OfGender(roster, roster[i].gender)|)
      || exists j :: 0 <= j < i && roster[j].gender == roster[i].gender && roster[j].rank == roster[i].rank
    ensures forall k :: 0 <= k < |InitialSlots(roster, roster[i].gender)| ==>
      InitialSlots(roster, roster[i].gender)[k].student != Some(i)
    ensures i !in InitialPool(roster, roster[i].gender)
  {
    var slots := InitialSlots(roster, roster[i].gender);
    forall k | 0 <= k < |slots| ensures slots[k].student != Some(i) {
      NotFirstWithRank(roster, i, k + 1);
    }
  }

  /** The slot of rank r does not start with student i when i's rank is not
      r, or r is its rank but an earlier student of its gender has it too. */
  lemma NotFirstWithRank(roster: seq<Student>, i: nat, r: int)
    requires i < |roster| && 1 <= r <= |OfGender(roster, roster[i].gender)|
    requires roster[i].rank == Some(r) ==>
      exists j :: 0 <= j < i && roster[j].gender == roster[i].gender && roster[j].rank == roster[i].rank
    ensures FirstWithRank(roster, OfGender(roster, roster[i].gender), r) != Some(i)
  {
    if roster[i].rank == Some(r) {
      var ms := OfGender(roster, roster[i].gender);
      var j :| 0 <= j < i && roster[j].gender == roster[i].gender && roster[j].rank == roster[i].rank;
      assert j in ms;
      var q :| 0 <= q < |ms| && ms[q] == j;
      var k := FirstRankedAt(roster, ms, r);
      assert k.value <= q;
      assert ms[k.value] <= j;
    }
  }

  // ------------------------------------------------------------------ drop

  /** `slots.find(slot => slot.rank === r)`. */
  function FindRank(slots: seq<Slot>, r: int): (t: Option<nat>)
    ensures t.Some? ==> t.value < |slots| && slots[t.value].rank == r
    ensures t.Some? ==> forall k :: 0 <= k < t.value ==> slots[k].rank != r
    ensures t.None? ==> forall k :: 0 <= k < |slots| ==> slots[k].rank != r
    decreases |slots|
  {
    if slots == [] then None
    else if slots[0].rank == r then Some(0)
    else
      var rest := FindRank(slots[1..], r);
      if rest.Some? then Some(rest.value + 1) else None
  }

  /** On ranked slots the slot of rank r is slot r - 1, if there is one. */
  lemma FindRankRanked(slots: seq<Slot>, r: int)
    requires RankedSlots(slots)
    ensures FindRank(slots, r) == if 1 <= r <= |slots| then Some(r - 1) else None
  {
    if 1 <= r <= |slots| {
      assert slots[r - 1].rank == r;
    }
  }

  /** `slots.find(slot => slot.student === s && slot.rank !== r)`. */
  function FindOther(slots: seq<Slot>, s: nat, r: int): (o: Option<nat>)
    ensures o.Some? ==> o.value < |slots| && slots[o.value].student == Some(s) && slots[o.value].rank != r
    ensures o.None? ==> forall k :: 0 <= k < |slots| ==> slots[k].student != Some(s) || slots[k].rank == r
    decreases |slots|
  {
    if slots == [] then None
    else if slots[0].student == Some(s) && slots[0].rank != r then Some(0)
    else
      var rest := FindOther(slots[1..], s, r);
      if rest.Some? then Some(rest.value + 1) else None
  }

  /** `pool.filter(x => x !== s)`. */
  function Without(pool: seq<nat>, s: nat): (r: seq<nat>)
    ensures forall x :: x in r <==> x in pool && x != s
  {
    Filter(pool, (x: nat) => x != s)
  }

  /** `handleDragEnd` on one gender's side, as written: the occupant of the
      target slot is appended to the pool, the dragged student takes the
      slot, and then either the pool is reset to the pool before the drop
      without the dragged student (the last of the two pool writes wins), or
      another slot holding the dragged student is emptied. A rank with no
      slot changes nothing. */
  function AsWrittenDrop(side: Side, s: nat, from: Origin, targetRank: int): (r: Side)
    ensures |r.slots| == |side.slots|
    ensures forall i :: 0 <= i < |r.slots| ==> r.slots[i].rank == side.slots[i].rank
    ensures FindRank(side.slots, targetRank).None? ==> r == side
  {
    var t := FindRank(side.slots, targetRank);
    if t.None? then side
    else
      var occupant := side.slots[t.value].student;
      var pool := if occupant.Some? then side.pool + [occupant.value] else side.pool;
      var slots := side.slots[t.value := side.slots[t.value].(student := Some(s))];
      if from == FromPool then Side(slots, Without(side.pool, s))
      else
        var o := FindOther(slots, s, targetRank);
        if o.Some? then Side(slots[o.value := slots[o.value].(student := None)], pool)
        else Side(slots, pool)
  }

  /** Moving a placed student to another slot: the target slot then holds
      it, its old slot is empty, the target's previous occupant (if any) is
      appended to the pool, and every other slot is unchanged. */
  lemma SlotMove(side: Side, s: nat, p: nat, targetRank: int)
    requires RankedSlots(side.slots)
    requires p < |side.slots| && side.slots[p].student == Some(s)
    requires forall k :: 0 <= k < |side.slots| && k != p ==> side.slots[k].student != Some(s)
    requires 1 <= targetRank <= |side.slots| && targetRank != p + 1
    ensures var r := AsWrittenDrop(side, s, FromSlot, targetRank);
      var t := targetRank - 1;
      && r.slots[t].student == Some(s)
      && r.slots[p].student == None
      && (forall k :: 0 <= k < |r.slots| && k != t && k != p ==> r.slots[k] == side.slots[k])
      && r.pool == side.pool + (if side.slots[t].student.Some? then [side.slots[t].student.value] else [])
  {
    FindRankRanked(side.slots, targetRank);
  }

  /** Dropping a pool student onto a slot: the slot then holds it, and the
      pool is the pool before the drop without that student; no other slot
      changes. */
  lemma PoolDrop(side: Side, s: nat, targetRank: int)
    requires RankedSlots(side.slots)
    requires 1 <= targetRank <= |side.slots|
    ensures var r := AsWrittenDrop(side, s, FromPool, targetRank);
      && r.slots == side.slots[targetRank - 1 := Slot(targetRank, Some(s))]
      && r.pool == Without(side.pool, s)
  {
    FindRankRanked(side.slots, targetRank);
  }

  /** As written, a pool student dropped onto an occupied slot pushes the
      occupant out of the slot without putting it into the pool: student 0
      is in neither afterwards. */
  lemma PoolDropLosesOccupant()
    ensures var r := AsWrittenDrop(Side([Slot(1, Some(0))], [1]), 1, FromPool, 1);
      && r == Side([Slot(1, Some(1))], [])
      && r.slots[0].student != Some(0) && 0 !in r.pool
  {
    assert Without([1], 1) == [] by {
      assert 1 !in Without([1], 1);
      assert forall x :: x !in Without([1], 1);
    }
  }

  /** As written, a placed student dropped back onto its own slot is also
      appended to the pool: student 0 is then both placed and unranked. */
  lemma SameSlotDropDuplicates()
    ensures var r := AsWrittenDrop(Side([Slot(1, Some(0))], []), 0, FromSlot, 1);
      && r == Side([Slot(1, Some(0))], [0])
  {
  }

  /** How many times each student is on the board of one side: once per
      slot holding it, once per pool entry. */
  function Occupants(slots: seq<Slot>): multiset<nat>
    decreases |slots|
  {
    if slots == [] then multiset{}
    else Occupants(slots[..|slots| - 1]) + Occupant(slots[|slots| - 1])
  }

  function Occupant(slot: Slot): multiset<nat>
  {
    if slot.student.Some? then multiset{slot.student.value} else multiset{}
  }

  function Board(side: Side): multiset<nat>
  {
    Occupants(side.slots) + multiset(side.pool)
  }

  /** Replacing one slot replaces its occupant on the board and nothing
      else. */
  lemma {:induction false} OccupantsUpdate(slots: seq<Slot>, i: nat, v: Slot)
    requires i < |slots|
    ensures Occupants(slots[i := v]) + Occupant(slots[i]) == Occupants(slots) + Occupant(v)
    decreases |slots|
  {
    var n := |slots| - 1;
    var u := slots[i := v];
    var b, c := Occupants(u[..n]), Occupants(slots[..n]);
    assert Occupants(slots) == c + Occupant(slots[n]) by {
      assert slots != [];
    }
    if i < n {
      assert b + Occupant(slots[i]) == c + Occupant(v) by {
        assert u[..n] == slots[..n][i := v];
        assert slots[..n][i] == slots[i];
        OccupantsUpdate(slots[..n], i, v);
      }
      assert Occupants(u) == b + Occupant(slots[n]) by {
        assert u[n] == slots[n];
      }
      Regroup(b, Occupant(slots[i]), Occupant(slots[n]), Occupant(v), c);
    } else {
      assert Occupants(u) == c + Occupant(v) by {
        assert u[..n] == slots[..n];
      }
      Swap(c, Occupant(v), Occupant(slots[n]));
    }
  }

  /** The order in which two occupants join a board does not matter. */
  lemma Swap(c: multiset<nat>, y: multiset<nat>, z: multiset<nat>)
    ensures (c + y) + z == (c + z) + y
  {
    calc {
      (c + y) + z;
      c + (y + z);
      c + (z + y);
    }
  }

  /** Adding the same last occupant to both sides of a balance keeps it. */
  lemma Regroup(b: multiset<nat>, x: multiset<nat>, z: multiset<nat>, y: multiset<nat>, c: multiset<nat>)
    requires b + x == c + y
    ensures (b + z) + x == (c + z) + y
  {
    calc {
      (b + z) + x;
      (b + x) + z;
      (c + y) + z;
    }
  }

  /** Dropping a student out of a pool where it occurs once takes exactly
      that one entry away. */
  lemma {:induction false} WithoutOnce(pool: seq<nat>, s: nat)
    ensures multiset(Without(pool, s)) == multiset(pool)[s := 0]
    decreases |pool|
  {
    if pool != [] {
      var n := |pool| - 1;
      WithoutOnce(pool[..n], s);
      assert pool == pool[..n] + [pool[n]];
      assert multiset(pool) == multiset(pool[..n]) + multiset{pool[n]};
    }
  }

  /** The drop as evidently intended: a displaced occupant always goes to
      the pool, and a student dropped on the slot it already holds changes
      nothing. */
  function Drop(side: Side, s: nat, from: Origin, targetRank: int): (r: Side)
    ensures |r.slots| == |side.slots|
    ensures forall i :: 0 <= i < |r.slots| ==> r.slots[i].rank == side.slots[i].rank
    ensures FindRank(side.slots, targetRank).None? ==> r == side
  {
    var t := FindRank(side.slots, targetRank);
    if t.None? then side
    else
      var occupant := side.slots[t.value].student;
      var displaced := if occupant.Some? then [occupant.value] else [];
      var slots := side.slots[t.value := side.slots[t.value].(student := Some(s))];
      if from == FromPool then Side(slots, Without(side.pool, s) + displaced)
      else if occupant == Some(s) then side
      else
        var o := FindOther(slots, s, targetRank);
        if o.Some? then Side(slots[o.value := slots[o.value].(student := None)], side.pool + displaced)
        else Side(slots, side.pool + displaced)
  }

  /** The corrected drop is the written one except in the two cases where
      the written one loses or duplicates a student. */
  lemma DropAgreesElsewhere(side: Side, s: nat, from: Origin, targetRank: int)
    requires var t := FindRank(side.slots, targetRank);
      t.Some? ==>
        if from == FromPool then side.slots[t.value].student.None?
        else side.slots[t.value].student != Some(s)
    ensures Drop(side, s, from, targetRank) == AsWrittenDrop(side, s, from, targetRank)
  {
    var t := FindRank(side.slots, targetRank);
    if t.Some? && from == FromPool {
      assert Without(side.pool, s) + [] == Without(side.pool, s);
    }
  }

  /** The corrected drop keeps every student on the board exactly as often
      as before, so a board where each student is placed or pooled at most
      once stays that way, provided the dragged student really is where the
      drop says it came from. */
  lemma DropConservesBoard(side: Side, s: nat, from: Origin, targetRank: int)
    requires RankedSlots(side.slots)
    requires forall x :: Board(side)[x] <= 1
    requires from == FromPool ==> s in side.pool
    requires from == FromSlot ==> exists k :: 0 <= k < |side.slots| && side.slots[k].student == Some(s)
    ensures Board(Drop(side, s, from, targetRank)) == Board(side)
    ensures RankedSlots(Drop(side, s, from, targetRank).slots)
  {
    if from == FromPool {
      DropFromPool(side, s, targetRank);
    } else {
      var p :| 0 <= p < |side.slots| && side.slots[p].student == Some(s);
      DropFromSlot(side, s, targetRank, p);
    }
    DropKeepsRanks(side, s, from, targetRank);
  }

  lemma DropKeepsRanks(side: Side, s: nat, from: Origin, targetRank: int)
    requires RankedSlots(side.slots)
    ensures RankedSlots(Drop(side, s, from, targetRank).slots)
  {
    var r := Drop(side, s, from, targetRank);
    forall i | 0 <= i < |r.slots| ensures r.slots[i].rank == i + 1 {
      assert r.slots[i].rank == side.slots[i].rank;
    }
  }

  lemma DropFromPool(side: Side, s: nat, targetRank: int)
    requires RankedSlots(side.slots)
    requires s in side.pool && Board(side)[s] <= 1
    ensures Board(Drop(side, s, FromPool, targetRank)) == Board(side)
  {
    FindRankRanked(side.slots, targetRank);
    if 1 <= targetRank <= |side.slots| {
      assert multiset(side.pool)[s] == 1;
      PoolDropConserves(side, s, targetRank - 1);
    }
  }

  lemma DropFromSlot(side: Side, s: nat, targetRank: int, p: nat)
    requires RankedSlots(side.slots)
    requires p < |side.slots| && side.slots[p].student == Some(s)
    ensures Board(Drop(side, s, FromSlot, targetRank)) == Board(side)
  {
    FindRankRanked(side.slots, targetRank);
    if 1 <= targetRank <= |side.slots| && side.slots[targetRank - 1].student != Some(s) {
      SlotDropConserves(side, s, targetRank - 1, p);
    }
  }

  /** A pool student dropped on slot t: the slot's occupant goes back to the
      pool in its place. */
  lemma PoolDropConserves(side: Side, s: nat, t: nat)
    requires t < |side.slots| && multiset(side.pool)[s] == 1
    ensures var occupant := side.slots[t].student;
      var displaced := if occupant.Some? then [occupant.value] else [];
      Board(Side(side.slots[t := side.slots[t].(student := Some(s))], Without(side.pool, s) + displaced))
        == Board(side)
  {
    var occupant := side.slots[t].student;
    var displaced := if occupant.Some? then [occupant.value] else [];
    var v := side.slots[t].(student := Some(s));
    var a, x, w, p := Occupants(side.slots[t := v]), multiset(displaced), multiset(Without(side.pool, s)), multiset(side.pool);
    assert a + x == Occupants(side.slots) + multiset{s} by {
      OccupantsUpdate(side.slots, t, v);
      assert Occupant(side.slots[t]) == x;
    }
    assert w + multiset{s} == p by {
      WithoutOnce(side.pool, s);
    }
    assert multiset(Without(side.pool, s) + displaced) == w + x;
    Rebalance(Occupants(side.slots), a, x, w, p, s);
  }

  /** Taking s out of the pool and x out of the slots, then putting s into
      the slots and x into the pool, leaves the total as it was. */
  lemma Rebalance(o: multiset<nat>, a: multiset<nat>, x: multiset<nat>, w: multiset<nat>, p: multiset<nat>, s: nat)
    requires a + x == o + multiset{s} && w + multiset{s} == p
    ensures a + (w + x) == o + p
  {
    calc {
      a + (w + x);
      (a + x) + w;
      (o + multiset{s}) + w;
      o + (w + multiset{s});
    }
  }

  /** A student placed in slot p dropped on another slot t: it leaves p,
      takes t, and t's occupant goes to the pool. */
  lemma SlotDropConserves(side: Side, s: nat, t: nat, p: nat)
    requires RankedSlots(side.slots)
    requires t < |side.slots| && p < |side.slots| && side.slots[p].student == Some(s)
    requires side.slots[t].student != Some(s)
    ensures var occupant := side.slots[t].student;
      var displaced := if occupant.Some? then [occupant.value] else [];
      var slots := side.slots[t := side.slots[t].(student := Some(s))];
      var o := FindOther(slots, s, t + 1);
      && o.Some?
      && Board(Side(slots[o.value := slots[o.value].(student := None)], side.pool + displaced)) == Board(side)
  {
    var occupant := side.slots[t].student;
    var displaced := if occupant.Some? then [occupant.value] else [];
    var v := side.slots[t].(student := Some(s));
    var slots := side.slots[t := v];
    assert slots[p].student == Some(s) && slots[p].rank != t + 1;
    var o := FindOther(slots, s, t + 1);
    var w := slots[o.value].(student := None);
    OccupantsUpdate(side.slots, t, v);
    OccupantsUpdate(slots, o.value, w);
    var a, b, x := Occupants(slots), Occupants(slots[o.value := w]), multiset(displaced);
    assert Occupant(side.slots[t]) == x;
    assert Occupant(slots[o.value]) == multiset{s};
    assert multiset(side.pool + displaced) == multiset(side.pool) + x;
    Shift(Occupants(side.slots), a, b, x, multiset(side.pool), s);
  }

  /** Replacing x by s in one slot and s by nothing in another, then putting
      x into the pool, leaves the total as it was. */
  lemma Shift(o: multiset<nat>, a: multiset<nat>, b: multiset<nat>, x: multiset<nat>, p: multiset<nat>, s: nat)
    requires a + x == o + multiset{s} && b + multiset{s} == a
    ensures b + (p + x) == o + p
  {
    forall y ensures (b + x)[y] == o[y] {
      assert (b + x + multiset{s})[y] == (o + multiset{s})[y];
    }
    assert b + x == o;
  }

  // ------------------------------------------------------------------ board

  /** The board as the modal holds it: the roster it was opened with, both
      genders' slots, and both pools. */
  class RankBoard {
    const roster: seq<Student>
    var maleSlots: seq<Slot>
    var femaleSlots: seq<Slot>
    var unassignedMales: seq<nat>
    var unassignedFemales: seq<nat>

    predicate Valid()
      reads this
    {
      RankedSlots(maleSlots) && RankedSlots(femaleSlots)
    }

    /** The board for a roster: slots ranked 1 … n per gender, each holding
      the first student of that gender with that rank, and the unranked
      students in the pools. */
    constructor (students: seq<Student>)
      ensures roster == students
      ensures maleSlots == InitialSlots(students, M) && femaleSlots == InitialSlots(students, F)
      ensures unassignedMales == InitialPool(students, M) && unassignedFemales == InitialPool(students, F)
      ensures Valid()
    {
      roster := students;
      maleSlots := InitialSlots(students, M);
      femaleSlots := InitialSlots(students, F);
      unassignedMales := InitialPool(students, M);
      unassignedFemales := InitialPool(students, F);
    }

    /** One side's part of `handleDragEnd`: the slot list is copied, the
      occupant of the target slot is queued for the pool, the target slot
      object is given the dragged student, and then the pool write from the
      pool before the drop replaces the queued one, or the dragged student's
      other slot is emptied. */
    static method DropOnSide(slots: seq<Slot>, pool: seq<nat>, s: nat, from: Origin, targetRank: int)
      returns (newSlots: seq<Slot>, newPool: seq<nat>)
      ensures Side(newSlots, newPool) == AsWrittenDrop(Side(slots, pool), s, from, targetRank)
    {
      newSlots := slots;
      newPool := pool;
      var t := FindRank(newSlots, targetRank);
      if t.Some? {
        var occupant := newSlots[t.value].student;
        if occupant.Some? {
          newPool := pool + [occupant.value];
        }
        newSlots := newSlots[t.value := newSlots[t.value].(student := Some(s))];
        if from == FromPool {
          newPool := Without(pool, s);
        } else {
          var o := FindOther(newSlots, s, targetRank);
          if o.Some? {
            newSlots := newSlots[o.value := newSlots[o.value].(student := None)];
          }
        }
      }
    }

    /** `handleDragEnd`: a drop without a target or data, or onto a slot of
      the other gender, changes nothing; otherwise the dragged student's
      gender side is updated as `AsWrittenDrop` says and the other side is
      left alone. */
    method DragEnd(ev: Option<DropEvent>)
      requires Valid()
      requires ev.Some? ==> ev.value.student < |roster|
      modifies this
      ensures Valid()
      ensures ev.None? || roster[ev.value.student].gender != ev.value.targetGender ==>
        && maleSlots == old(maleSlots) && femaleSlots == old(femaleSlots)
        && unassignedMales == old(unassignedMales) && unassignedFemales == old(unassignedFemales)
      ensures ev.Some? && roster[ev.value.student].gender == ev.value.targetGender == M ==>
        && Side(maleSlots, unassignedMales)
           == AsWrittenDrop(Side(old(maleSlots), old(unassignedMales)), ev.value.student, ev.value.from, ev.value.targetRank)
        && femaleSlots == old(femaleSlots) && unassignedFemales == old(unassignedFemales)
      ensures ev.Some? && roster[ev.value.student].gender == ev.value.targetGender == F ==>
        && Side(femaleSlots, unassignedFemales)
           == AsWrittenDrop(Side(old(femaleSlots), old(unassignedFemales)), ev.value.student, ev.value.from, ev.value.targetRank)
        && maleSlots == old(maleSlots) && unassignedMales == old(unassignedMales)
    {
      if ev.None? {
        return;
      }
      var d := ev.value;
      var g := roster[d.student].gender;
      if g != d.targetGender {
        return;
      }
      if g == M {
        maleSlots, unassignedMales := DropOnSide(maleSlots, unassignedMales, d.student, d.from, d.targetRank);
      } else {
        femaleSlots, unassignedFemales := DropOnSide(femaleSlots, unassignedFemales, d.student, d.from, d.targetRank);
      }
    }
  }

  // ------------------------------------------------------------------ save

  /** `slots.find(s => s.student === student)`, as the rank it carries. */
  function SlotRank(slots: seq<Slot>, i: nat): (r: Option<int>)
    ensures r.Some? ==> exists k :: 0 <= k < |slots| && slots[k].student == Some(i) && slots[k].rank == r.value
    ensures r.None? <==> forall k :: 0 <= k < |slots| ==> slots[k].student != Some(i)
    decreases |slots|
  {
    if slots == [] then None
    else if slots[0].student == Some(i) then Some(slots[0].rank)
    else
      var rest := SlotRank(slots[1..], i);
      assert forall k :: 0 <= k < |slots| - 1 ==> slots[1..][k] == slots[k + 1];
      rest
  }

  /** `handleSave`: same students in the same order; each student's rank
      becomes the rank of the slot of its gender that holds it, or none, and
      nothing else about it changes. */
  function SaveRanks(roster: seq<Student>, maleSlots: seq<Slot>, femaleSlots: seq<Slot>): (r: seq<Student>)
    ensures |r| == |roster|
    ensures forall i :: 0 <= i < |r| ==>
      r[i] == roster[i].(rank := SlotRank(if roster[i].gender == M then maleSlots else femaleSlots, i))
  {
    seq(|roster|, i requires 0 <= i < |roster| =>
      roster[i].(rank := SlotRank(if roster[i].gender == M then maleSlots else femaleSlots, i)))
  }

  /** On ranked slots every saved rank is one of 1 … the number of slots of
      the student's gender. */
  lemma SavedRanksInRange(roster: seq<Student>, maleSlots: seq<Slot>, femaleSlots: seq<Slot>, i: nat)
    requires RankedSlots(maleSlots) && RankedSlots(femaleSlots) && i < |roster|
    ensures var r := SaveRanks(roster, maleSlots, femaleSlots)[i].rank;
      r.Some? ==> 1 <= r.value <= |if roster[i].gender == M then maleSlots else femaleSlots|
  {
  }

  /** Saving the board as it opened keeps the rank of a student that is the
      first of its gender with a rank in 1 … n, and clears every other
      student's rank. */
  lemma SaveAfterOpen(roster: seq<Student>, i: nat)
    requires i < |roster|
    ensures var g := roster[i].gender;
      var n := |OfGender(roster, g)|;
      var saved := SaveRanks(roster, InitialSlots(roster, M), InitialSlots(roster, F))[i].rank;
      saved == if roster[i].rank.Some? && 1 <= roster[i].rank.value <= n
                  && FirstWithRank(roster, OfGender(roster, g), roster[i].rank.value) == Some(i)
               then roster[i].rank else None
  {
    OpenedSlotRank(roster, i);
  }

  /** The rank of the opened slot holding student i, if any. */
  lemma OpenedSlotRank(roster: seq<Student>, i: nat)
    requires i < |roster|
    ensures var g := roster[i].gender;
      var ms := OfGender(roster, g);
      SlotRank(InitialSlots(roster, g), i)
        == if roster[i].rank.Some? && 1 <= roster[i].rank.value <= |ms|
              && FirstWithRank(roster, ms, roster[i].rank.value) == Some(i)
           then roster[i].rank else None
  {
    var g := roster[i].gender;
    var slots := InitialSlots(roster, g);
    var ms := OfGender(roster, g);
    var r := SlotRank(slots, i);
    if r.Some? {
      var k :| 0 <= k < |slots| && slots[k].student == Some(i) && slots[k].rank == r.value;
      assert slots[k].student == FirstWithRank(roster, ms, k + 1);
    } else if roster[i].rank.Some? && 1 <= roster[i].rank.value <= |ms| {
      var k := roster[i].rank.value - 1;
      assert slots[k].student == FirstWithRank(roster, ms, k + 1);
    }
  }
}
