/** The round controller and the student's follow-on choice, as transitions of the
    stored tables. */
module Rounds {
  import opened Wrappers
  import opened Records
  import opened Allocation
  import opened Closure

  /** An allocation round. Timestamps are opaque wall-clock values supplied by the caller. */
  datatype Round = Round(isActive: bool, startDate: int, endDate: Option<int>)

  /** The stored tables the round controller and the choice update read and write.
      An allotment's id is its 1-based position in `allotments`. */
  datatype Db = Db(
    rounds: map<int, Round>,
    students: seq<Student>,
    majors: Ledger,
    prefs: seq<SeatPreference>,
    allotments: seq<StudentAllotment>)

  datatype CloseOutcome = Closed | NotActiveOrMissing

  /** Ends a round: only an existing, active round is closed; it is marked inactive,
      stamped with `now`, and the seat allocation for it is run and written back. Any
      other request changes nothing. */
  function EndRound(db: Db, roundId: int, now: int): (r: (Db, CloseOutcome))
    ensures r.1 == Closed <==> roundId in db.rounds && db.rounds[roundId].isActive
    ensures r.1 == NotActiveOrMissing ==> r.0 == db
    ensures r.1 == Closed ==>
      && r.0.rounds.Keys == db.rounds.Keys
      && !r.0.rounds[roundId].isActive
      && r.0.rounds[roundId].startDate == db.rounds[roundId].startDate
      && r.0.rounds[roundId].endDate == Some(now)
      && forall id :: id in db.rounds && id != roundId ==> r.0.rounds[id] == db.rounds[id]
    ensures r.1 == Closed ==>
      r.0.students == db.students && r.0.prefs == db.prefs && r.0.majors.Keys == db.majors.Keys
    ensures r.1 == Closed ==>
      var result := AllocateSeats(db.majors, db.prefs, roundId, db.students);
      r.0.majors == result.ledger && r.0.allotments == db.allotments + result.allotments
    ensures r.1 == Closed ==>
      forall m :: m in db.majors ==> r.0.majors[m].seatCount == db.majors[m].seatCount
    ensures r.1 == Closed && WithinCapacity(db.majors) ==> WithinCapacity(r.0.majors)
    ensures r.1 == Closed ==>
      && |r.0.allotments| >= |db.allotments|
      && r.0.allotments[..|db.allotments|] == db.allotments
      && forall x :: |db.allotments| <= x < |r.0.allotments| ==>
        r.0.allotments[x].roundId == roundId && r.0.allotments[x].status == Active
  {
    if roundId in db.rounds && db.rounds[roundId].isActive then
      var closed := db.rounds[roundId].(isActive := false, endDate := Some(now));
      var result := AllocateSeats(db.majors, db.prefs, roundId, db.students);
      var allotments := db.allotments + result.allotments;
      AppendedRows(db.allotments, result.allotments, roundId);
      (db.(rounds := db.rounds[roundId := closed], majors := result.ledger, allotments := allotments), Closed)
    else
      (db, NotActiveOrMissing)
  }

  /** Appending a closure's rows keeps the earlier rows in place, and every appended row
      is an active allotment of the closed round. */
  lemma AppendedRows(before: seq<StudentAllotment>, rows: seq<StudentAllotment>, roundId: int)
    requires forall a :: a in rows ==> a.status == Active && a.roundId == roundId
    ensures (before + rows)[..|before|] == before
    ensures forall x :: |before| <= x < |before + rows| ==>
      (before + rows)[x].roundId == roundId && (before + rows)[x].status == Active
  {
    forall x | |before| <= x < |before + rows|
      ensures (before + rows)[x].roundId == roundId && (before + rows)[x].status == Active
    {
      assert (before + rows)[x] == rows[x - |before|];
    }
  }

  /** Closing is one-way: whatever the first request did, a second request to end the same
      round changes nothing, so, for requests handled one after the other, a round's
      allocation runs at most once. */
  lemma EndRoundOnce(db: Db, roundId: int, now: int, later: int)
    ensures var once := EndRound(db, roundId, now).0;
      EndRound(once, roundId, later) == (once, NotActiveOrMissing)
  {
  }

  /** The choices the student form offers. */
  predicate KnownChoice(choice: Option<string>)
  {
    choice == Some("accept") || choice == Some("freeze_and_upgrade")
    || choice == Some("reject_and_upgrade") || choice == Some("withdraw")
  }

  /** The choices under which the student keeps the seat for now. */
  predicate KeepsSeat(choice: Option<string>)
  {
    choice == Some("accept") || choice == Some("freeze_and_upgrade")
  }

  /** The choices under which the student goes on to the next round. */
  predicate Upgrades(choice: Option<string>)
  {
    choice == Some("freeze_and_upgrade") || choice == Some("reject_and_upgrade")
  }

  /** The status an allotment takes and whether its student goes on to the next round,
      for each recognised choice; an unrecognised choice has no effect on either. */
  function ChoiceEffect(choice: Option<string>): (r: Option<(Status, bool)>)
    ensures r.Some? <==> KnownChoice(choice)
    ensures r.Some? ==> r.value.0 == (if KeepsSeat(choice) then Active else Inactive)
    ensures r.Some? ==> r.value.1 == Upgrades(choice)
  {
    if choice == Some("accept") then Some((Active, false))
    else if choice == Some("freeze_and_upgrade") then Some((Active, true))
    else if choice == Some("reject_and_upgrade") then Some((Inactive, true))
    else if choice == Some("withdraw") then Some((Inactive, false))
    else None
  }

  datatype ChoiceError = AllotmentNotFound | StudentNotFound

  /** The position of the student with the given id, as a primary-key lookup. */
  function FindStudent(students: seq<Student>, id: int): (r: Option<nat>)
    ensures r.Some? ==> r.value < |students| && students[r.value].id == id
    ensures r.None? ==> forall k :: 0 <= k < |students| ==> students[k].id != id
    decreases |students|
  {
    if |students| == 0 then None
    else if students[|students| - 1].id == id then Some(|students| - 1)
    else FindStudent(students[..|students| - 1], id)
  }

  /** The student's follow-on decision on an allotment. */
  function UpdateChoice(db: Db, allotmentId: int, choice: Option<string>): (r: Result<Db, ChoiceError>)
    ensures r.Err? && r.error == AllotmentNotFound <==> !(1 <= allotmentId <= |db.allotments|)
    ensures r.Err? && r.error == StudentNotFound <==>
      1 <= allotmentId <= |db.allotments| && KnownChoice(choice)
      && forall k :: 0 <= k < |db.students| ==> db.students[k].id != db.allotments[allotmentId - 1].studentId
    ensures r.Ok? ==> |r.value.allotments| == |db.allotments|
    ensures r.Ok? ==>
      var before := db.allotments[allotmentId - 1];
      var after := r.value.allotments[allotmentId - 1];
      && after.choice == choice
      && after.studentId == before.studentId && after.prefId == before.prefId && after.roundId == before.roundId
      && after.status == (if !KnownChoice(choice) then before.status else if KeepsSeat(choice) then Active else Inactive)
      && forall x :: 0 <= x < |db.allotments| && x != allotmentId - 1 ==> r.value.allotments[x] == db.allotments[x]
    ensures r.Ok? ==> r.value.majors == db.majors && r.value.rounds == db.rounds && r.value.prefs == db.prefs
    ensures r.Ok? ==>
      && |r.value.students| == |db.students|
      && forall k :: 0 <= k < |db.students| ==>
        && r.value.students[k].id == db.students[k].id
        && r.value.students[k].rank == db.students[k].rank
        && (r.value.students[k].roundFurthering != db.students[k].roundFurthering ==>
              r.value.students[k].id == db.allotments[allotmentId - 1].studentId)
    ensures r.Ok? && KnownChoice(choice) ==>
      exists k :: 0 <= k < |r.value.students|
        && r.value.students[k].id == db.allotments[allotmentId - 1].studentId
        && r.value.students[k].roundFurthering == Upgrades(choice)
    ensures r.Ok? && !KnownChoice(choice) ==> r.value.students == db.students
  {
    if !(1 <= allotmentId <= |db.allotments|) then Err(AllotmentNotFound)
    else
      var x := allotmentId - 1;
      var allotment := db.allotments[x];
      match ChoiceEffect(choice)
      case None =>
        Ok(db.(allotments := db.allotments[x := allotment.(choice := choice)]))
      case Some((status, furthering)) =>
        match FindStudent(db.students, allotment.studentId)
        case None => Err(StudentNotFound)
        case Some(k) =>
          var student := db.students[k].(roundFurthering := furthering);
          Ok(db.(
            allotments := db.allotments[x := allotment.(status := status, choice := choice)],
            students := db.students[k := student]))
  }

  /** No duplicate-choice guard: once a choice is recorded, any later choice the student
      could have made in its place is accepted too, and it replaces the stored choice. */
  lemma ChoiceCanBeChanged(db: Db, allotmentId: int, first: Option<string>, second: Option<string>)
    requires UpdateChoice(db, allotmentId, first).Ok?
    requires UpdateChoice(db, allotmentId, second).Ok?
    ensures UpdateChoice(UpdateChoice(db, allotmentId, first).value, allotmentId, second).Ok?
    ensures UpdateChoice(UpdateChoice(db, allotmentId, first).value, allotmentId, second).value
      .allotments[allotmentId - 1].choice == second
  {
    var once := UpdateChoice(db, allotmentId, first).value;
    if KnownChoice(second) {
      var k :| 0 <= k < |db.students| && db.students[k].id == db.allotments[allotmentId - 1].studentId;
      assert once.students[k].id == once.allotments[allotmentId - 1].studentId;
    }
  }

  /** The last recognised choice decides: recording a known choice over any earlier one
      leaves the tables exactly as if only that choice had been made. */
  lemma LastChoiceWins(db: Db, allotmentId: int, first: Option<string>, second: Option<string>)
    requires UpdateChoice(db, allotmentId, first).Ok?
    requires KnownChoice(second)
    ensures UpdateChoice(UpdateChoice(db, allotmentId, first).value, allotmentId, second)
      == UpdateChoice(db, allotmentId, second)
  {
    var once := UpdateChoice(db, allotmentId, first).value;
    var x := allotmentId - 1;
    var a := db.allotments[x];
    assert once.allotments[x].studentId == a.studentId;
    FindStudentSameIds(db.students, once.students, a.studentId);
    var found := FindStudent(db.students, a.studentId);
    if found.Some? {
      var k := found.value;
      var effect := ChoiceEffect(second).value;
      var twice := UpdateChoice(once, allotmentId, second).value;
      assert twice.allotments == db.allotments[x := a.(status := effect.0, choice := second)];
      assert twice.students == db.students[k := db.students[k].(roundFurthering := effect.1)];
    }
  }

  /** Recording the same choice twice is the same as recording it once. */
  lemma ChoiceIdempotent(db: Db, allotmentId: int, choice: Option<string>)
    requires UpdateChoice(db, allotmentId, choice).Ok?
    ensures UpdateChoice(UpdateChoice(db, allotmentId, choice).value, allotmentId, choice)
      == UpdateChoice(db, allotmentId, choice)
  {
    if KnownChoice(choice) {
      LastChoiceWins(db, allotmentId, choice, choice);
    } else {
      var once := UpdateChoice(db, allotmentId, choice).value;
      assert once.allotments[allotmentId - 1 := once.allotments[allotmentId - 1].(choice := choice)] == once.allotments;
    }
  }

  /** The student lookup depends only on the ids, which a choice update never changes. */
  lemma {:induction false} FindStudentSameIds(a: seq<Student>, b: seq<Student>, id: int)
    requires |a| == |b|
    requires forall k :: 0 <= k < |a| ==> a[k].id == b[k].id
    ensures FindStudent(a, id) == FindStudent(b, id)
    decreases |a|
  {
    if |a| > 0 {
      var n := |a| - 1;
      FindStudentSameIds(a[..n], b[..n], id);
    }
  }
}
