/** Closing a round: order every student by rank, run the allocation pass, and write
    one allotment row per student granted a seat. */
module Closure {
  import opened Wrappers
  import opened Sorting
  import opened Records
  import opened Allocation
  import opened PassProperties

  /** Everything one round closure produces. `order` and `decisions` are the trace of
      the pass; `ledger` and `allotments` are what is written back. */
  datatype RoundResult = RoundResult(
    ledger: Ledger,
    order: seq<Student>,
    decisions: seq<Option<SeatPreference>>,
    allotments: seq<StudentAllotment>)

  /** Sorts all students by rank and runs the pass over them; the seat ledger comes back
      within capacity, and each row is an active allotment of the closed round naming one
      of that student's own preferences for the round. */
  function AllocateSeats(ledger: Ledger, table: seq<SeatPreference>, roundId: int, students: seq<Student>): (r: RoundResult)
    ensures SortedBy(r.order, Rank) && multiset(r.order) == multiset(students)
    ensures |r.decisions| == |r.order| == |students|
    ensures AllocateAll(ledger, RoundPrefs(table, roundId), r.order) == Pass(r.ledger, r.decisions)
    ensures r.allotments == Allotments(roundId, r.order, r.decisions)
    ensures r.ledger.Keys == ledger.Keys
    ensures forall m :: m in ledger ==>
      r.ledger[m].seatCount == ledger[m].seatCount && r.ledger[m].alloted >= ledger[m].alloted
    ensures WithinCapacity(ledger) ==> WithinCapacity(r.ledger)
    ensures |r.allotments| <= |students|
    ensures forall a :: a in r.allotments ==> a.status == Active && a.roundId == roundId && a.choice == None
    ensures forall a :: a in r.allotments ==>
      exists p :: p in table && p.id == a.prefId && p.studentId == a.studentId && p.roundId == roundId
    ensures DistinctBy(students, StudentId) ==>
      forall x, y :: 0 <= x < y < |r.allotments| ==> r.allotments[x].studentId != r.allotments[y].studentId
  {
    var order := SortBy(students, Rank);
    var pass := AllocateAll(ledger, RoundPrefs(table, roundId), order);
    var rows := Allotments(roundId, order, pass.decisions);
    assert |order| == |multiset(order)| == |students|;
    ClosureFacts(ledger, table, roundId, students);
    RoundResult(pass.ledger, order, pass.decisions, rows)
  }

  /** The facts about the pass and its rows that `AllocateSeats` promises. */
  lemma ClosureFacts(ledger: Ledger, table: seq<SeatPreference>, roundId: int, students: seq<Student>)
    ensures var pass := AllocateAll(ledger, RoundPrefs(table, roundId), SortBy(students, Rank));
      forall m :: m in ledger ==>
        pass.ledger[m].seatCount == ledger[m].seatCount && pass.ledger[m].alloted >= ledger[m].alloted
    ensures WithinCapacity(ledger) ==>
      WithinCapacity(AllocateAll(ledger, RoundPrefs(table, roundId), SortBy(students, Rank)).ledger)
    ensures var order := SortBy(students, Rank);
      var rows := Allotments(roundId, order, AllocateAll(ledger, RoundPrefs(table, roundId), order).decisions);
      forall a :: a in rows ==>
        exists p :: p in table && p.id == a.prefId && p.studentId == a.studentId && p.roundId == roundId
    ensures var order := SortBy(students, Rank);
      var rows := Allotments(roundId, order, AllocateAll(ledger, RoundPrefs(table, roundId), order).decisions);
      DistinctBy(students, StudentId) ==>
        forall x, y :: 0 <= x < y < |rows| ==> rows[x].studentId != rows[y].studentId
  {
    var order := SortBy(students, Rank);
    var pass := AllocateAll(ledger, RoundPrefs(table, roundId), order);
    var rows := Allotments(roundId, order, pass.decisions);
    PassConservesSeats(ledger, RoundPrefs(table, roundId), order);
    PassRespectsCapacity(ledger, RoundPrefs(table, roundId), order);
    RowsNameOwnPreferences(ledger, table, roundId, order, pass, rows);
    if DistinctBy(students, StudentId) {
      SortKeepsDistinct(students, Rank, StudentId);
      AllotmentsOnePerStudent(roundId, order, pass.decisions);
    }
  }

  /** Every row written by the closure names a preference from the table that belongs to
      the row's student and to the closed round. */
  lemma RowsNameOwnPreferences(
    ledger: Ledger, table: seq<SeatPreference>, roundId: int,
    order: seq<Student>, pass: Pass, rows: seq<StudentAllotment>)
    requires pass == AllocateAll(ledger, RoundPrefs(table, roundId), order)
    requires rows == Allotments(roundId, order, pass.decisions)
    ensures forall a :: a in rows ==>
      exists p :: p in table && p.id == a.prefId && p.studentId == a.studentId && p.roundId == roundId
  {
    forall a | a in rows
      ensures exists p :: p in table && p.id == a.prefId && p.studentId == a.studentId && p.roundId == roundId
    {
      var x :| 0 <= x < |rows| && rows[x] == a;
      RowComesFromDecision(roundId, order, pass.decisions, x);
      var i :| 0 <= i < |order| && RowRecords(rows[x], order[i], pass.decisions[i]);
      GrantIsOwnPreference(ledger, RoundPrefs(table, roundId), order, i);
      PrefsForSelects(table, order[i].id, roundId);
      var p := pass.decisions[i].value;
      assert p in table && p.id == a.prefId && p.studentId == a.studentId && p.roundId == roundId;
    }
  }
}
