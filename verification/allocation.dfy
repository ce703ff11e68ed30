/** The round-closing seat allocator: students in ascending rank, each taking the first
    preferred major (in ascending preference order) that still has a free seat. */
module Allocation {
  import opened Wrappers
  import opened Sorting
  import opened Records

  function Rank(s: Student): int { s.rank }

  function StudentId(s: Student): int { s.id }

  function Order(p: SeatPreference): int { p.preferenceOrder }

  function Max(a: int, b: int): int { if a < b then b else a }

  /** The major exists and has handed out fewer seats than it has. */
  predicate HasFreeSeat(ledger: Ledger, majorId: int)
  {
    majorId in ledger && ledger[majorId].alloted < ledger[majorId].seatCount
  }

  /** No major has handed out more seats than it has. */
  predicate WithinCapacity(ledger: Ledger)
  {
    forall m :: m in ledger ==> ledger[m].alloted <= ledger[m].seatCount
  }

  /** Hands out one more seat of `majorId`. */
  function Reserve(ledger: Ledger, majorId: int): Ledger
    requires majorId in ledger
  {
    ledger[majorId := ledger[majorId].(alloted := ledger[majorId].alloted + 1)]
  }

  /** The rows of the preference table belonging to one student and one round. */
  function Matching(table: seq<SeatPreference>, studentId: int, roundId: int): (r: seq<SeatPreference>)
    ensures forall p :: p in r <==> p in table && p.studentId == studentId && p.roundId == roundId
    ensures multiset(r) <= multiset(table)
    decreases |table|
  {
    if |table| == 0 then []
    else
      assert table == [table[0]] + table[1..];
      var here := table[0];
      (if here.studentId == studentId && here.roundId == roundId then [here] else [])
        + Matching(table[1..], studentId, roundId)
  }

  /** A student's preferences for a round, in ascending preference order. */
  function PrefsFor(table: seq<SeatPreference>, studentId: int, roundId: int): seq<SeatPreference>
  {
    SortBy(Matching(table, studentId, roundId), Order)
  }

  /** The preferences walked for a student come in ascending preference order. */
  lemma PrefsForOrdered(table: seq<SeatPreference>, studentId: int, roundId: int)
    ensures SortedBy(PrefsFor(table, studentId, roundId), Order)
  {
  }

  /** The preferences walked for a student are exactly that student's rows for the round. */
  lemma PrefsForSelects(table: seq<SeatPreference>, studentId: int, roundId: int)
    ensures forall p :: p in PrefsFor(table, studentId, roundId) <==>
      p in table && p.studentId == studentId && p.roundId == roundId
  {
    var rows := Matching(table, studentId, roundId);
    assert forall p :: p in PrefsFor(table, studentId, roundId) <==> p in multiset(rows);
  }

  /** The preference query of one round: a student's preferences for it, in order. */
  function RoundPrefs(table: seq<SeatPreference>, roundId: int): Student -> seq<SeatPreference>
  {
    (s: Student) => PrefsFor(table, s.id, roundId)
  }

  /** The position of the first preference, from `from` on, whose major has a free seat. */
  function FirstFree(ledger: Ledger, prefs: seq<SeatPreference>, from: nat): (r: Option<nat>)
    requires from <= |prefs|
    ensures r.Some? ==> from <= r.value < |prefs| && HasFreeSeat(ledger, prefs[r.value].majorId)
    ensures r.Some? ==> forall k :: from <= k < r.value ==> !HasFreeSeat(ledger, prefs[k].majorId)
    ensures r.None? ==> forall k :: from <= k < |prefs| ==> !HasFreeSeat(ledger, prefs[k].majorId)
    decreases |prefs| - from
  {
    if from == |prefs| then None
    else if HasFreeSeat(ledger, prefs[from].majorId) then Some(from)
    else FirstFree(ledger, prefs, from + 1)
  }

  /** One student's turn, first fit: nothing is granted exactly when no preference has a
      free seat; otherwise the granted preference is the earliest one with a free seat. */
  function AllocateStudent(ledger: Ledger, prefs: seq<SeatPreference>): (r: (Ledger, Option<SeatPreference>))
    ensures r.1.None? <==> forall k :: 0 <= k < |prefs| ==> !HasFreeSeat(ledger, prefs[k].majorId)
    ensures r.1.Some? ==> HasFreeSeat(ledger, r.1.value.majorId)
    ensures r.1.Some? ==>
      exists k :: 0 <= k < |prefs| && prefs[k] == r.1.value
        && forall j :: 0 <= j < k ==> !HasFreeSeat(ledger, prefs[j].majorId)
  {
    match FirstFree(ledger, prefs, 0)
    case None => (ledger, None)
    case Some(k) => (Reserve(ledger, prefs[k].majorId), Some(prefs[k]))
  }

  /** What a turn does to the ledger: without a grant it is untouched; with one, the
      granted major had a free seat and gains exactly one allotted seat, and every other
      major is untouched. */
  lemma TurnLedger(ledger: Ledger, prefs: seq<SeatPreference>)
    ensures AllocateStudent(ledger, prefs).1.None? ==> AllocateStudent(ledger, prefs).0 == ledger
    ensures var r := AllocateStudent(ledger, prefs);
      r.1.Some? ==>
        && HasFreeSeat(ledger, r.1.value.majorId)
        && r.0.Keys == ledger.Keys
        && r.0[r.1.value.majorId].alloted == ledger[r.1.value.majorId].alloted + 1
        && r.0[r.1.value.majorId].seatCount == ledger[r.1.value.majorId].seatCount
        && forall m :: m in ledger && m != r.1.value.majorId ==> r.0[m] == ledger[m]
  {
  }

  /** The ledger after a pass and, per student in processing order, the preference granted. */
  datatype Pass = Pass(ledger: Ledger, decisions: seq<Option<SeatPreference>>)

  /** Whether a decision grants a seat of `majorId`. */
  predicate Grants(d: Option<SeatPreference>, majorId: int)
  {
    d.Some? && d.value.majorId == majorId
  }

  /** The number of decisions granting a seat of `majorId`. */
  function Granted(decisions: seq<Option<SeatPreference>>, majorId: int): nat
    decreases |decisions|
  {
    if |decisions| == 0 then 0
    else
      var n := |decisions| - 1;
      Granted(decisions[..n], majorId) + (if Grants(decisions[n], majorId) then 1 else 0)
  }

  /** The single pass over students in the given order, each turn seeing the ledger the
      earlier turns left behind. `prefsOf` gives a student's preferences in the order they
      are walked. */
  function AllocateAll(ledger: Ledger, prefsOf: Student -> seq<SeatPreference>, students: seq<Student>): (r: Pass)
    ensures |r.decisions| == |students|
    ensures r.ledger.Keys == ledger.Keys
    decreases |students|
  {
    if |students| == 0 then Pass(ledger, [])
    else
      var n := |students| - 1;
      var prev := AllocateAll(ledger, prefsOf, students[..n]);
      var turn := AllocateStudent(prev.ledger, prefsOf(students[n]));
      Pass(turn.0, prev.decisions + [turn.1])
  }

  /** `row` records the preference `d` granted to `student`. */
  predicate RowRecords(row: StudentAllotment, student: Student, d: Option<SeatPreference>)
  {
    d.Some? && row.studentId == student.id && row.prefId == d.value.id
  }

  /** The allotment rows a pass writes: one active row per granted student, in order. */
  function Allotments(roundId: int, order: seq<Student>, decisions: seq<Option<SeatPreference>>): (r: seq<StudentAllotment>)
    requires |decisions| == |order|
    ensures |r| <= |order|
    ensures forall a :: a in r ==> a.status == Active && a.roundId == roundId && a.choice == None
    decreases |order|
  {
    if |order| == 0 then []
    else
      var n := |order| - 1;
      var earlier := Allotments(roundId, order[..n], decisions[..n]);
      match decisions[n]
      case None => earlier
      case Some(p) => earlier + [StudentAllotment(order[n].id, p.id, roundId, Active, None)]
  }
}
