/** What one allocation pass guarantees: seat conservation, capacity, first fit and
    priority of earlier students, and the shape of the allotment rows it writes. */
module PassProperties {
  import opened Wrappers
  import opened Sorting
  import opened Records
  import opened Allocation

  /** The ledger the student at position `i` sees: the one left by everyone before it. */
  function LedgerBefore(ledger: Ledger, prefsOf: Student -> seq<SeatPreference>, students: seq<Student>, i: nat): Ledger
    requires i <= |students|
  {
    AllocateAll(ledger, prefsOf, students[..i]).ledger
  }

  /** Seat counts are conserved: each major ends with its initial count plus one per
      student granted a preference pointing at it; capacities never change. */
  lemma {:induction false} PassConservesSeats(ledger: Ledger, prefsOf: Student -> seq<SeatPreference>, students: seq<Student>)
    ensures var r := AllocateAll(ledger, prefsOf, students);
      forall m :: m in ledger ==>
        r.ledger[m].seatCount == ledger[m].seatCount
        && r.ledger[m].alloted == ledger[m].alloted + Granted(r.decisions, m)
    decreases |students|
  {
    if |students| > 0 {
      var n := |students| - 1;
      var prev := AllocateAll(ledger, prefsOf, students[..n]);
      var turn := AllocateStudent(prev.ledger, prefsOf(students[n]));
      TurnLedger(prev.ledger, prefsOf(students[n]));
      var r := AllocateAll(ledger, prefsOf, students);
      assert r.decisions == prev.decisions + [turn.1];
      assert r.decisions[..n] == prev.decisions;
      PassConservesSeats(ledger, prefsOf, students[..n]);
    }
  }

  /** A major that nobody was granted is left exactly as it was. */
  lemma UngrantedMajorUntouched(ledger: Ledger, prefsOf: Student -> seq<SeatPreference>, students: seq<Student>, majorId: int)
    requires majorId in ledger
    requires Granted(AllocateAll(ledger, prefsOf, students).decisions, majorId) == 0
    ensures AllocateAll(ledger, prefsOf, students).ledger[majorId] == ledger[majorId]
  {
    PassConservesSeats(ledger, prefsOf, students);
  }

  /** A seat is handed out only while one is free, so no major ends above the larger of
      its capacity and its starting count; a ledger within capacity stays within it. */
  lemma {:induction false} PassRespectsCapacity(ledger: Ledger, prefsOf: Student -> seq<SeatPreference>, students: seq<Student>)
    ensures var r := AllocateAll(ledger, prefsOf, students);
      forall m :: m in ledger ==> r.ledger[m].alloted <= Max(ledger[m].alloted, ledger[m].seatCount)
    ensures WithinCapacity(ledger) ==> WithinCapacity(AllocateAll(ledger, prefsOf, students).ledger)
    decreases |students|
  {
    PassConservesSeats(ledger, prefsOf, students);
    if |students| > 0 {
      var n := |students| - 1;
      PassRespectsCapacity(ledger, prefsOf, students[..n]);
      PassConservesSeats(ledger, prefsOf, students[..n]);
    }
  }

  /** Running the pass over `a` and then, from the resulting ledger, over `b` is the same
      as one pass over `a + b`. */
  lemma {:induction false} SplitPass(ledger: Ledger, prefsOf: Student -> seq<SeatPreference>, a: seq<Student>, b: seq<Student>)
    ensures var mid := AllocateAll(ledger, prefsOf, a);
      var rest := AllocateAll(mid.ledger, prefsOf, b);
      AllocateAll(ledger, prefsOf, a + b) == Pass(rest.ledger, mid.decisions + rest.decisions)
    decreases |b|
  {
    if |b| == 0 {
      assert a + b == a;
    } else {
      var n := |b| - 1;
      assert (a + b)[..|a + b| - 1] == a + b[..n];
      assert (a + b)[|a + b| - 1] == b[n];
      SplitPass(ledger, prefsOf, a, b[..n]);
      var mid := AllocateAll(ledger, prefsOf, a);
      var rest := AllocateAll(mid.ledger, prefsOf, b[..n]);
      var prevWhole := AllocateAll(ledger, prefsOf, a + b[..n]);
      assert prevWhole == Pass(rest.ledger, mid.decisions + rest.decisions);
      var prefs := prefsOf(b[n]);
      var turn := AllocateStudent(rest.ledger, prefs);
      assert AllocateAll(mid.ledger, prefsOf, b) == Pass(turn.0, rest.decisions + [turn.1]);
      assert AllocateAll(ledger, prefsOf, a + b) == Pass(turn.0, prevWhole.decisions + [turn.1]);
      assert mid.decisions + rest.decisions + [turn.1] == mid.decisions + (rest.decisions + [turn.1]);
    }
  }

  /** First fit, in processing order: the decision for the student at position `i` is the
      first preference with a free seat in the ledger the earlier students left, and that
      turn alone moves the ledger one step on. */
  lemma DecisionAt(ledger: Ledger, prefsOf: Student -> seq<SeatPreference>, students: seq<Student>, i: nat)
    requires i < |students|
    ensures var turn := AllocateStudent(LedgerBefore(ledger, prefsOf, students, i), prefsOf(students[i]));
      AllocateAll(ledger, prefsOf, students).decisions[i] == turn.1
      && LedgerBefore(ledger, prefsOf, students, i + 1) == turn.0
  {
    var front := students[..i + 1];
    assert front + students[i + 1..] == students;
    SplitPass(ledger, prefsOf, front, students[i + 1..]);
    assert front[..i] == students[..i];
  }

  /** Every granted preference is one of that student's own preferences, its major
      exists, and it had a free seat when that student's turn came. */
  lemma GrantIsOwnPreference(ledger: Ledger, prefsOf: Student -> seq<SeatPreference>, students: seq<Student>, i: nat)
    requires i < |students|
    requires AllocateAll(ledger, prefsOf, students).decisions[i].Some?
    ensures var p := AllocateAll(ledger, prefsOf, students).decisions[i].value;
      p in prefsOf(students[i])
      && p.majorId in ledger
      && HasFreeSeat(LedgerBefore(ledger, prefsOf, students, i), p.majorId)
  {
    DecisionAt(ledger, prefsOf, students, i);
    var prefs := prefsOf(students[i]);
    var before := LedgerBefore(ledger, prefsOf, students, i);
    var p := AllocateAll(ledger, prefsOf, students).decisions[i].value;
    var k :| 0 <= k < |prefs| && prefs[k] == p
      && forall j :: 0 <= j < k ==> !HasFreeSeat(before, prefs[j].majorId);
    assert before.Keys == ledger.Keys;
  }

  /** The decisions of a prefix of the students are the prefix of the decisions. */
  lemma PassPrefix(ledger: Ledger, prefsOf: Student -> seq<SeatPreference>, students: seq<Student>, i: nat)
    requires i <= |students|
    ensures AllocateAll(ledger, prefsOf, students[..i]).decisions
      == AllocateAll(ledger, prefsOf, students).decisions[..i]
  {
    assert students[..i] + students[i..] == students;
    SplitPass(ledger, prefsOf, students[..i], students[i..]);
  }

  /** A student whose first preference had a free seat when the round closed, and of
      which no earlier student was granted a seat, is granted that first preference. */
  lemma UncontestedFirstChoice(ledger: Ledger, prefsOf: Student -> seq<SeatPreference>, students: seq<Student>, i: nat)
    requires i < |students|
    requires |prefsOf(students[i])| > 0
    requires HasFreeSeat(ledger, prefsOf(students[i])[0].majorId)
    requires Granted(AllocateAll(ledger, prefsOf, students).decisions[..i],
      prefsOf(students[i])[0].majorId) == 0
    ensures AllocateAll(ledger, prefsOf, students).decisions[i]
      == Some(prefsOf(students[i])[0])
  {
    var m := prefsOf(students[i])[0].majorId;
    PassPrefix(ledger, prefsOf, students, i);
    PassConservesSeats(ledger, prefsOf, students[..i]);
    assert HasFreeSeat(LedgerBefore(ledger, prefsOf, students, i), m);
    DecisionAt(ledger, prefsOf, students, i);
  }

  /** Seat counts only grow along the pass: a major that is full (or missing) for one
      student stays so for every later student. */
  lemma LedgerGrows(ledger: Ledger, prefsOf: Student -> seq<SeatPreference>, students: seq<Student>, i: nat, j: nat)
    requires i <= j <= |students|
    ensures var before := LedgerBefore(ledger, prefsOf, students, i);
      var after := LedgerBefore(ledger, prefsOf, students, j);
      before.Keys == after.Keys
      && forall m :: m in before ==>
        after[m].seatCount == before[m].seatCount && after[m].alloted >= before[m].alloted
  {
    var front := students[..i];
    var middle := students[i..j];
    assert front + middle == students[..j];
    SplitPass(ledger, prefsOf, front, middle);
    PassConservesSeats(LedgerBefore(ledger, prefsOf, students, i), prefsOf, middle);
  }

  /** No match, no effect: a student none of whose preferences has a free seat when its
      turn comes (including one with no preferences) is granted nothing and leaves the
      ledger as it found it. */
  lemma NoMatchNoEffect(ledger: Ledger, prefsOf: Student -> seq<SeatPreference>, students: seq<Student>, i: nat)
    requires i < |students|
    requires var prefs := prefsOf(students[i]);
      forall k :: 0 <= k < |prefs| ==> !HasFreeSeat(LedgerBefore(ledger, prefsOf, students, i), prefs[k].majorId)
    ensures AllocateAll(ledger, prefsOf, students).decisions[i] == None
    ensures LedgerBefore(ledger, prefsOf, students, i + 1) == LedgerBefore(ledger, prefsOf, students, i)
  {
    DecisionAt(ledger, prefsOf, students, i);
  }

  /** Priority of earlier students: if a later student is granted major `m`, then an
      earlier student who listed `m` at position `k` was granted a preference at a
      position no later than `k`. */
  lemma EarlierStudentFirst(ledger: Ledger, prefsOf: Student -> seq<SeatPreference>, students: seq<Student>, i: nat, j: nat, k: nat)
    requires i < j < |students|
    requires AllocateAll(ledger, prefsOf, students).decisions[j].Some?
    requires k < |prefsOf(students[i])|
    requires prefsOf(students[i])[k].majorId
      == AllocateAll(ledger, prefsOf, students).decisions[j].value.majorId
    ensures var d := AllocateAll(ledger, prefsOf, students).decisions[i];
      d.Some? && exists k' :: 0 <= k' <= k && d.value == prefsOf(students[i])[k']
  {
    var prefs := prefsOf(students[i]);
    var m := prefs[k].majorId;
    var li := LedgerBefore(ledger, prefsOf, students, i);
    var lj := LedgerBefore(ledger, prefsOf, students, j);
    DecisionAt(ledger, prefsOf, students, j);
    assert HasFreeSeat(lj, m);
    LedgerGrows(ledger, prefsOf, students, i, j);
    assert HasFreeSeat(li, m);
    DecisionAt(ledger, prefsOf, students, i);
    var first := FirstFree(li, prefs, 0);
    assert first.Some? && first.value <= k;
  }

  /** Every allotment row comes from one granted decision: it names that student and
      the preference granted. */
  lemma {:induction false} RowComesFromDecision(roundId: int, order: seq<Student>, decisions: seq<Option<SeatPreference>>, x: nat)
    requires |decisions| == |order|
    requires x < |Allotments(roundId, order, decisions)|
    ensures exists i :: 0 <= i < |order| && RowRecords(Allotments(roundId, order, decisions)[x], order[i], decisions[i])
    decreases |order|
  {
    var n := |order| - 1;
    var front, frontDecisions := order[..n], decisions[..n];
    var earlier := Allotments(roundId, front, frontDecisions);
    var rows := Allotments(roundId, order, decisions);
    if x < |earlier| {
      RowComesFromDecision(roundId, front, frontDecisions, x);
      assert rows[x] == earlier[x];
      var i :| 0 <= i < n && RowRecords(earlier[x], front[i], frontDecisions[i]);
      assert front[i] == order[i] && frontDecisions[i] == decisions[i];
    } else {
      assert RowRecords(rows[x], order[n], decisions[n]);
    }
  }

  /** Every granted decision is written as an allotment row naming the student and the
      preference granted. */
  lemma {:induction false} DecisionBecomesRow(roundId: int, order: seq<Student>, decisions: seq<Option<SeatPreference>>, i: nat)
    requires |decisions| == |order|
    requires i < |order| && decisions[i].Some?
    ensures exists x :: 0 <= x < |Allotments(roundId, order, decisions)| && RowRecords(Allotments(roundId, order, decisions)[x], order[i], decisions[i])
    decreases |order|
  {
    var n := |order| - 1;
    var front, frontDecisions := order[..n], decisions[..n];
    var earlier := Allotments(roundId, front, frontDecisions);
    var rows := Allotments(roundId, order, decisions);
    if i < n {
      assert front[i] == order[i] && frontDecisions[i] == decisions[i];
      DecisionBecomesRow(roundId, front, frontDecisions, i);
      var x :| 0 <= x < |earlier| && RowRecords(earlier[x], front[i], frontDecisions[i]);
      assert rows[x] == earlier[x];
    } else {
      assert RowRecords(rows[|earlier|], order[i], decisions[i]);
    }
  }

  /** At most one allotment per student: when student ids are distinct, no two rows name
      the same student. */
  lemma {:induction false} AllotmentsOnePerStudent(roundId: int, order: seq<Student>, decisions: seq<Option<SeatPreference>>)
    requires |decisions| == |order|
    requires DistinctBy(order, StudentId)
    ensures forall x, y :: 0 <= x < y < |Allotments(roundId, order, decisions)| ==>
      Allotments(roundId, order, decisions)[x].studentId != Allotments(roundId, order, decisions)[y].studentId
    decreases |order|
  {
    if |order| > 0 {
      var n := |order| - 1;
      assert DistinctBy(order[..n], StudentId);
      AllotmentsOnePerStudent(roundId, order[..n], decisions[..n]);
      var earlier := Allotments(roundId, order[..n], decisions[..n]);
      var r := Allotments(roundId, order, decisions);
      if decisions[n].Some? {
        assert r == earlier + [r[|earlier|]];
        assert r[|earlier|].studentId == order[n].id;
        forall x, y | 0 <= x < y < |r| ensures r[x].studentId != r[y].studentId {
          if y == |earlier| {
            RowComesFromDecision(roundId, order[..n], decisions[..n], x);
            var i :| 0 <= i < n && RowRecords(earlier[x], order[..n][i], decisions[..n][i]);
            assert order[..n][i] == order[i];
            assert StudentId(order[i]) != StudentId(order[n]);
          } else {
            assert r[x] == earlier[x] && r[y] == earlier[y];
          }
        }
      }
    }
  }

  /** Rank priority: in a pass over students sorted by rank, if a student is granted
      major `m`, every better-ranked student who listed `m` at position `k` was granted a
      preference at position `k` or earlier, and so of no larger preference order. */
  lemma RankPriority(ledger: Ledger, prefsOf: Student -> seq<SeatPreference>, students: seq<Student>, i: nat, j: nat, k: nat)
    requires SortedBy(students, Rank)
    requires i < |students| && j < |students|
    requires students[i].rank < students[j].rank
    requires AllocateAll(ledger, prefsOf, students).decisions[j].Some?
    requires k < |prefsOf(students[i])|
    requires prefsOf(students[i])[k].majorId == AllocateAll(ledger, prefsOf, students).decisions[j].value.majorId
    ensures AllocateAll(ledger, prefsOf, students).decisions[i].Some?
    ensures exists k' :: 0 <= k' <= k && AllocateAll(ledger, prefsOf, students).decisions[i].value == prefsOf(students[i])[k']
    ensures SortedBy(prefsOf(students[i]), Order) ==>
      AllocateAll(ledger, prefsOf, students).decisions[i].value.preferenceOrder <= prefsOf(students[i])[k].preferenceOrder
  {
    SortedIndexOrder(students, Rank, i, j);
    EarlierStudentFirst(ledger, prefsOf, students, i, j, k);
    var prefs := prefsOf(students[i]);
    var k' :| 0 <= k' <= k && AllocateAll(ledger, prefsOf, students).decisions[i].value == prefs[k'];
    if SortedBy(prefs, Order) && k' < k {
      assert Order(prefs[k']) <= Order(prefs[k]);
    }
  }

  /** A decision list in which two positions grant `m` counts at least two grants of it. */
  lemma {:induction false} GrantedAtLeastTwo(decisions: seq<Option<SeatPreference>>, majorId: int, i: nat, j: nat)
    requires i < j < |decisions|
    requires Grants(decisions[i], majorId) && Grants(decisions[j], majorId)
    ensures Granted(decisions, majorId) >= 2
    decreases |decisions|
  {
    var n := |decisions| - 1;
    var front := decisions[..n];
    if j < n {
      assert front[i] == decisions[i] && front[j] == decisions[j];
      GrantedAtLeastTwo(front, majorId, i, j);
    } else {
      assert front[i] == decisions[i];
      GrantedAtLeastOne(front, majorId, i);
    }
  }

  /** A decision list in which some position grants `m` counts at least one grant of it. */
  lemma {:induction false} GrantedAtLeastOne(decisions: seq<Option<SeatPreference>>, majorId: int, i: nat)
    requires i < |decisions|
    requires Grants(decisions[i], majorId)
    ensures Granted(decisions, majorId) >= 1
    decreases |decisions|
  {
    var n := |decisions| - 1;
    if i < n {
      assert decisions[..n][i] == decisions[i];
      GrantedAtLeastOne(decisions[..n], majorId, i);
    }
  }

  /** The last free seat goes by rank: in a pass over students sorted by rank, when a
      student's first preference names a major with exactly one free seat, no
      worse-ranked student is granted that major. */
  lemma LastSeatNotToWorseRank(ledger: Ledger, prefsOf: Student -> seq<SeatPreference>, students: seq<Student>, i: nat, j: nat)
    requires SortedBy(students, Rank)
    requires i < |students| && j < |students|
    requires students[i].rank < students[j].rank
    requires |prefsOf(students[i])| > 0
    requires prefsOf(students[i])[0].majorId in ledger
    requires ledger[prefsOf(students[i])[0].majorId].alloted + 1 == ledger[prefsOf(students[i])[0].majorId].seatCount
    ensures !Grants(AllocateAll(ledger, prefsOf, students).decisions[j], prefsOf(students[i])[0].majorId)
  {
    var m := prefsOf(students[i])[0].majorId;
    var decisions := AllocateAll(ledger, prefsOf, students).decisions;
    if Grants(decisions[j], m) {
      SortedIndexOrder(students, Rank, i, j);
      RankPriority(ledger, prefsOf, students, i, j, 0);
      GrantedAtLeastTwo(decisions, m, i, j);
      PassConservesSeats(ledger, prefsOf, students);
      PassRespectsCapacity(ledger, prefsOf, students);
      assert false;
    }
  }
}
