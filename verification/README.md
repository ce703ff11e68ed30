# Round closure and seat allocation, modelled in Dafny

The system is a college-admission portal (a Flask application). Students register
ranked preferences for majors. An administrator runs allocation rounds. When a round is
ended, every student is served in ascending rank order. Each student walks their own
preferences for that round in ascending preference order and takes the first major that
still has a free seat, which increments the major's allotted-seat count and writes an
active allotment row. Afterwards a student records a decision on an allotment: accept,
freeze and upgrade, reject and upgrade, or withdraw. That decision sets the allotment's
status and whether the student continues to the next round.

The model covers three parts of `controllers/routes.py`:

- `allocate_seats` (the allocation pass);
- the active check and deactivation in `end_round`;
- `update_choice`.

It treats them as pure functions over immutable tables:

- `wrappers.dfy`: `Option` and `Result`.
- `sorting.dfy`: an insertion sort by an integer key. It stands in for the database's
  `ORDER BY`.
- `records.dfy`: the row shapes the operations read and write. These are a student's
  id, rank and `round_furthering` flag; a major's `seat_count` and
  `alloted_seat_count`, kept in a ledger keyed by major id; a seat preference; and an
  allotment.
- `allocation.dfy`: one student's first-fit turn (`AllocateStudent`). The pass
  (`AllocateAll`) folds that turn over the students in order and records one decision per
  student. The allotment rows (`Allotments`) are derived from those decisions.
- `pass_properties.dfy`: what a pass guarantees. Seats are conserved and capacity is
  respected. Allocation is first fit. Earlier students have priority and, over a
  rank-sorted order, so do better-ranked ones. The rows written have the right shape.
- `closure.dfy`: `AllocateSeats` sorts the students by rank, runs the pass with each
  student's preferences for the round, and returns the ledger and the rows.
- `rounds.dfy`: `EndRound` and `UpdateChoice` as transitions of a `Db` value holding the
  tables.

A student's preferences reach the pass through a function parameter `prefsOf`. The
closure instantiates it with the round's filtered and sorted preference query
(`RoundPrefs`). The pass lemmas therefore hold for any preference source.

## Model

| member | source | states |
|---|---|---|
| Sorting.SortBy | controllers/routes.py:355 | the students (or preferences) come back in non-decreasing key order, as a permutation of the input |
| Allocation.PrefsForSelects | controllers/routes.py:361 | the preferences walked for a student are exactly the table rows with that student id and that round id |
| Allocation.PrefsForOrdered | controllers/routes.py:361 | those preferences are walked in non-decreasing preference order |
| Allocation.Matching | controllers/routes.py:361 | the filter keeps a row if and only if it belongs to the student and the round, and never repeats a row more often than the table holds it |
| Allocation.FirstFree | controllers/routes.py:363-367 | the position found is the first preference whose major exists and has a free seat; no position means no preference qualifies |
| Allocation.AllocateStudent | controllers/routes.py:363-383 | nothing is granted if and only if no preference has a free seat; otherwise the granted preference is the earliest one whose major exists and has a free seat |
| Allocation.TurnLedger | controllers/routes.py:367-370 | a turn without a grant leaves the ledger unchanged; a grant adds exactly one allotted seat to the granted major, keeps its capacity, and leaves every other major untouched |
| Allocation.AllocateAll | controllers/routes.py:357-383 | the pass makes one decision per student and neither adds nor removes majors |
| Allocation.Allotments | controllers/routes.py:373-379 | no more rows than students; every row is active, belongs to the closed round and has no choice yet |
| PassProperties.PassConservesSeats | controllers/routes.py:367-370 | after the pass each major's allotted count is its initial count plus the number of students granted it, and its capacity is unchanged |
| PassProperties.PassRespectsCapacity | controllers/routes.py:367-369 | no major ends above the larger of its capacity and its initial count, so a ledger within capacity stays within capacity |
| PassProperties.UngrantedMajorUntouched | controllers/routes.py:363-370 | a major nobody was granted keeps its row exactly |
| PassProperties.SplitPass | controllers/routes.py:357-383 | a pass over `a + b` is a pass over `a` followed by a pass over `b` starting from the ledger `a` left |
| PassProperties.DecisionAt | controllers/routes.py:357-383 | the decision for the student at position `i` is that student's first-fit turn against the ledger the earlier students left, and that turn alone produces the next ledger |
| PassProperties.GrantIsOwnPreference | controllers/routes.py:361-369 | a granted preference is one of the student's own, its major exists, and it had a free seat at that student's turn |
| PassProperties.PassPrefix | controllers/routes.py:357 | the decisions for a prefix of the students are the prefix of the decisions |
| PassProperties.UncontestedFirstChoice | controllers/routes.py:363-369 | a student whose first preference had a free seat at the start, and which no earlier student took, is granted that first preference |
| PassProperties.LedgerGrows | controllers/routes.py:357-369 | allotted counts never decrease along the pass, so a major that is full for one student stays full for every later one |
| PassProperties.NoMatchNoEffect | controllers/routes.py:357-383 | a student with no preference that has a free seat (including one with no preferences) gets no seat and leaves the ledger unchanged |
| PassProperties.EarlierStudentFirst | controllers/routes.py:357-383 | if a later student is granted major m, an earlier student who listed m at position k was granted a preference at position k or earlier |
| PassProperties.RankPriority | controllers/routes.py:355-383 | over a rank-sorted order, if a worse-ranked student is granted major m, every better-ranked student who listed m was granted a seat, at that position or an earlier one, and so with no larger preference order |
| PassProperties.LastSeatNotToWorseRank | controllers/routes.py:355-369 | when a student's first choice has exactly one free seat, no worse-ranked student is granted that major |
| PassProperties.RowComesFromDecision | controllers/routes.py:373-379 | each allotment row records one granted decision: that student's id and the granted preference's id |
| PassProperties.DecisionBecomesRow | controllers/routes.py:373-379 | each granted decision is recorded by some allotment row |
| PassProperties.AllotmentsOnePerStudent | controllers/routes.py:373-383 | with distinct student ids, no two rows of the round name the same student, because the walk stops at the first grant |
| Closure.AllocateSeats | controllers/routes.py:353-387 | the closure serves the students in a rank-sorted permutation; the ledger and the rows written are exactly the pass's ledger and one row per granted decision; the set of majors and their capacities are kept, no allotted count drops, a ledger within capacity stays within it, and every row is an active, choice-free row of this round naming one of its student's own preferences, with no student named twice when ids are distinct |
| Closure.RowsNameOwnPreferences | controllers/routes.py:361-378 | every row written names a preference row from the table that belongs to that student and to the closed round |
| Rounds.EndRound | controllers/routes.py:191-216 | a round is closed if and only if it exists and is active; then it becomes inactive with end date `now` and the same start date, the majors become the allocation's ledger and its rows are appended after the existing ones (all active and for this round), other rounds, students, preferences and every major's capacity are unchanged, and a ledger within capacity stays within it; any other request changes nothing |
| Rounds.EndRoundOnce | controllers/routes.py:197-201 | a second request to end the same round changes nothing, so, for requests handled one after the other, a round's allocation runs at most once |
| Rounds.ChoiceEffect | controllers/routes.py:395-406 | a choice has an effect if and only if it is one of the four known choices; the seat stays active exactly for accept and freeze-and-upgrade, and the student continues exactly for the two upgrade choices |
| Rounds.FindStudent | controllers/routes.py:397 | the student lookup returns a position holding that id, or reports that none does |
| Rounds.UpdateChoice | controllers/routes.py:391-411 | an unknown allotment id is an error, and so is a known choice whose allotment names a missing student; otherwise the choice is always stored, the status follows the choice (unknown choices keep it), only this allotment and only its student's continuation flag change, and that flag follows the choice |
| Rounds.ChoiceCanBeChanged | controllers/routes.py:395-408 | a recorded choice can be replaced by any other valid one; there is no duplicate-choice guard |
| Rounds.LastChoiceWins | controllers/routes.py:395-408 | recording a known choice over an earlier one gives the same tables as recording only the later choice |
| Rounds.ChoiceIdempotent | controllers/routes.py:395-408 | recording the same choice twice is the same as recording it once |

The row shapes follow `controllers/model.py`. `Student.rank` is at line 36, `Major.seat_count`
at line 45, and `SeatPreference.major_id` and `preference_order` at lines 57-58.

## Left out

- The Flask layer (routes, sessions, `flash`, redirects, templates) is left out, and so are
  `app.py` and `__init__.py`.
- `db.session.commit` and `rollback` are not modelled. Each operation is one atomic
  transition, so the `except` branch of `end_round` (roll back and change nothing) has no
  counterpart. The model has no operation that can fail mid-way.
- Rounds.EndRoundOnce: requests are modelled one at a time. The code has no lock and no
  conditional update on `is_active`, so two overlapping `end_round` requests for the same
  round can both pass the active check before either commits and both run the allocation.
- `datetime.now()` becomes the caller-supplied integer `now`.
- Python's integers are unbounded, so no wrap-around is modelled.
- Closure.AllocateSeats: students with equal rank, and preferences with equal preference
  order, are served in the order the insertion sort leaves them. The database leaves that
  order unspecified.
- PassProperties.PassRespectsCapacity: the bound is the larger of the capacity and the
  starting count. The code never checks a ledger that already starts over capacity. It
  simply grants nothing more from such a major.
- Rounds.UpdateChoice: a missing form field is `None` and is stored as such. An allotment
  whose student is missing makes the attribute assignment fail before the commit. This is
  modelled as the `StudentNotFound` error with no change.
- Columns the operations do not read are dropped: `college_id`, names, addresses,
  eligibility, user and college tables.
- `routes.py` imports `Round` and `StudentAllotment` from `controllers/model.py`, which
  declares neither. `SeatPreference.round_id`, `Major.alloted_seat_count` and
  `Student.round_furthering` are not declared there either. All of these are modelled as
  the plain fields the routes use.
- The code has none of the following, and the model adds none:
  - no carry-over of seats between rounds;
  - no release of a seat on reject or withdraw (`update_choice` never touches the majors);
  - no guard against changing a recorded choice;
  - no guard against two overlapping closures of the same round;
  - no detection of an over-capacity ledger.
- An allotment's id is modelled as its 1-based position in the allotment table, matching
  the table's auto-increment key when rows are never deleted.
