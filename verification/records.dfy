/** Row shapes of the tables the allocator and the round controller touch.
    Only the columns those operations read or write are kept. */
module Records {
  import opened Wrappers

  /** A ranked applicant; a lower rank number is served first.
      `roundFurthering` records whether the student continues to the next round. */
  datatype Student = Student(id: int, rank: int, roundFurthering: bool)

  /** The seat columns of one major: its capacity and the seats handed out so far. */
  datatype MajorSeats = MajorSeats(seatCount: int, alloted: int)

  /** The capacity ledger: major id to that major's seat columns.
      A major id absent from the map is a major that does not exist. */
  type Ledger = map<int, MajorSeats>

  /** One ranked choice of a major by a student in a round. */
  datatype SeatPreference = SeatPreference(
    id: int,
    studentId: int,
    majorId: int,
    preferenceOrder: int,
    roundId: int)

  datatype Status = Active | Inactive

  /** A seat granted to a student in a round; `choice` is the student's later decision,
      absent until the student makes one. */
  datatype StudentAllotment = StudentAllotment(
    studentId: int,
    prefId: int,
    roundId: int,
    status: Status,
    choice: Option<string>)
}
