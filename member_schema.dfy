/** The stored member record: its fields, its note and attendance entries,
    and the four statuses the schema admits. */
module MemberSchema {
  import opened Wrappers
  import opened Calendar

  /** The `status` enum; a new record starts as `New`. */
  datatype Status = Active | Inactive | NeedsFollowUp | New
  {
    /** The string the database stores. */
    function Name(): (s: string)
      ensures |s| > 0
    {
      match this
      case Active => "Active"
      case Inactive => "Inactive"
      case NeedsFollowUp => "Needs Follow-up"
      case New => "New"
    }
  }

  /** The schema's default status. */
  const DefaultStatus: Status := New

  /** Reads a stored status string; anything outside the enum is refused. */
  function ParseStatus(s: string): (r: Option<Status>)
    ensures r.Some? ==> r.value.Name() == s
  {
    if s == "Active" then Some(Active)
    else if s == "Inactive" then Some(Inactive)
    else if s == "Needs Follow-up" then Some(NeedsFollowUp)
    else if s == "New" then Some(New)
    else None
  }

  /** Every status is stored as a distinct string that reads back as itself. */
  lemma ParseName(st: Status)
    ensures ParseStatus(st.Name()) == Some(st)
  {
  }

  /** A follow-up note. */
  datatype Note = Note(date: Day, content: string)

  /** One attendance entry. */
  datatype Attendance = Attendance(date: Day, present: bool)

  /** A stored member. An absent optional field is `None`; a missing
      `notes` or `attendanceHistory` is the empty sequence, the schema's
      default for arrays. */
  datatype Member = Member(
    name: string,
    email: string,
    phone: Option<string>,
    address: Option<string>,
    joinDate: Option<Day>,
    lastAttendance: Option<Day>,
    lastContact: Option<Day>,
    assignedTo: Option<string>,
    status: Status,
    notes: seq<Note>,
    attendanceHistory: seq<Attendance>)
}
