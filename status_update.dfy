/** The status pass of libs/update.js: every member is classified as `New`,
    `Needs Follow-up` or `Active` from its own record and the instant `now`,
    its status is overwritten in place and it is saved, one member at a time. */
module StatusUpdate {
  import opened Wrappers
  import opened Calendar
  import opened MemberSchema
  import Http

  /** Members who joined at most this many days before `now` are new. */
  const NewMemberDays: int := 31

  /** The reference day of the attendance check, named `lastSunday` in the
      source: `now` moved back by `(getDay() + 6) % 7` days, then set to
      midnight. That offset is 0 on a Monday, so the day is always the most
      recent Monday (see LastSundayIsMonday). */
  function LastSunday(now: Instant): (r: Instant)
    ensures r == DayStart(DayOf(now) - (WeekDay(now) + 6) % 7)
  {
    DaysBackStart(now, (WeekDay(now) + 6) % 7);
    StartOfDay(SetDate(now, DateFromTime(now) - (WeekDay(now) + 6) % 7))
  }

  /** The reference day is the midnight starting the most recent Monday at or
      before `now`: never a Sunday, and `now`'s own day when `now` is a Monday. */
  lemma LastSundayIsMonday(now: Instant)
    ensures 0 <= (WeekDay(now) + 6) % 7 <= 6
    ensures WeekDay(LastSunday(now)) == 1
    ensures LastSunday(now) <= now < LastSunday(now) + 7 * MsPerDay
    ensures DayOf(now) - 6 <= DayOf(LastSunday(now)) <= DayOf(now)
    ensures WeekDay(now) == 1 <==> DayOf(LastSunday(now)) == DayOf(now)
  {
    MondayBack(now, LastSunday(now));
  }

  /** Midnight `(weekday + 6) % 7` days back is a Monday within the last week. */
  lemma MondayBack(now: Instant, monday: Instant)
    requires monday == DayStart(DayOf(now) - (WeekDay(now) + 6) % 7)
    ensures WeekDay(monday) == 1
    ensures monday <= now < monday + 7 * MsPerDay
    ensures DayOf(now) - 6 <= DayOf(monday) <= DayOf(now)
    ensures WeekDay(now) == 1 <==> DayOf(monday) == DayOf(now)
  {
    var d := DayOf(now);
    var k := (WeekDay(now) + 6) % 7;
    assert DayOf(monday) == d - k;
    MondayOffset(d);
  }

  /** Going back `(weekday + 6) % 7` days from any day reaches a Monday. */
  lemma MondayOffset(d: Day)
    ensures (d - ((d + 4) % 7 + 6) % 7 + 4) % 7 == 1
    ensures ((d + 4) % 7 + 6) % 7 == 0 <==> (d + 4) % 7 == 1
  {
  }

  /** `isNew`: the member joined at most 31 days before `now` (days counted
      in milliseconds, so fractions count); a join date in the future counts
      too, and a member without a join date is never new. */
  predicate IsNew(now: Instant, joinDate: Option<Day>)
  {
    joinDate.Some? && now - DayStart(joinDate.value) <= NewMemberDays * MsPerDay
  }

  /** The latest of some days (`map(...).sort((a, b) => b - a)[0]`), if any. */
  function LatestDay(days: seq<Day>): (r: Option<Day>)
    ensures r.None? <==> |days| == 0
    ensures r.Some? ==> r.value in days
    ensures r.Some? ==> forall i | 0 <= i < |days| :: days[i] <= r.value
  {
    if |days| == 0 then None
    else match LatestDay(days[1..])
      case None => Some(days[0])
      case Some(x) => Some(if days[0] >= x then days[0] else x)
  }

  /** `xs.map(x => new Date(x.date))`: the dates of some entries, in order. */
  function Dates<T>(xs: seq<T>, date: T -> Day): (ds: seq<Day>)
    ensures |ds| == |xs| && forall i | 0 <= i < |xs| :: ds[i] == date(xs[i])
  {
    seq(|xs|, i requires 0 <= i < |xs| => date(xs[i]))
  }

  /** `lastAttendance`: the latest date of any attendance entry, present or
      not; missing exactly when there is no entry. */
  function LastAttendance(m: Member): (r: Option<Day>)
    ensures r.None? <==> |m.attendanceHistory| == 0
    ensures r.Some? ==> exists i | 0 <= i < |m.attendanceHistory| :: m.attendanceHistory[i].date == r.value
    ensures r.Some? ==> forall i | 0 <= i < |m.attendanceHistory| :: m.attendanceHistory[i].date <= r.value
  {
    LatestDay(Dates(m.attendanceHistory, (a: Attendance) => a.date))
  }

  /** `lastFollowUp`: the latest date of any note; missing exactly when there
      is no note. */
  function LastFollowUp(m: Member): (r: Option<Day>)
    ensures r.None? <==> |m.notes| == 0
    ensures r.Some? ==> exists i | 0 <= i < |m.notes| :: m.notes[i].date == r.value
    ensures r.Some? ==> forall i | 0 <= i < |m.notes| :: m.notes[i].date <= r.value
  {
    LatestDay(Dates(m.notes, (n: Note) => n.date))
  }

  /** `lastAction`: the later of two optional days, ignoring a missing one. */
  function Later(a: Option<Day>, b: Option<Day>): (r: Option<Day>)
    ensures r.None? <==> a.None? && b.None?
    ensures r.Some? ==> r == a || r == b
    ensures r.Some? && a.Some? ==> a.value <= r.value
    ensures r.Some? && b.Some? ==> b.value <= r.value
  {
    match (a, b)
    case (None, _) => b
    case (_, None) => a
    case (Some(x), Some(y)) => if x >= y then a else b
  }

  /** `lastAction`: the latest date of any attendance entry or note, missing
      exactly when the member has neither. */
  function LastAction(m: Member): (r: Option<Day>)
    ensures r.None? <==> |m.attendanceHistory| == 0 && |m.notes| == 0
    ensures r.Some? ==>
              (exists i | 0 <= i < |m.attendanceHistory| :: m.attendanceHistory[i].date == r.value) ||
              (exists i | 0 <= i < |m.notes| :: m.notes[i].date == r.value)
    ensures r.Some? ==> forall i | 0 <= i < |m.attendanceHistory| :: m.attendanceHistory[i].date <= r.value
    ensures r.Some? ==> forall i | 0 <= i < |m.notes| :: m.notes[i].date <= r.value
  {
    Later(LastAttendance(m), LastFollowUp(m))
  }

  /** `attendedLastSunday`: some entry is marked present and falls on the
      calendar day of `ref`. */
  predicate AttendedOn(h: seq<Attendance>, ref: Instant)
  {
    exists i | 0 <= i < |h| :: DayOf(DayStart(h[i].date)) == DayOf(ref) && h[i].present
  }

  /** The status the pass gives a member, first matching rule wins; the
      previous status is not read. */
  function Classify(now: Instant, m: Member): (s: Status)
    ensures s != Inactive
    ensures s == New <==> IsNew(now, m.joinDate)
    ensures s == Active ==> AttendedOn(m.attendanceHistory, LastSunday(now))
  {
    if IsNew(now, m.joinDate) then New
    else if !AttendedOn(m.attendanceHistory, LastSunday(now)) then NeedsFollowUp
    else match LastAction(m)
      case None => NeedsFollowUp
      case Some(d) => if DayStart(d) < OneMonthAgo(now) then NeedsFollowUp else Active
  }

  /** Comparing `toDateString()`s is comparing day numbers: a history
      attended on the day of `ref` exactly when one of its entries is present
      and dated on that day. */
  lemma AttendedOnDay(h: seq<Attendance>, ref: Instant)
    ensures AttendedOn(h, ref) <==> PresentOn(h, DayOf(ref))
  {
    forall i | 0 <= i < |h| ensures DayOf(DayStart(h[i].date)) == h[i].date {
    }
  }

  /** Whoever attended on the reference day has an attendance history, so
      `lastAction` exists and is no earlier than that day. */
  lemma AttendedGivesLastAction(now: Instant, m: Member)
    requires AttendedOn(m.attendanceHistory, LastSunday(now))
    ensures LastAction(m).Some?
    ensures DayOf(LastSunday(now)) <= LastAction(m).value
  {
    var h := m.attendanceHistory;
    AttendedOnDay(h, LastSunday(now));
    var i :| 0 <= i < |h| && h[i].date == DayOf(LastSunday(now)) && h[i].present;
  }

  /** The staleness test never fires for a member who attended on the
      reference day: that day lies within the last week, and one month ago
      lies at least 28 days back. */
  lemma AttendedIsRecent(now: Instant, m: Member)
    requires AttendedOn(m.attendanceHistory, LastSunday(now))
    ensures OneMonthAgo(now) <= DayStart(LastAction(m).value)
  {
    AttendedGivesLastAction(now, m);
    LastSundayIsMonday(now);
    var ref := DayOf(LastSunday(now));
    assert DayStart(ref) <= DayStart(LastAction(m).value);
  }

  /** The rule in effect: new members are `New`; everyone else is `Active`
      exactly when present on the reference day, `Needs Follow-up` otherwise.
      The "no or stale lastAction" branch can never decide. */
  lemma ClassifyByAttendance(now: Instant, m: Member)
    ensures Classify(now, m) ==
      if IsNew(now, m.joinDate) then New
      else if AttendedOn(m.attendanceHistory, LastSunday(now)) then Active
      else NeedsFollowUp
  {
    if !IsNew(now, m.joinDate) && AttendedOn(m.attendanceHistory, LastSunday(now)) {
      AttendedIsRecent(now, m);
    }
  }

  /** A non-new member is `Active` iff it attended on the reference day and
      its last action is no older than one month; otherwise it needs follow-up. */
  lemma ActiveIff(now: Instant, m: Member)
    requires !IsNew(now, m.joinDate)
    ensures Classify(now, m) == Active <==>
      AttendedOn(m.attendanceHistory, LastSunday(now)) &&
      LastAction(m).Some? && OneMonthAgo(now) <= DayStart(LastAction(m).value)
    ensures Classify(now, m) != Active ==> Classify(now, m) == NeedsFollowUp
  {
  }

  /** The classification depends on the record's dates and `now` only: the
      stored status, whatever it was (a manual `Inactive` too), is ignored. */
  lemma ClassifyIgnoresStatus(now: Instant, m: Member, st: Status)
    ensures Classify(now, m.(status := st)) == Classify(now, m)
  {
  }

  /** A member with a join date in the future is new. */
  lemma FutureJoinIsNew(now: Instant, m: Member)
    requires m.joinDate.Some? && now <= DayStart(m.joinDate.value)
    ensures Classify(now, m) == New
  {
  }

  /** Some entry dated on day `d` is marked present. */
  predicate PresentOn(h: seq<Attendance>, d: Day)
  {
    exists i | 0 <= i < |h| :: h[i].date == d && h[i].present
  }

  /** The rule in effect, with the reference day written out as a day number. */
  lemma ClassifyOnDay(now: Instant, m: Member)
    ensures Classify(now, m) ==
      if IsNew(now, m.joinDate) then New
      else if PresentOn(m.attendanceHistory, DayOf(now) - (WeekDay(now) + 6) % 7) then Active
      else NeedsFollowUp
  {
    ClassifyByAttendance(now, m);
    AttendedOnDay(m.attendanceHistory, LastSunday(now));
  }

  /** On a Monday, an entry on the day before (a Sunday) is not attendance on
      the reference day: a member who is not new and has only that entry
      needs follow-up, present or not. */
  lemma SundayEntryIgnored(now: Instant, m: Member)
    requires WeekDay(now) == 1 && !IsNew(now, m.joinDate)
    requires forall i | 0 <= i < |m.attendanceHistory| :: m.attendanceHistory[i].date == DayOf(now) - 1
    ensures WeekDay(DayStart(DayOf(now) - 1)) == 0
    ensures Classify(now, m) == NeedsFollowUp
  {
    ClassifyOnDay(now, m);
    DayBeforeMonday(now);
    NotPresentOn(m.attendanceHistory, DayOf(now) - 1, DayOf(now));
  }

  /** The day before a Monday is a Sunday. */
  lemma DayBeforeMonday(now: Instant)
    requires WeekDay(now) == 1
    ensures (WeekDay(now) + 6) % 7 == 0
    ensures WeekDay(DayStart(DayOf(now) - 1)) == 0
  {
    assert DayOf(DayStart(DayOf(now) - 1)) == DayOf(now) - 1;
  }

  /** A history whose entries all fall on day `d` has no entry on another day. */
  lemma NotPresentOn(h: seq<Attendance>, d: Day, e: Day)
    requires d != e
    requires forall i | 0 <= i < |h| :: h[i].date == d
    ensures !PresentOn(h, e)
  {
  }

  /** A member who is not new and is marked present on the reference day is
      `Active`, whatever its notes. */
  lemma PresentOnReferenceDay(now: Instant, m: Member, i: nat)
    requires !IsNew(now, m.joinDate)
    requires i < |m.attendanceHistory| && m.attendanceHistory[i].present
    requires m.attendanceHistory[i].date == DayOf(now) - (WeekDay(now) + 6) % 7
    ensures Classify(now, m) == Active
  {
    ClassifyOnDay(now, m);
  }

  /** A member who is not new and whose last action is over 31 days old
      needs follow-up: it cannot have attended on the reference day. */
  lemma StaleNeedsFollowUp(now: Instant, m: Member)
    requires !IsNew(now, m.joinDate)
    requires LastAction(m).None? || DayStart(LastAction(m).value) < now - 31 * MsPerDay
    ensures Classify(now, m) == NeedsFollowUp
  {
    if AttendedOn(m.attendanceHistory, LastSunday(now)) {
      AttendedGivesLastAction(now, m);
      LastSundayIsMonday(now);
      assert false;
    }
  }

  /** The dates of the examples (see ExampleDays): 2024-06-10 (day 19884) is a Monday, so it
      is its own reference day; 2024-06-09 (day 19883) is a Sunday; on
      2024-08-01 (day 19936), a Thursday, the reference day is Monday
      2024-07-29 (day 19933). */
  lemma ExampleDates(now: Instant)
    ensures DayStart(19884) <= now < DayStart(19885) ==>
              WeekDay(now) == 1 && DayOf(now) - (WeekDay(now) + 6) % 7 == 19884
    ensures WeekDay(DayStart(19883)) == 0
    ensures DayStart(19936) <= now < DayStart(19937) ==>
              WeekDay(now) == 4 && DayOf(now) - (WeekDay(now) + 6) % 7 == 19933
  {
    if DayStart(19884) <= now < DayStart(19885) {
      DayOfWithin(now, 19884);
    }
    if DayStart(19936) <= now < DayStart(19937) {
      DayOfWithin(now, 19936);
    }
  }

  /** The day numbers used above are the example dates: `MakeDay` counts
      months from 0, so 2024-06-09 is `MakeDay(2024, 5, 9)`. */
  lemma ExampleDays()
    ensures MakeDay(2024, 5, 9) == 19883 && MakeDay(2024, 5, 10) == 19884
    ensures MakeDay(2024, 6, 29) == 19933 && MakeDay(2024, 7, 1) == 19936
  {
    DayFromYearFormula(2024);
    assert DayFromYear(2024) == 19723;
  }

  /** `member.status = ...`: the member with its status overwritten. */
  function Reclassify(now: Instant, m: Member): (r: Member)
    ensures r.status == Classify(now, m)
    ensures r.(status := m.status) == m
  {
    m.(status := Classify(now, m))
  }

  /** Every member reclassified, in order. */
  function ClassifyAll(now: Instant, ms: seq<Member>): (r: seq<Member>)
    ensures |r| == |ms|
    ensures forall i | 0 <= i < |ms| :: r[i] == Reclassify(now, ms[i])
  {
    seq(|ms|, i requires 0 <= i < |ms| => Reclassify(now, ms[i]))
  }

  /** Reclassifying with the same `now` changes nothing more. */
  lemma ClassifyAllIdempotent(now: Instant, ms: seq<Member>)
    ensures ClassifyAll(now, ClassifyAll(now, ms)) == ClassifyAll(now, ms)
  {
    var once := ClassifyAll(now, ms);
    forall i | 0 <= i < |ms| ensures Reclassify(now, once[i]) == once[i] {
      ClassifyIgnoresStatus(now, ms[i], once[i].status);
    }
  }

  /** The first position in `from..n` whose write fails, if any. */
  function FirstFailing(failing: set<nat>, from: nat, n: nat): (r: Option<nat>)
    ensures r.None? ==> forall j | from <= j < n :: j !in failing
    ensures r.Some? ==> from <= r.value < n && r.value in failing &&
                        forall j | from <= j < r.value :: j !in failing
    decreases n - from
  {
    if from >= n then None
    else if from in failing then Some(from)
    else FirstFailing(failing, from + 1, n)
  }

  /** The stored records after one pass: all reclassified, or, when the
      write at position `k` fails, those before `k` reclassified and the
      rest, `k` included, as they were. */
  function PassResult(now: Instant, records: seq<Member>, failing: set<nat>): (r: seq<Member>)
    ensures |r| == |records|
    ensures var k := FirstFailing(failing, 0, |records|);
            forall i | 0 <= i < |records| ::
              r[i] == if k.None? || i < k.value then Reclassify(now, records[i]) else records[i]
  {
    match FirstFailing(failing, 0, |records|)
    case None => ClassifyAll(now, records)
    case Some(k) => ClassifyAll(now, records)[..k] + records[k..]
  }

  /** A second pass with the same `now` and the same failing writes leaves
      the database as the first pass left it. */
  lemma PassIdempotent(now: Instant, records: seq<Member>, failing: set<nat>)
    ensures PassResult(now, PassResult(now, records, failing), failing)
         == PassResult(now, records, failing)
  {
    var once := PassResult(now, records, failing);
    var k := FirstFailing(failing, 0, |records|);
    forall i | 0 <= i < |records|
      ensures PassResult(now, once, failing)[i] == once[i]
    {
      ClassifyIgnoresStatus(now, records[i], once[i].status);
    }
  }

  /** The member collection in the database, by position. A write to a
      position in `failing` is refused with the error given there (a lost
      connection, a validation error): the model's stand-in for the outside
      world. */
  class MemberCollection {
    var records: seq<Member>
    const failing: map<nat, string>

    constructor (records: seq<Member>, failing: map<nat, string>)
      ensures this.records == records && this.failing == failing
    {
      this.records := records;
      this.failing := failing;
    }

    /** `Member.find({})`: fresh in-memory documents for every record. */
    method Find() returns (docs: array<Member>)
      ensures fresh(docs) && docs[..] == records
    {
      docs := new Member[|records|](i requires 0 <= i < |records| reads this => records[i]);
    }

    /** `member.save()` for the document read from position `i`. */
    method Save(i: nat, m: Member) returns (error: Option<string>)
      requires i < |records|
      modifies this
      ensures error == if i in failing then Some(failing[i]) else None
      ensures records == if i in failing then old(records) else old(records)[i := m]
    {
      if i in failing {
        error := Some(failing[i]);
      } else {
        records := records[i := m];
        error := None;
      }
    }
  }

  /** `updateData()`, with `now` passed in: reads every member, overwrites
      each status in order and saves it; the first failed save ends the pass
      and is returned, leaving the members after it untouched. */
  method UpdateData(now: Instant, db: MemberCollection) returns (error: Option<string>)
    modifies db
    ensures db.records == PassResult(now, old(db.records), db.failing.Keys)
    ensures error == match FirstFailing(db.failing.Keys, 0, |old(db.records)|)
                     case None => None
                     case Some(k) => Some(db.failing[k])
  {
    var members := db.Find();
    ghost var original := members[..];
    var i := 0;
    while i < members.Length
      invariant 0 <= i <= members.Length == |original|
      invariant members[..] == ClassifyAll(now, original)[..i] + original[i..]
      invariant db.records == members[..]
      invariant forall j | 0 <= j < i :: j !in db.failing.Keys
    {
      members[i] := Reclassify(now, members[i]);
      error := db.Save(i, members[i]);
      if error.Some? {
        assert FirstFailing(db.failing.Keys, 0, |original|) == Some(i) by {
          FirstFailingIs(db.failing.Keys, |original|, i);
        }
        assert db.records == ClassifyAll(now, original)[..i] + original[i..];
        return;
      }
      PassStep(ClassifyAll(now, original), original, i);
      i := i + 1;
    }
    error := None;
    assert ClassifyAll(now, original)[..i] + original[i..] == ClassifyAll(now, original);
  }

  /** Replacing position `i` of a half-done pass by its new value extends
      the done part by one. */
  lemma PassStep(done: seq<Member>, s: seq<Member>, i: nat)
    requires i < |s| == |done|
    ensures (done[..i] + s[i..])[i := done[i]] == done[..i + 1] + s[i + 1..]
  {
    var before := (done[..i] + s[i..])[i := done[i]];
    var after := done[..i + 1] + s[i + 1..];
    forall k | 0 <= k < |s| ensures before[k] == after[k] {
    }
  }

  /** The first failing position is the one before which none fails. */
  lemma FirstFailingIs(failing: set<nat>, n: nat, k: nat)
    requires k < n && k in failing
    requires forall j | 0 <= j < k :: j !in failing
    ensures FirstFailing(failing, 0, n) == Some(k)
  {
    var r := FirstFailing(failing, 0, n);
    assert r.Some?;
  }

  /** `POST /api/members/update-status`: the pass, with any error it
      throws answered as a 500 carrying the message. */
  method UpdateStatus(now: Instant, db: MemberCollection) returns (response: Http.Response<string>)
    modifies db
    ensures db.records == PassResult(now, old(db.records), db.failing.Keys)
    ensures response == match FirstFailing(db.failing.Keys, 0, |old(db.records)|)
                        case None => Http.Json("Member statuses updated.")
                        case Some(k) => Http.ErrorJson(500, db.failing[k])
  {
    var error := UpdateData(now, db);
    match error
    case None => response := Http.Json("Member statuses updated.");
    case Some(e) => response := Http.ErrorJson(500, e);
  }
}
