/** The members route, app/api/members/route.js: GET answers the member list
    with the dashboard figures computed from it, POST creates a member with
    its missing fields filled in. */
module MembersRoute {
  import opened Wrappers
  import opened Calendar
  import opened MemberSchema
  import opened Seqs
  import StatusUpdate
  import Http

  /** `attendanceHistory.reduce((a, b) => a.date > b.date ? a : b)`: a left
      fold keeping the entry with the later date (on a tie, the later entry). */
  function MostRecent(h: seq<Attendance>): (r: Attendance)
    requires |h| > 0
    ensures exists i | 0 <= i < |h| :: h[i] == r
    ensures forall i | 0 <= i < |h| :: h[i].date <= r.date
  {
    if |h| == 1 then h[0]
    else
      var a := MostRecent(h[..|h| - 1]);
      var b := h[|h| - 1];
      if a.date > b.date then a else b
  }

  /** One turn of the `forEach` in GET: a member with attendance replaces
      `latest` when `latest` is unset or its most recent entry is later. */
  function Visit(latest: Option<Day>, m: Member): (r: Option<Day>)
    ensures r.None? <==> latest.None? && |m.attendanceHistory| == 0
    ensures r.Some? && r != latest ==>
              exists j | 0 <= j < |m.attendanceHistory| :: m.attendanceHistory[j].date == r.value
    ensures r.Some? && latest.Some? ==> latest.value <= r.value
    ensures r.Some? ==> forall j | 0 <= j < |m.attendanceHistory| :: m.attendanceHistory[j].date <= r.value
  {
    if |m.attendanceHistory| > 0 then
      var d := MostRecent(m.attendanceHistory).date;
      if latest.None? || d > latest.value then Some(d) else latest
    else latest
  }

  /** `latestDate` after the loop has visited `ms`: the latest attendance
      date over every member's history, or `None` (`null`) exactly when no
      member has an attendance entry. */
  function LatestAcross(ms: seq<Member>): (r: Option<Day>)
    ensures r.None? <==> forall i | 0 <= i < |ms| :: |ms[i].attendanceHistory| == 0
    ensures r.Some? ==>
              exists i, j | 0 <= i < |ms| && 0 <= j < |ms[i].attendanceHistory| ::
                ms[i].attendanceHistory[j].date == r.value
    ensures r.Some? ==>
              forall i, j | 0 <= i < |ms| && 0 <= j < |ms[i].attendanceHistory| ::
                ms[i].attendanceHistory[j].date <= r.value
  {
    if |ms| == 0 then None
    else
      var prev := LatestAcross(ms[..|ms| - 1]);
      assert forall i | 0 <= i < |ms| - 1 :: ms[..|ms| - 1][i] == ms[i];
      Visit(prev, ms[|ms| - 1])
  }

  /** The `forEach` of GET (lines 11-19), a running maximum. */
  method LatestAttendanceDate(members: seq<Member>) returns (latest: Option<Day>)
    ensures latest == LatestAcross(members)
  {
    latest := None;
    var i := 0;
    while i < |members|
      invariant 0 <= i <= |members|
      invariant latest == LatestAcross(members[..i])
    {
      ghost var before := latest;
      var history := members[i].attendanceHistory;
      if |history| > 0 {
        var mostRecent := MostRecent(history);
        if latest.None? || mostRecent.date > latest.value {
          latest := Some(mostRecent.date);
        }
      }
      assert latest == Visit(before, members[i]);
      LatestStep(members, i);
      i := i + 1;
    }
    assert members[..i] == members;
  }

  /** One more member visited: the running maximum takes one more step. */
  lemma LatestStep(ms: seq<Member>, i: nat)
    requires i < |ms|
    ensures LatestAcross(ms[..i + 1]) == Visit(LatestAcross(ms[..i]), ms[i])
  {
    assert ms[..i + 1][..i] == ms[..i];
  }

  /** `presentCount`: 0 without a `latestDate`; otherwise the number of
      members with an entry on that day marked present. */
  function PresentCount(ms: seq<Member>, latest: Option<Day>): (n: nat)
    ensures n <= |ms|
    ensures latest.None? ==> n == 0
    ensures latest.Some? ==>
              n == |set i | 0 <= i < |ms| && StatusUpdate.PresentOn(ms[i].attendanceHistory, latest.value)|
    ensures latest.Some? ==>
              (n == 0 <==> forall i | 0 <= i < |ms| ::
                             !StatusUpdate.PresentOn(ms[i].attendanceHistory, latest.value))
  {
    match latest
    case None => 0
    case Some(d) =>
      var present := (m: Member) => StatusUpdate.PresentOn(m.attendanceHistory, d);
      assert Passing(present, ms)
          == set i | 0 <= i < |ms| && StatusUpdate.PresentOn(ms[i].attendanceHistory, d);
      Count(present, ms)
  }

  /** Whoever counts as present on `latestDate` has that day as its own most
      recent attendance date. */
  lemma PresentOnLatest(ms: seq<Member>, i: nat)
    requires i < |ms| && LatestAcross(ms).Some?
    requires StatusUpdate.PresentOn(ms[i].attendanceHistory, LatestAcross(ms).value)
    ensures MostRecent(ms[i].attendanceHistory).date == LatestAcross(ms).value
  {
    var h := ms[i].attendanceHistory;
    var j :| 0 <= j < |h| && h[j].date == LatestAcross(ms).value && h[j].present;
    var k :| 0 <= k < |h| && h[k] == MostRecent(h);
    assert h[k].date <= LatestAcross(ms).value;
  }

  /** `followUpCount`: the members whose status is exactly `Needs Follow-up`. */
  function FollowUpCount(ms: seq<Member>): (n: nat)
    ensures n <= |ms|
    ensures n == |set i | 0 <= i < |ms| && ms[i].status == NeedsFollowUp|
    ensures n == 0 <==> forall i | 0 <= i < |ms| :: ms[i].status != NeedsFollowUp
  {
    var due := (m: Member) => m.status == NeedsFollowUp;
    assert Passing(due, ms) == set i | 0 <= i < |ms| && ms[i].status == NeedsFollowUp;
    Count(due, ms)
  }

  /** Right after a status pass that saved every member, `followUpCount` is
      the number of members that are not new and were not present on the
      reference day. */
  lemma FollowUpAfterPass(now: Instant, ms: seq<Member>)
    ensures FollowUpCount(StatusUpdate.ClassifyAll(now, ms)) ==
      Count((m: Member) =>
              !StatusUpdate.IsNew(now, m.joinDate) &&
              !StatusUpdate.PresentOn(m.attendanceHistory, DayOf(now) - (WeekDay(now) + 6) % 7),
            ms)
  {
    var after := StatusUpdate.ClassifyAll(now, ms);
    forall i | 0 <= i < |ms|
      ensures (after[i].status == NeedsFollowUp) ==
              (!StatusUpdate.IsNew(now, ms[i].joinDate) &&
               !StatusUpdate.PresentOn(ms[i].attendanceHistory, DayOf(now) - (WeekDay(now) + 6) % 7))
    {
      StatusUpdate.ClassifyOnDay(now, ms[i]);
    }
    CountAgree((m: Member) => m.status == NeedsFollowUp, after,
               (m: Member) =>
                 !StatusUpdate.IsNew(now, m.joinDate) &&
                 !StatusUpdate.PresentOn(m.attendanceHistory, DayOf(now) - (WeekDay(now) + 6) % 7),
               ms);
  }

  /** The JSON body GET answers with. */
  datatype Dashboard = Dashboard(
    members: seq<Member>,
    count: nat,
    presentCount: nat,
    followUpCount: nat,
    latestAttendanceDate: Option<Day>)

  /** `GET /api/members`. `found` is what `Member.find({}).lean()` gave: the
      stored members, or the error it threw, answered as a 500. */
  method Get(found: Result<seq<Member>>) returns (response: Http.Response<Dashboard>)
    ensures found.Failure? ==> response == Http.ErrorJson(500, found.error)
    ensures found.Success? ==> response.Json?
    ensures found.Success? ==>
              var ms := found.value;
              var body := response.body;
              body.members == ms && body.count == |ms| &&
              body.latestAttendanceDate == LatestAcross(ms) &&
              body.presentCount == PresentCount(ms, LatestAcross(ms)) &&
              body.followUpCount == FollowUpCount(ms)
  {
    match found
    case Failure(e) =>
      response := Http.ErrorJson(500, e);
    case Success(members) =>
      var count := |members|;
      var latestDate := LatestAttendanceDate(members);
      var presentCount := PresentCount(members, latestDate);
      var followUpCount := FollowUpCount(members);
      response := Http.Json(Dashboard(members, count, presentCount, followUpCount, latestDate));
  }

  /** The body of a POST, as far as the handler reads it. A date that is
      missing, `null` or empty is `None` (all three are falsy); `status` is
      `None` when missing or `null`, and may be the empty string;
      `attendanceHistory` is `None` when missing or `null` (an empty array is
      truthy and kept). `rest` holds every other field, by name. */
  datatype MemberBody = MemberBody(
    joinDate: Option<Day>,
    lastAttendance: Option<Day>,
    status: Option<string>,
    attendanceHistory: Option<seq<Attendance>>,
    rest: map<string, string>)

  /** `memberData`: the record handed to `Member.create`. */
  datatype MemberData = MemberData(
    joinDate: Day,
    lastAttendance: Day,
    status: string,
    attendanceHistory: seq<Attendance>,
    rest: map<string, string>)

  /** The fields that were given, as a body. */
  function AsBody(d: MemberData): MemberBody
  {
    MemberBody(Some(d.joinDate), Some(d.lastAttendance), Some(d.status),
               Some(d.attendanceHistory), d.rest)
  }

  /** `{ ...body, joinDate: body.joinDate || today, ... }`: a falsy date
      becomes today, a falsy status `New`, and a missing history one present
      entry dated the given `lastAttendance` or today. */
  function WithDefaults(body: MemberBody, today: Day): (r: MemberData)
    ensures r.joinDate == if body.joinDate.Some? then body.joinDate.value else today
    ensures r.lastAttendance == if body.lastAttendance.Some? then body.lastAttendance.value else today
    ensures body.status.Some? && body.status.value != "" ==> r.status == body.status.value
    ensures body.status.None? || body.status.value == "" ==> ParseStatus(r.status) == Some(DefaultStatus)
    ensures body.attendanceHistory.Some? ==> r.attendanceHistory == body.attendanceHistory.value
    ensures body.attendanceHistory.None? ==> r.attendanceHistory == [Attendance(r.lastAttendance, true)]
    ensures r.rest == body.rest
  {
    var day := if body.lastAttendance.Some? then body.lastAttendance.value else today;
    MemberData(
      if body.joinDate.Some? then body.joinDate.value else today,
      day,
      if body.status.Some? && body.status.value != "" then body.status.value else "New",
      if body.attendanceHistory.Some? then body.attendanceHistory.value else [Attendance(day, true)],
      body.rest)
  }

  /** Filling in the defaults again changes nothing, whatever the day: every
      field they touch is already set, and no status is left empty. */
  lemma DefaultsIdempotent(body: MemberBody, today: Day, later: Day)
    ensures WithDefaults(AsBody(WithDefaults(body, today)), later) == WithDefaults(body, today)
  {
    var once := WithDefaults(body, today);
    assert once.status != "" by {
      if body.status.None? || body.status.value == "" {
        assert once.status == "New";
      }
    }
  }

  /** `POST /api/members`. `request` is the parsed JSON body or the error
      `request.json()` threw; `create` stands for `Member.create`, which
      stores the record and returns the document, or throws (a schema
      violation, a lost connection). Today is the UTC date of `now`, as
      `toISOString().split('T')[0]` gives it. Any error is a 500 carrying
      its message. */
  function Post(request: Result<MemberBody>, now: Instant,
                create: MemberData -> Result<Member>): (r: Http.Response<Member>)
    ensures r.Json? || (r.ErrorJson? && r.status == 500)
    ensures request.Failure? ==> r == Http.ErrorJson(500, request.error)
    ensures request.Success? ==>
              var sent := create(WithDefaults(request.value, DayOf(now)));
              (r.Json? <==> sent.Success?) &&
              (r.Json? ==> r.body == sent.value) &&
              (r.ErrorJson? ==> r.error == sent.error)
  {
    match request
    case Failure(e) => Http.ErrorJson(500, e)
    case Success(body) =>
      match create(WithDefaults(body, DayOf(now)))
      case Success(member) => Http.Json(member)
      case Failure(e) => Http.ErrorJson(500, e)
  }
}
