/** The list logic of the members table, components/members-data-table.js:
    the tab filter, the search box and the avatar initials. Its rows are the
    table's own records (lower-case statuses, split names), not stored
    members. */
module MembersTable {
  import opened Wrappers
  import opened Calendar
  import opened Seqs

  /** A row of the table. `lastFollowUp` is `None` when it is missing or
      empty. */
  datatype TableMember = TableMember(
    firstName: string,
    lastName: string,
    email: string,
    phone: string,
    status: string,
    lastFollowUp: Option<Instant>)

  /** Members not followed up for this many days show under the follow-up tab. */
  const FollowUpDays: int := 14

  /** The follow-up tab's test: inactive, never followed up, or followed up
      more than 14 days before `now`. */
  predicate FollowUpDue(now: Instant, m: TableMember)
  {
    m.status == "inactive" || m.lastFollowUp.None? ||
    m.lastFollowUp.value < now - FollowUpDays * MsPerDay
  }

  /** The list a tab shows: `"new"` keeps the members with status `"new"`,
      `"followup"` those whose follow-up is due; any other tab, `"all"`
      included, shows every member. */
  function TabFilter(filter: string, members: seq<TableMember>, now: Instant): (r: seq<TableMember>)
    ensures IsSubsequence(r, members)
    ensures filter == "new" ==>
              (forall i | 0 <= i < |r| :: r[i].status == "new") &&
              (forall i | 0 <= i < |members| :: members[i].status == "new" ==> members[i] in r) &&
              |r| == |set i | 0 <= i < |members| && members[i].status == "new"|
    ensures filter == "followup" ==>
              (forall i | 0 <= i < |r| :: FollowUpDue(now, r[i])) &&
              (forall i | 0 <= i < |members| :: FollowUpDue(now, members[i]) ==> members[i] in r) &&
              |r| == |set i | 0 <= i < |members| && FollowUpDue(now, members[i])|
    ensures filter != "new" && filter != "followup" ==> r == members
  {
    if filter == "new" then
      var isNew := (m: TableMember) => m.status == "new";
      FilterSize(isNew, members);
      assert Passing(isNew, members) == set i | 0 <= i < |members| && members[i].status == "new";
      Filter(isNew, members)
    else if filter == "followup" then
      var due := (m: TableMember) => FollowUpDue(now, m);
      FilterSize(due, members);
      assert Passing(due, members) == set i | 0 <= i < |members| && FollowUpDue(now, members[i]);
      Filter(due, members)
    else
      SubsequenceOfItself(members);
      members
  }

  /** `toLowerCase` on one character, ASCII letters only. */
  function LowerChar(c: char): (l: char)
    ensures !('A' <= l <= 'Z')
  {
    if 'A' <= c <= 'Z' then (c as int + 32) as char else c
  }

  /** `toUpperCase` on one character, ASCII letters only. */
  function UpperChar(c: char): (u: char)
    ensures !('a' <= u <= 'z')
    ensures LowerChar(u) == LowerChar(c)
  {
    if 'a' <= c <= 'z' then (c as int - 32) as char else c
  }

  function Lower(s: string): (r: string)
    ensures |r| == |s| && forall i | 0 <= i < |s| :: r[i] == LowerChar(s[i])
  {
    seq(|s|, i requires 0 <= i < |s| => LowerChar(s[i]))
  }

  function Upper(s: string): (r: string)
    ensures |r| == |s| && forall i | 0 <= i < |s| :: r[i] == UpperChar(s[i])
  {
    seq(|s|, i requires 0 <= i < |s| => UpperChar(s[i]))
  }

  /** `s.includes(q)`, searching from the left. */
  predicate Includes(s: string, q: string)
  {
    q <= s || (|s| > 0 && Includes(s[1..], q))
  }

  /** `q` occurs in `s` starting at position `i`. */
  predicate OccursAt(s: string, q: string, i: int)
  {
    0 <= i <= |s| - |q| && s[i..i + |q|] == q
  }

  /** `includes` finds exactly the substrings: `q` occurs in `s` at some
      position. */
  lemma {:induction false} IncludesIff(s: string, q: string)
    ensures Includes(s, q) <==> exists i :: OccursAt(s, q, i)
  {
    if q <= s {
      assert OccursAt(s, q, 0);
    } else if |s| > 0 {
      IncludesIff(s[1..], q);
      if Includes(s[1..], q) {
        var i :| OccursAt(s[1..], q, i);
        assert s[i + 1..i + 1 + |q|] == s[1..][i..i + |q|];
        assert OccursAt(s, q, i + 1);
      }
      if exists i :: OccursAt(s, q, i) {
        var i :| OccursAt(s, q, i);
        assert i != 0;
        assert s[1..][i - 1..i - 1 + |q|] == s[i..i + |q|];
        assert OccursAt(s[1..], q, i - 1);
      }
    }
  }

  /** The search box's test for a non-empty query: a case-blind match in the
      first name, last name or email, or a case-sensitive match in the phone. */
  predicate MatchesSearch(m: TableMember, query: string)
  {
    Includes(Lower(m.firstName), Lower(query)) ||
    Includes(Lower(m.lastName), Lower(query)) ||
    Includes(Lower(m.email), Lower(query)) ||
    Includes(m.phone, query)
  }

  /** The rows the table shows: every member when the query is empty,
      otherwise those matching it, in their order. */
  function Search(members: seq<TableMember>, query: string): (r: seq<TableMember>)
    ensures IsSubsequence(r, members)
    ensures query == "" ==> r == members
    ensures query != "" ==>
              (forall i | 0 <= i < |r| :: MatchesSearch(r[i], query)) &&
              (forall i | 0 <= i < |members| :: MatchesSearch(members[i], query) ==> members[i] in r) &&
              |r| == |set i | 0 <= i < |members| && MatchesSearch(members[i], query)|
  {
    var keep := (m: TableMember) => query == "" || MatchesSearch(m, query);
    if query == "" then
      FilterKeepsAll(keep, members);
      Filter(keep, members)
    else
      FilterSize(keep, members);
      assert Passing(keep, members) == set i | 0 <= i < |members| && MatchesSearch(members[i], query);
      Filter(keep, members)
  }

  /** `(firstName[0] + lastName[0]).toUpperCase()`. On an empty name JavaScript
      reads `undefined`, which concatenates as the text "undefined"; with both
      names empty the sum is `NaN`, a number, and `toUpperCase` throws. */
  function GetInitials(firstName: string, lastName: string): (r: Result<string>)
    ensures r.Failure? <==> firstName == "" && lastName == ""
    ensures firstName != "" && lastName != "" ==>
              r.Success? && |r.value| == 2 &&
              Lower(r.value) == [LowerChar(firstName[0]), LowerChar(lastName[0])] &&
              forall i | 0 <= i < 2 :: !('a' <= r.value[i] <= 'z')
    ensures firstName == "" && lastName != "" ==> r == Success("UNDEFINED" + [UpperChar(lastName[0])])
    ensures firstName != "" && lastName == "" ==> r == Success([UpperChar(firstName[0])] + "UNDEFINED")
  {
    if firstName == "" && lastName == "" then
      Failure("TypeError: (firstName[0] + lastName[0]).toUpperCase is not a function")
    else
      var f := if firstName == "" then "undefined" else [firstName[0]];
      var l := if lastName == "" then "undefined" else [lastName[0]];
      assert Upper("undefined") == "UNDEFINED";
      assert firstName != "" ==> Upper(f) == [UpperChar(firstName[0])];
      assert lastName != "" ==> Upper(l) == [UpperChar(lastName[0])];
      UpperConcat(f, l);
      Success(Upper(f + l))
  }

  /** Upper-casing a concatenation upper-cases each part. */
  lemma UpperConcat(a: string, b: string)
    ensures Upper(a + b) == Upper(a) + Upper(b)
  {
  }
}
