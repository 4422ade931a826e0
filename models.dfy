/**
 * The schema: one datatype per table row, the choice lists of the
 * `role` and `status` columns with their defaults, the column ranges, and
 * the unique constraints as predicates over a table's rows.  Primary keys
 * (UUIDs) are strings; a table keyed by its primary key is a `map`, a table
 * whose rows are looked up by other columns is a `seq` of rows.
 */
module Models {
  import opened Wrappers
  import opened Seqs

  type Id = string

  // ---- User.role: choices "user" / "admin", default "user" ----

  datatype Role = UserRole | AdminRole

  const DefaultRole: Role := UserRole

  function RoleName(role: Role): string {
    match role
    case UserRole => "user"
    case AdminRole => "admin"
  }

  function ParseRole(text: string): (role: Option<Role>)
    ensures role.Some? <==> text == "user" || text == "admin"
    ensures role.Some? ==> RoleName(role.value) == text
  {
    if text == "user" then Some(UserRole)
    else if text == "admin" then Some(AdminRole)
    else None
  }

  /** The stored text of a role reads back as that role, and the two texts differ. */
  lemma RoleNamesRoundTrip(role: Role)
    ensures ParseRole(RoleName(role)) == Some(role)
    ensures RoleName(UserRole) != RoleName(AdminRole)
  {
  }

  // ---- Application status: choices pending / approved / rejected, default pending ----

  datatype Status = Pending | Approved | Rejected

  const DefaultStatus: Status := Pending

  function StatusName(status: Status): string {
    match status
    case Pending => "pending"
    case Approved => "approved"
    case Rejected => "rejected"
  }

  /** The status a PATCH body names, if it is one of the three choices. */
  function ParseStatus(text: string): (status: Option<Status>)
    ensures status.Some? <==> text in {"pending", "approved", "rejected"}
    ensures status.Some? ==> StatusName(status.value) == text
  {
    if text == "pending" then Some(Pending)
    else if text == "approved" then Some(Approved)
    else if text == "rejected" then Some(Rejected)
    else None
  }

  /** Every status is stored under a distinct text that reads back as itself. */
  lemma StatusNamesRoundTrip(status: Status, other: Status)
    ensures ParseStatus(StatusName(status)) == Some(status)
    ensures status != other ==> StatusName(status) != StatusName(other)
  {
  }

  // ---- Rows ----

  datatype User = User(account: string, password: string, role: Role)

  datatype School = School(name: string)

  /** `grade` is an opaque integer year code. */
  datatype Student = Student(school: Id, name: string, grade: int)

  datatype Rating = Rating(id: Id, rater: Id, target: Id, score: int, comment: string)

  /** One row per student, keyed by the student; the average is in hundredths. */
  datatype RatingSummary = RatingSummary(avgHundredths: int, count: nat)

  datatype StudentBadge = StudentBadge(id: Id, student: Id, badge: Id, period: string)

  datatype SchoolBadge = SchoolBadge(id: Id, school: Id, badge: Id, period: string)

  datatype LeaderboardEntry = LeaderboardEntry(id: Id, leaderboard: Id, student: Id, rank: int, scoreSnapshot: int)

  datatype SchoolApplication =
    SchoolApplication(applicant: Id, schoolName: string, contact: string, reason: string, status: Status)

  datatype StudentApplication =
    StudentApplication(applicant: Id, studentName: string, school: Id, grade: int, reason: string, status: Status)

  // ---- Column ranges ----

  /** The model-level validators of Rating.score (only `full_clean` runs them). */
  predicate ValidScore(score: int) {
    1 <= score <= 5
  }

  /** What the score column itself admits: a positive small integer field is checked `>= 0` by the database. */
  predicate ScoreColumnAccepts(score: int) {
    score >= 0
  }

  /** What the avg_score column admits: at most 3 digits, 2 of them decimals, so -9.99 .. 9.99. */
  predicate AvgColumnAccepts(hundredths: int) {
    -999 <= hundredths <= 999
  }

  // ---- Unique constraints ----

  /** `account` is unique among users. */
  predicate AccountsUnique(users: map<Id, User>) {
    forall u, v :: u in users && v in users && users[u].account == users[v].account ==> u == v
  }

  /** `school_name` is unique among schools (exact, case-sensitive comparison). */
  predicate SchoolNamesUnique(schools: map<Id, School>) {
    forall s, t :: s in schools && t in schools && schools[s].name == schools[t].name ==> s == t
  }

  predicate SamePair(r: Rating, rater: Id, target: Id) {
    r.rater == rater && r.target == target
  }

  /** unique_rating_per_target: no two ratings share (rater, target). */
  predicate RatingPairsUnique(rs: seq<Rating>) {
    forall i, j :: 0 <= i < j < |rs| ==> !SamePair(rs[j], rs[i].rater, rs[i].target)
  }

  /** rating_id is the primary key of the rating table. */
  predicate RatingIdsUnique(rs: seq<Rating>) {
    forall i, j :: 0 <= i < j < |rs| ==> rs[i].id != rs[j].id
  }

  /** The ratings a rater gave a target, in table order. */
  function PairRatings(rs: seq<Rating>, rater: Id, target: Id): seq<Rating> {
    if rs == [] then []
    else (if SamePair(rs[0], rater, target) then [rs[0]] else []) + PairRatings(rs[1..], rater, target)
  }

  /** Under unique_rating_per_target a rater has at most one rating of a student. */
  lemma {:induction false} AtMostOneRatingPerPair(rs: seq<Rating>, rater: Id, target: Id)
    requires RatingPairsUnique(rs)
    ensures |PairRatings(rs, rater, target)| <= 1
  {
    if rs != [] {
      assert RatingPairsUnique(rs[1..]) by {
        forall i, j | 0 <= i < j < |rs[1..]| ensures !SamePair(rs[1..][j], rs[1..][i].rater, rs[1..][i].target) {
          assert rs[1..][i] == rs[i + 1] && rs[1..][j] == rs[j + 1];
        }
      }
      AtMostOneRatingPerPair(rs[1..], rater, target);
      if SamePair(rs[0], rater, target) {
        NoOtherRatingForPair(rs, rater, target);
      }
    }
  }

  /** When the first row holds the pair, the rest of a unique table does not. */
  lemma {:induction false} NoOtherRatingForPair(rs: seq<Rating>, rater: Id, target: Id)
    requires RatingPairsUnique(rs) && rs != [] && SamePair(rs[0], rater, target)
    ensures PairRatings(rs[1..], rater, target) == []
  {
    var rest := rs[1..];
    forall k | 0 <= k < |rest| ensures !SamePair(rest[k], rater, target) {
      assert rest[k] == rs[k + 1];
    }
    NoMatchNoPairRatings(rest, rater, target);
  }

  lemma {:induction false} NoMatchNoPairRatings(rs: seq<Rating>, rater: Id, target: Id)
    requires forall k :: 0 <= k < |rs| ==> !SamePair(rs[k], rater, target)
    ensures PairRatings(rs, rater, target) == []
  {
    if rs != [] {
      NoMatchNoPairRatings(rs[1..], rater, target);
    }
  }

  /** The (student, badge, period) key of each student badge row. */
  function StudentBadgeKeys(bs: seq<StudentBadge>): (keys: seq<(Id, Id, string)>)
    ensures |keys| == |bs|
    ensures forall i :: 0 <= i < |bs| ==> keys[i] == (bs[i].student, bs[i].badge, bs[i].period)
  {
    seq(|bs|, i requires 0 <= i < |bs| => (bs[i].student, bs[i].badge, bs[i].period))
  }

  /** unique_student_badge_period */
  predicate StudentBadgesUnique(bs: seq<StudentBadge>) {
    Distinct(StudentBadgeKeys(bs))
  }

  /** A badge is awarded to a student at most once per period. */
  lemma OneStudentBadgePerPeriod(bs: seq<StudentBadge>, student: Id, badge: Id, period: string)
    requires StudentBadgesUnique(bs)
    ensures multiset(StudentBadgeKeys(bs))[(student, badge, period)] <= 1
  {
    DistinctOccursOnce(StudentBadgeKeys(bs), (student, badge, period));
  }

  /** The (school, badge, period) key of each school badge row. */
  function SchoolBadgeKeys(bs: seq<SchoolBadge>): (keys: seq<(Id, Id, string)>)
    ensures |keys| == |bs|
    ensures forall i :: 0 <= i < |bs| ==> keys[i] == (bs[i].school, bs[i].badge, bs[i].period)
  {
    seq(|bs|, i requires 0 <= i < |bs| => (bs[i].school, bs[i].badge, bs[i].period))
  }

  /** unique_school_badge_period */
  predicate SchoolBadgesUnique(bs: seq<SchoolBadge>) {
    Distinct(SchoolBadgeKeys(bs))
  }

  /** A badge is awarded to a school at most once per period. */
  lemma OneSchoolBadgePerPeriod(bs: seq<SchoolBadge>, school: Id, badge: Id, period: string)
    requires SchoolBadgesUnique(bs)
    ensures multiset(SchoolBadgeKeys(bs))[(school, badge, period)] <= 1
  {
    DistinctOccursOnce(SchoolBadgeKeys(bs), (school, badge, period));
  }

  /** The (leaderboard, student) key of each snapshot entry. */
  function EntryKeys(es: seq<LeaderboardEntry>): (keys: seq<(Id, Id)>)
    ensures |keys| == |es|
    ensures forall i :: 0 <= i < |es| ==> keys[i] == (es[i].leaderboard, es[i].student)
  {
    seq(|es|, i requires 0 <= i < |es| => (es[i].leaderboard, es[i].student))
  }

  /** unique_leaderboard_student */
  predicate EntriesUnique(es: seq<LeaderboardEntry>) {
    Distinct(EntryKeys(es))
  }

  /** A student appears at most once on each stored leaderboard. */
  lemma OneEntryPerStudent(es: seq<LeaderboardEntry>, leaderboard: Id, student: Id)
    requires EntriesUnique(es)
    ensures multiset(EntryKeys(es))[(leaderboard, student)] <= 1
  {
    DistinctOccursOnce(EntryKeys(es), (leaderboard, student));
  }
}
