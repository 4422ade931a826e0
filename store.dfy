/**
 * The database behind the views and the views that write it: registration,
 * login, the rating submission with its summary recomputation, the two
 * application workflows, and the leaderboard read.  Each view runs as one
 * step on the tables; a database error inside a transaction rolls it back,
 * which the model reports as `Crash` with the tables unchanged.
 */
module Store {
  import opened Wrappers
  import opened Seqs
  import opened Utils
  import opened Models
  import Ratings
  import Applications
  import Leaderboard

  /** The `data` part of a successful answer. */
  datatype Data =
    | UserData(userId: Id, account: string, role: string)
    | RatingData(ratingId: Id)
    | ApplicationData(applicationId: Id, status: Option<string>)
    | StudentBoardData(students: seq<Leaderboard.RankedStudent>)
    | SchoolBoardData(schools: seq<Leaderboard.SchoolEntry>)

  /** A view's outcome: an answer, or an exception the framework turns into a server error. */
  datatype Reply = Api(response: Response<Data>) | Crash

  /** A body field that Python treats as true: present, not null, not empty. */
  predicate Given(field: Option<string>) {
    field.Some? && field.value != ""
  }

  /** A number field that Python treats as true: present, not null, not zero. */
  predicate GivenNumber(field: Option<int>) {
    field.Some? && field.value != 0
  }

  /** `_user_payload`. */
  function UserPayload(id: Id, user: User): (d: Data)
    ensures d.UserData? && d.userId == id && d.account == user.account
    ensures ParseRole(d.role) == Some(user.role)
  {
    RoleNamesRoundTrip(user.role);
    UserData(id, user.account, RoleName(user.role))
  }

  /** The check `not (rater_id and target_id and score)` lets a request through. */
  predicate RatingFormComplete(raterId: Option<Id>, targetId: Option<Id>, score: Option<int>) {
    Given(raterId) && Given(targetId) && GivenNumber(score)
  }

  /**
   * The form check admits any non-zero score: 6 and -1 get past it, and the
   * 1..5 validators on the model are never run by the view.
   */
  lemma FormAdmitsScoresOutsideRange()
    ensures RatingFormComplete(Some("u"), Some("s"), Some(6)) && !ValidScore(6)
    ensures RatingFormComplete(Some("u"), Some("s"), Some(-1)) && !ValidScore(-1)
    ensures !RatingFormComplete(Some("u"), Some("s"), Some(0))
  {
  }

  // ---- Table invariants ----

  /**
   * The rating and summary tables: foreign keys, the score column check, the
   * (rater, target) and primary-key constraints, and every summary equal to
   * the aggregate of its student's current ratings.
   */
  predicate RatingsConsistent(users: map<Id, User>, students: map<Id, Student>, rs: seq<Rating>, summaries: map<Id, RatingSummary>) {
    && (forall k :: 0 <= k < |rs| ==>
          rs[k].rater in users && rs[k].target in students && ScoreColumnAccepts(rs[k].score) && rs[k].target in summaries)
    && RatingPairsUnique(rs)
    && RatingIdsUnique(rs)
    && (forall t :: t in summaries ==>
          t in students && summaries[t] == Ratings.Aggregate(rs, t) && AvgColumnAccepts(summaries[t].avgHundredths))
  }

  /**
   * The view's write keeps the tables consistent: the upsert keeps the keys
   * unique, only the target's scores change, and its summary is rewritten.
   */
  lemma {:induction false} RatingWriteKeepsConsistent(users: map<Id, User>, students: map<Id, Student>, rs: seq<Rating>, summaries: map<Id, RatingSummary>,
      rater: Id, target: Id, score: int, comment: string, freshId: Id)
    requires RatingsConsistent(users, students, rs, summaries)
    requires rater in users && target in students && ScoreColumnAccepts(score)
    requires freshId !in Ratings.IdsOf(rs)
    requires AvgColumnAccepts(Ratings.Aggregate(Ratings.Upsert(rs, rater, target, score, comment, freshId), target).avgHundredths)
    ensures var next := Ratings.Upsert(rs, rater, target, score, comment, freshId);
      RatingsConsistent(users, students, next, summaries[target := Ratings.Aggregate(next, target)])
  {
    var next := Ratings.Upsert(rs, rater, target, score, comment, freshId);
    var summaries' := summaries[target := Ratings.Aggregate(next, target)];
    Ratings.UpsertRows(rs, rater, target, score, comment, freshId);
    forall k | 0 <= k < |next|
      ensures next[k].rater in users && next[k].target in students && ScoreColumnAccepts(next[k].score) && next[k].target in summaries'
    {
      assert next[k] in next;
      if next[k] in rs {
        var m :| 0 <= m < |rs| && rs[m] == next[k];
      }
    }
    Ratings.UpsertKeepsPairsUnique(rs, rater, target, score, comment, freshId);
    forall k | 0 <= k < |rs| ensures rs[k].id != freshId {
      assert rs[k].id in Ratings.IdsOf(rs);
    }
    Ratings.UpsertKeepsIdsUnique(rs, rater, target, score, comment, freshId);
    forall t | t in summaries' && t != target ensures summaries'[t] == Ratings.Aggregate(next, t) {
      Ratings.UpsertKeepsOtherTargets(rs, rater, target, score, comment, freshId, t);
    }
  }

  /** Applications point at existing users, and student applications at existing schools. */
  predicate ApplicationsConsistent(users: map<Id, User>, schools: map<Id, School>,
      schoolApps: map<Id, SchoolApplication>, studentApps: map<Id, StudentApplication>) {
    && (forall a :: a in schoolApps ==> schoolApps[a].applicant in users)
    && (forall a :: a in studentApps ==> studentApps[a].applicant in users && studentApps[a].school in schools)
  }

  /** The tables a view sees and changes. */
  class Store {
    var users: map<Id, User>
    var schools: map<Id, School>
    var students: map<Id, Student>
    var ratings: seq<Rating>
    var summaries: map<Id, RatingSummary>
    var schoolApps: map<Id, SchoolApplication>
    var studentApps: map<Id, StudentApplication>

    /**
     * The constraints of the schema, plus what only the views guarantee:
     * summaries agree with ratings, and approval never duplicates a student.
     */
    ghost predicate Valid()
      reads this
    {
      && AccountsUnique(users)
      && SchoolNamesUnique(schools)
      && (forall s :: s in students ==> students[s].school in schools)
      && Applications.StudentsDistinct(students)
      && RatingsConsistent(users, students, ratings, summaries)
      && ApplicationsConsistent(users, schools, schoolApps, studentApps)
    }

    /** The freshly migrated, empty database. */
    constructor ()
      ensures Valid()
      ensures users == map[] && schools == map[] && students == map[] && ratings == []
      ensures summaries == map[] && schoolApps == map[] && studentApps == map[]
    {
      users, schools, students, ratings := map[], map[], map[], [];
      summaries, schoolApps, studentApps := map[], map[], map[];
    }

    /**
     * `register_view`: both fields must be given and the account unused;
     * the new user has role "user".
     */
    method Register(account: Option<string>, password: Option<string>, freshId: Id) returns (r: Response<Data>)
      requires Valid() && freshId !in users
      modifies this
      ensures Valid()
      ensures !Given(account) || !Given(password) ==> r == Failure(400, "account 和 password 必填") && unchanged(this)
      ensures Given(account) && Given(password) && (exists u :: u in old(users) && old(users)[u].account == account.value) ==>
        r == Failure(400, "账号已存在") && unchanged(this)
      ensures Given(account) && Given(password) && (forall u :: u in old(users) ==> old(users)[u].account != account.value) ==>
        && users == old(users)[freshId := User(account.value, password.value, DefaultRole)]
        && r == ApiResponse(200, "注册成功", Some(UserPayload(freshId, users[freshId])), None)
        && schools == old(schools) && students == old(students) && ratings == old(ratings)
        && summaries == old(summaries) && schoolApps == old(schoolApps) && studentApps == old(studentApps)
    {
      if !Given(account) || !Given(password) {
        return Failure(400, "account 和 password 必填");
      }
      if exists u :: u in users && users[u].account == account.value {
        return Failure(400, "账号已存在");
      }
      users := users[freshId := User(account.value, password.value, DefaultRole)];
      r := ApiResponse(200, "注册成功", Some(UserPayload(freshId, users[freshId])), None);
    }

    /**
     * `login_view`: succeeds exactly when some user has this account and
     * password, and answers with that user; it leaves the session alone.
     */
    method Login(account: Option<string>, password: Option<string>) returns (r: Response<Data>)
      requires AccountsUnique(users)
      ensures r.status == 200 || r.status == 401
      ensures r.status == 200 <==> exists u :: u in users && Some(users[u].account) == account && Some(users[u].password) == password
      ensures r.status == 200 ==> exists u :: u in users && Some(users[u].account) == account && r == ApiResponse(200, "登录成功", Some(UserPayload(u, users[u])), None)
      ensures r.status == 200 ==> r.data.Some? && r.data.value.UserData? && Some(r.data.value.account) == account
      ensures r.status == 401 ==> r == Failure(401, "账号或密码错误")
    {
      if u :| u in users && Some(users[u].account) == account && Some(users[u].password) == password {
        r := ApiResponse(200, "登录成功", Some(UserPayload(u, users[u])), None);
      } else {
        r := Failure(401, "账号或密码错误");
      }
    }

    /**
     * `ratings_view` (POST): the form check, the lookups, then in one
     * transaction the upsert and the recomputed summary.  The transaction
     * fails, leaving the tables as they were, when the score column rejects
     * a negative score or the new average does not fit the avg_score column.
     */
    method SubmitRating(raterId: Option<Id>, targetId: Option<Id>, score: Option<int>, comment: string, freshId: Id) returns (r: Reply)
      requires Valid() && freshId !in Ratings.IdsOf(ratings)
      modifies this
      ensures Valid()
      ensures !RatingFormComplete(raterId, targetId, score) ==>
        r == Api(Failure(400, "rater_id, target_id, score 必填")) && unchanged(this)
      ensures RatingFormComplete(raterId, targetId, score) && (raterId.value !in old(users) || targetId.value !in old(students)) ==>
        r == Api(Failure(404, "用户或学生不存在")) && unchanged(this)
      ensures RatingFormComplete(raterId, targetId, score) && raterId.value in old(users) && targetId.value in old(students) ==>
        var next := Ratings.Upsert(old(ratings), raterId.value, targetId.value, score.value, comment, freshId);
        var summary := Ratings.Aggregate(next, targetId.value);
        if ScoreColumnAccepts(score.value) && AvgColumnAccepts(summary.avgHundredths) then
          && r == Api(Success(RatingData(Ratings.UpsertedId(old(ratings), raterId.value, targetId.value, freshId))))
          && ratings == next && summaries == old(summaries)[targetId.value := summary]
        else
          r == Crash && ratings == old(ratings) && summaries == old(summaries)
      ensures users == old(users) && schools == old(schools) && students == old(students)
      ensures schoolApps == old(schoolApps) && studentApps == old(studentApps)
      ensures r.Crash? || r.response.status != 200 ==> ratings == old(ratings) && summaries == old(summaries)
    {
      if !RatingFormComplete(raterId, targetId, score) {
        return Api(Failure(400, "rater_id, target_id, score 必填"));
      }
      var rater, target, value := raterId.value, targetId.value, score.value;
      if rater !in users || target !in students {
        return Api(Failure(404, "用户或学生不存在"));
      }
      r := SaveRating(rater, target, value, comment, freshId);
    }

    /**
     * The transaction of `ratings_view`: `update_or_create` on the rating,
     * then the target's summary recomputed from all its ratings.
     */
    method SaveRating(rater: Id, target: Id, score: int, comment: string, freshId: Id) returns (r: Reply)
      requires Valid() && freshId !in Ratings.IdsOf(ratings)
      requires rater in users && target in students
      modifies this
      ensures Valid()
      ensures var next := Ratings.Upsert(old(ratings), rater, target, score, comment, freshId);
        var summary := Ratings.Aggregate(next, target);
        if ScoreColumnAccepts(score) && AvgColumnAccepts(summary.avgHundredths) then
          && r == Api(Success(RatingData(Ratings.UpsertedId(old(ratings), rater, target, freshId))))
          && ratings == next && summaries == old(summaries)[target := summary]
        else
          r == Crash && ratings == old(ratings) && summaries == old(summaries)
      ensures users == old(users) && schools == old(schools) && students == old(students)
      ensures schoolApps == old(schoolApps) && studentApps == old(studentApps)
    {
      var next, ratingId := Ratings.UpdateOrCreate(ratings, rater, target, score, comment, freshId);
      var summary := Ratings.Aggregate(next, target);
      if !ScoreColumnAccepts(score) || !AvgColumnAccepts(summary.avgHundredths) {
        return Crash;
      }
      CommitRating(rater, target, score, comment, freshId);
      r := Api(Success(RatingData(ratingId)));
    }

    /** The two writes of the transaction: the upserted rating and the target's new summary row. */
    method CommitRating(rater: Id, target: Id, score: int, comment: string, freshId: Id)
      requires Valid() && freshId !in Ratings.IdsOf(ratings)
      requires rater in users && target in students && ScoreColumnAccepts(score)
      requires AvgColumnAccepts(Ratings.Aggregate(Ratings.Upsert(ratings, rater, target, score, comment, freshId), target).avgHundredths)
      modifies this
      ensures Valid()
      ensures ratings == Ratings.Upsert(old(ratings), rater, target, score, comment, freshId)
      ensures summaries == old(summaries)[target := Ratings.Aggregate(ratings, target)]
      ensures users == old(users) && schools == old(schools) && students == old(students)
      ensures schoolApps == old(schoolApps) && studentApps == old(studentApps)
    {
      RatingWriteKeepsConsistent(users, students, ratings, summaries, rater, target, score, comment, freshId);
      var next := Ratings.Upsert(ratings, rater, target, score, comment, freshId);
      ratings, summaries := next, summaries[target := Ratings.Aggregate(next, target)];
    }

    /**
     * `school_applications_view` (POST): applicant, school name and contact
     * are required; a missing reason is stored as "".  The application starts
     * pending.
     */
    method SubmitSchoolApplication(applicantId: Option<Id>, schoolName: Option<string>, contact: Option<string>, reason: Option<string>, freshId: Id)
      returns (r: Response<Data>)
      requires Valid() && freshId !in schoolApps
      modifies this
      ensures Valid()
      ensures !Given(applicantId) || !Given(schoolName) || !Given(contact) ==> r == Failure(400, "缺少必填字段") && unchanged(this)
      ensures Given(applicantId) && Given(schoolName) && Given(contact) && applicantId.value !in old(users) ==>
        r == Failure(404, "applicant 不存在") && unchanged(this)
      ensures Given(applicantId) && Given(schoolName) && Given(contact) && applicantId.value in old(users) ==>
        && schoolApps == old(schoolApps)[freshId := SchoolApplication(applicantId.value, schoolName.value, contact.value,
             if Given(reason) then reason.value else "", DefaultStatus)]
        && r == Success(ApplicationData(freshId, None))
        && users == old(users) && schools == old(schools) && students == old(students) && ratings == old(ratings)
        && summaries == old(summaries) && studentApps == old(studentApps)
    {
      if !Given(applicantId) || !Given(schoolName) || !Given(contact) {
        return Failure(400, "缺少必填字段");
      }
      if applicantId.value !in users {
        return Failure(404, "applicant 不存在");
      }
      schoolApps := schoolApps[freshId := SchoolApplication(applicantId.value, schoolName.value, contact.value,
        if Given(reason) then reason.value else "", DefaultStatus)];
      r := Success(ApplicationData(freshId, None));
    }

    /**
     * `school_application_detail_view` (PATCH): any of the three statuses may
     * be set, "pending" included and again after a decision; an approval
     * creates the school unless its name is taken ignoring case.
     */
    method DecideSchoolApplication(applicationId: Id, status: Option<string>, freshSchoolId: Id) returns (r: Response<Data>)
      requires Valid() && freshSchoolId !in schools
      modifies this
      ensures Valid()
      ensures applicationId !in old(schoolApps) ==> r == Failure(404, "申请不存在") && unchanged(this)
      ensures applicationId in old(schoolApps) && (status.None? || ParseStatus(status.value).None?) ==>
        r == Failure(400, "非法状态") && unchanged(this)
      ensures applicationId in old(schoolApps) && status.Some? && ParseStatus(status.value).Some? ==>
        var decision := ParseStatus(status.value).value;
        var app := old(schoolApps)[applicationId];
        && schoolApps == old(schoolApps)[applicationId := app.(status := decision)]
        && schools == Applications.OnboardSchool(old(schools), app.schoolName, decision, freshSchoolId)
        && r == Success(ApplicationData(applicationId, Some(StatusName(decision))))
        && users == old(users) && students == old(students) && ratings == old(ratings)
        && summaries == old(summaries) && studentApps == old(studentApps)
    {
      if applicationId !in schoolApps {
        return Failure(404, "申请不存在");
      }
      if status.None? || ParseStatus(status.value).None? {
        return Failure(400, "非法状态");
      }
      var decision := ParseStatus(status.value).value;
      var app := schoolApps[applicationId];
      Applications.OnboardSchoolKeepsNamesUnique(schools, app.schoolName, decision, freshSchoolId);
      schoolApps := schoolApps[applicationId := app.(status := decision)];
      schools := Applications.OnboardSchool(schools, app.schoolName, decision, freshSchoolId);
      r := Success(ApplicationData(applicationId, Some(StatusName(decision))));
    }

    /**
     * `student_applications_view` (POST): applicant, student name, school and
     * a non-zero grade are required; the applicant and the school must exist.
     */
    method SubmitStudentApplication(applicantId: Option<Id>, studentName: Option<string>, schoolId: Option<Id>, grade: Option<int>,
        reason: Option<string>, freshId: Id) returns (r: Response<Data>)
      requires Valid() && freshId !in studentApps
      modifies this
      ensures Valid()
      ensures !Given(applicantId) || !Given(studentName) || !Given(schoolId) || !GivenNumber(grade) ==>
        r == Failure(400, "缺少必填字段") && unchanged(this)
      ensures Given(applicantId) && Given(studentName) && Given(schoolId) && GivenNumber(grade)
        && (applicantId.value !in old(users) || schoolId.value !in old(schools))
        ==> r == Failure(404, "applicant 或 school 不存在") && unchanged(this)
      ensures Given(applicantId) && Given(studentName) && Given(schoolId) && GivenNumber(grade)
        && applicantId.value in old(users) && schoolId.value in old(schools)
        ==> (&& studentApps == old(studentApps)[freshId := StudentApplication(applicantId.value, studentName.value, schoolId.value,
               grade.value, if Given(reason) then reason.value else "", DefaultStatus)]
             && r == Success(ApplicationData(freshId, None))
             && users == old(users) && schools == old(schools) && students == old(students) && ratings == old(ratings)
             && summaries == old(summaries) && schoolApps == old(schoolApps))
    {
      if !Given(applicantId) || !Given(studentName) || !Given(schoolId) || !GivenNumber(grade) {
        return Failure(400, "缺少必填字段");
      }
      if applicantId.value !in users || schoolId.value !in schools {
        return Failure(404, "applicant 或 school 不存在");
      }
      studentApps := studentApps[freshId := StudentApplication(applicantId.value, studentName.value, schoolId.value,
        grade.value, if Given(reason) then reason.value else "", DefaultStatus)];
      r := Success(ApplicationData(freshId, None));
    }

    /**
     * `student_application_detail_view` (PATCH): sets the status; an approval
     * creates the student unless one with the same name, school and grade
     * exists.
     */
    method DecideStudentApplication(applicationId: Id, status: Option<string>, freshStudentId: Id) returns (r: Response<Data>)
      requires Valid() && freshStudentId !in students
      modifies this
      ensures Valid()
      ensures applicationId !in old(studentApps) ==> r == Failure(404, "申请不存在") && unchanged(this)
      ensures applicationId in old(studentApps) && (status.None? || ParseStatus(status.value).None?) ==>
        r == Failure(400, "非法状态") && unchanged(this)
      ensures applicationId in old(studentApps) && status.Some? && ParseStatus(status.value).Some? ==>
        var decision := ParseStatus(status.value).value;
        var app := old(studentApps)[applicationId];
        && studentApps == old(studentApps)[applicationId := app.(status := decision)]
        && students == Applications.OnboardStudent(old(students), app.studentName, app.school, app.grade, decision, freshStudentId)
        && r == Success(ApplicationData(applicationId, Some(StatusName(decision))))
        && users == old(users) && schools == old(schools) && ratings == old(ratings)
        && summaries == old(summaries) && schoolApps == old(schoolApps)
    {
      if applicationId !in studentApps {
        return Failure(404, "申请不存在");
      }
      if status.None? || ParseStatus(status.value).None? {
        return Failure(400, "非法状态");
      }
      var decision := ParseStatus(status.value).value;
      var app := studentApps[applicationId];
      Applications.OnboardStudentKeepsDistinct(students, app.studentName, app.school, app.grade, decision, freshStudentId);
      studentApps := studentApps[applicationId := app.(status := decision)];
      students := Applications.OnboardStudent(students, app.studentName, app.school, app.grade, decision, freshStudentId);
      r := Success(ApplicationData(applicationId, Some(StatusName(decision))));
    }

    /**
     * `leaderboard_view`: the school board for `type=school`, the student
     * board for anything else (the default is "all").  `scan` is the order
     * the database reads students in and `groups` the order of its school
     * groups.
     */
    method Board(boardType: Option<string>, scan: seq<Id>, groups: seq<Id>) returns (r: Response<Data>)
      requires Distinct(scan) && forall id :: id in students <==> id in scan
      requires Distinct(groups) && forall g :: g in groups <==> g in Leaderboard.SchoolsOf(scan, students)
      ensures r.status == 200 && r.data.Some?
      ensures boardType == Some("school") ==>
        && r.data.value.SchoolBoardData?
        && Leaderboard.IsTopTen(r.data.value.schools, Leaderboard.SchoolEntries(groups, scan, students, schools, summaries),
             Leaderboard.EntryKey, (e: Leaderboard.SchoolEntry) => e.schoolId)
      ensures boardType != Some("school") ==>
        && r.data.value.StudentBoardData?
        && var board := r.data.value.students;
        && board == Leaderboard.StudentBoard(scan, students, schools, summaries)
        && Leaderboard.IsTopTen(Leaderboard.Unranked(board), Leaderboard.Candidates(scan, students, schools, summaries),
             Leaderboard.ViewKey, (v: Leaderboard.StudentView) => v.studentId)
        && (forall i :: 0 <= i < |board| ==> board[i].rank == i + 1)
    {
      if boardType == Some("school") {
        var top := Leaderboard.SchoolBoard(groups, scan, students, schools, summaries);
        r := Success(SchoolBoardData(top));
      } else {
        Leaderboard.StudentBoardCorrect(scan, students, schools, summaries);
        r := Success(StudentBoardData(Leaderboard.StudentBoard(scan, students, schools, summaries)));
      }
    }
  }
}
