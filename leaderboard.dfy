/**
 * `leaderboard_view`: the student board ("all", the default) and the school
 * board ("school").  Both are computed on every request from the students
 * and their rating summaries; nothing is stored.  The order in which the
 * database scans students (and emits GROUP BY groups) is not specified, so
 * it is a parameter, and ties in both sort keys may come out in any order:
 * the properties below hold for every scan order.
 */
module Leaderboard {
  import opened Seqs
  import opened Models
  import Decimal

  const BoardSize: int := 10

  /** A student as `_student_to_dict` renders it; the average is in hundredths. */
  datatype StudentView = StudentView(
    studentId: Id, name: string, grade: int, schoolId: Id, schoolName: string,
    avgHundredths: int, ratingCount: int)

  /** A student board row: the student's fields plus `rank`. */
  datatype RankedStudent = RankedStudent(student: StudentView, rank: int)

  /** A school board row; it has no `rank` field. */
  datatype SchoolEntry = SchoolEntry(schoolId: Id, schoolName: string, avgHundredths: int, ratingCount: int)

  // ---- The order (avg_score DESC, rating_count DESC) ----

  /** x may be listed before y: higher average, or the same average and at least as many ratings. */
  predicate RanksAtLeast(x: (int, int), y: (int, int)) {
    x.0 > y.0 || (x.0 == y.0 && x.1 >= y.1)
  }

  /** x must be listed before y. */
  predicate Outranks(x: (int, int), y: (int, int)) {
    x.0 > y.0 || (x.0 == y.0 && x.1 > y.1)
  }

  function ViewKey(v: StudentView): (int, int) {
    (v.avgHundredths, v.ratingCount)
  }

  function EntryKey(e: SchoolEntry): (int, int) {
    (e.avgHundredths, e.ratingCount)
  }

  predicate SortedBy<T>(s: seq<T>, key: T -> (int, int)) {
    forall i, j :: 0 <= i < j < |s| ==> RanksAtLeast(key(s[i]), key(s[j]))
  }

  /** No two rows name the same student or school. */
  predicate IdsDistinct<T>(s: seq<T>, ident: T -> Id) {
    forall i, j :: 0 <= i < j < |s| ==> ident(s[i]) != ident(s[j])
  }

  /**
   * `top` is a top-ten of `pool` under the order: as long as the pool allows,
   * drawn from it, sorted, without repeats, and no row left out ranks above a
   * row shown.
   */
  predicate IsTopTen<T(==)>(top: seq<T>, pool: seq<T>, key: T -> (int, int), ident: T -> Id) {
    && |top| == Min(BoardSize, |pool|)
    && (forall i :: 0 <= i < |top| ==> top[i] in pool)
    && SortedBy(top, key)
    && IdsDistinct(top, ident)
    && (forall x :: x in pool && x !in top ==> forall i :: 0 <= i < |top| ==> RanksAtLeast(key(top[i]), key(x)))
  }

  /** The first ten of a sorted reordering of a pool without repeated ids are a top-ten of it. */
  lemma TopOfSortedIsTopTen<T>(sorted: seq<T>, pool: seq<T>, key: T -> (int, int), ident: T -> Id)
    requires multiset(sorted) == multiset(pool)
    requires SortedBy(sorted, key)
    requires IdsDistinct(pool, ident)
    ensures IsTopTen(sorted[..Min(BoardSize, |sorted|)], pool, key, ident)
  {
    var top := sorted[..Min(BoardSize, |sorted|)];
    assert |sorted| == |multiset(sorted)| == |multiset(pool)| == |pool|;
    forall i | 0 <= i < |top| ensures top[i] in pool {
      assert top[i] in multiset(sorted);
    }
    assert Distinct(pool) by {
      forall i, j | 0 <= i < j < |pool| ensures pool[i] != pool[j] {
        assert ident(pool[i]) != ident(pool[j]);
      }
    }
    PermutationKeepsDistinct(pool, sorted);
    forall i, j | 0 <= i < j < |top| ensures ident(top[i]) != ident(top[j]) {
      assert top[i] == sorted[i] && top[j] == sorted[j];
      assert sorted[i] in multiset(pool) && sorted[j] in multiset(pool);
      var p :| 0 <= p < |pool| && pool[p] == sorted[i];
      var q :| 0 <= q < |pool| && pool[q] == sorted[j];
      assert p != q;
    }
    forall x | x in pool && x !in top ensures forall i :: 0 <= i < |top| ==> RanksAtLeast(key(top[i]), key(x)) {
      assert x in multiset(sorted);
      var m :| 0 <= m < |sorted| && sorted[m] == x;
      assert m >= |top|;
      forall i | 0 <= i < |top| ensures RanksAtLeast(key(top[i]), key(x)) {
        assert top[i] == sorted[i];
      }
    }
  }

  // ---- Student board ----

  /** `_student_to_dict`: a student without a summary shows 0 and 0. */
  function StudentToDict(id: Id, student: Student, schools: map<Id, School>, summaries: map<Id, RatingSummary>): (v: StudentView)
    ensures v.studentId == id && v.name == student.name && v.grade == student.grade && v.schoolId == student.school
    ensures v.schoolName == if student.school in schools then schools[student.school].name else ""
    ensures id in summaries ==> ViewKey(v) == (summaries[id].avgHundredths, summaries[id].count)
    ensures id !in summaries ==> ViewKey(v) == (0, 0)
  {
    var summary := if id in summaries then summaries[id] else RatingSummary(0, 0);
    StudentView(id, student.name, student.grade, student.school,
      if student.school in schools then schools[student.school].name else "",
      summary.avgHundredths, summary.count)
  }

  /** A student that has a summary with `rating_count > 0`. */
  predicate Eligible(id: Id, students: map<Id, Student>, summaries: map<Id, RatingSummary>) {
    id in students && id in summaries && summaries[id].count > 0
  }

  /** The rows of `Student JOIN rating_summary WHERE rating_count > 0`, in scan order. */
  function Candidates(scan: seq<Id>, students: map<Id, Student>, schools: map<Id, School>, summaries: map<Id, RatingSummary>): seq<StudentView> {
    if scan == [] then []
    else
      (if Eligible(scan[0], students, summaries) then [StudentToDict(scan[0], students[scan[0]], schools, summaries)] else [])
      + Candidates(scan[1..], students, schools, summaries)
  }

  /** A row is a candidate exactly when it renders an eligible scanned student. */
  lemma {:induction false} CandidatesAreEligible(scan: seq<Id>, students: map<Id, Student>, schools: map<Id, School>, summaries: map<Id, RatingSummary>, v: StudentView)
    ensures v in Candidates(scan, students, schools, summaries) <==>
      v.studentId in scan && Eligible(v.studentId, students, summaries)
      && v == StudentToDict(v.studentId, students[v.studentId], schools, summaries)
  {
    if scan != [] {
      CandidatesAreEligible(scan[1..], students, schools, summaries, v);
      assert scan == [scan[0]] + scan[1..];
    }
  }

  /** Scanning each student once gives each candidate once. */
  lemma {:induction false} CandidateIdsDistinct(scan: seq<Id>, students: map<Id, Student>, schools: map<Id, School>, summaries: map<Id, RatingSummary>)
    requires Distinct(scan)
    ensures IdsDistinct(Candidates(scan, students, schools, summaries), (v: StudentView) => v.studentId)
  {
    if scan != [] {
      var rest := Candidates(scan[1..], students, schools, summaries);
      assert Distinct(scan[1..]) by {
        forall i, j | 0 <= i < j < |scan[1..]| ensures scan[1..][i] != scan[1..][j] {
          assert scan[1..][i] == scan[i + 1] && scan[1..][j] == scan[j + 1];
        }
      }
      CandidateIdsDistinct(scan[1..], students, schools, summaries);
      forall k | 0 <= k < |rest| ensures rest[k].studentId != scan[0] {
        CandidatesAreEligible(scan[1..], students, schools, summaries, rest[k]);
        var p :| 0 <= p < |scan[1..]| && scan[1..][p] == rest[k].studentId;
        assert scan[p + 1] == scan[1..][p];
      }
    }
  }

  /** The database's ORDER BY -avg_score, -rating_count: an insertion sort. */
  function InsertView(v: StudentView, sorted: seq<StudentView>): seq<StudentView> {
    if sorted == [] then [v]
    else if RanksAtLeast(ViewKey(v), ViewKey(sorted[0])) then [v] + sorted
    else [sorted[0]] + InsertView(v, sorted[1..])
  }

  function OrderByScore(vs: seq<StudentView>): seq<StudentView> {
    if vs == [] then [] else InsertView(vs[0], OrderByScore(vs[1..]))
  }

  lemma {:induction false} InsertViewSorted(v: StudentView, sorted: seq<StudentView>)
    requires SortedBy(sorted, ViewKey)
    ensures multiset(InsertView(v, sorted)) == multiset(sorted) + multiset{v}
    ensures SortedBy(InsertView(v, sorted), ViewKey)
  {
    if sorted != [] && !RanksAtLeast(ViewKey(v), ViewKey(sorted[0])) {
      var rest := sorted[1..];
      assert SortedBy(rest, ViewKey) by {
        forall i, j | 0 <= i < j < |rest| ensures RanksAtLeast(ViewKey(rest[i]), ViewKey(rest[j])) {
          assert rest[i] == sorted[i + 1] && rest[j] == sorted[j + 1];
        }
      }
      InsertViewSorted(v, rest);
      var tail := InsertView(v, rest);
      assert sorted == [sorted[0]] + rest;
      forall j | 0 <= j < |tail| ensures RanksAtLeast(ViewKey(sorted[0]), ViewKey(tail[j])) {
        assert tail[j] in multiset(tail);
        if tail[j] != v {
          assert tail[j] in multiset(rest);
          var m :| 0 <= m < |rest| && rest[m] == tail[j];
          assert sorted[m + 1] == rest[m];
        }
      }
    }
  }

  lemma {:induction false} OrderByScoreSorted(vs: seq<StudentView>)
    ensures multiset(OrderByScore(vs)) == multiset(vs)
    ensures SortedBy(OrderByScore(vs), ViewKey)
  {
    if vs != [] {
      OrderByScoreSorted(vs[1..]);
      InsertViewSorted(vs[0], OrderByScore(vs[1..]));
      assert vs == [vs[0]] + vs[1..];
    }
  }

  /** The student board: ordered candidates, the first ten, rank = position + 1. */
  function StudentBoard(scan: seq<Id>, students: map<Id, Student>, schools: map<Id, School>, summaries: map<Id, RatingSummary>): seq<RankedStudent> {
    var ordered := OrderByScore(Candidates(scan, students, schools, summaries));
    var top := ordered[..Min(BoardSize, |ordered|)];
    seq(|top|, i requires 0 <= i < |top| => RankedStudent(top[i], i + 1))
  }

  function Unranked(board: seq<RankedStudent>): (vs: seq<StudentView>)
    ensures |vs| == |board| && forall i :: 0 <= i < |board| ==> vs[i] == board[i].student
  {
    seq(|board|, i requires 0 <= i < |board| => board[i].student)
  }

  /**
   * The student board holds only students with rated summaries, at most ten,
   * sorted by (avg desc, count desc), ranks 1..N by position even across
   * ties, and no eligible student left out ranks above one shown.
   */
  lemma StudentBoardCorrect(scan: seq<Id>, students: map<Id, Student>, schools: map<Id, School>, summaries: map<Id, RatingSummary>)
    requires Distinct(scan)
    ensures var board := StudentBoard(scan, students, schools, summaries);
      && IsTopTen(Unranked(board), Candidates(scan, students, schools, summaries), ViewKey, (v: StudentView) => v.studentId)
      && (forall i :: 0 <= i < |board| ==> board[i].rank == i + 1)
      && (forall i :: 0 <= i < |board| ==> Eligible(board[i].student.studentId, students, summaries))
  {
    var pool := Candidates(scan, students, schools, summaries);
    var ordered := OrderByScore(pool);
    OrderByScoreSorted(pool);
    CandidateIdsDistinct(scan, students, schools, summaries);
    TopOfSortedIsTopTen(ordered, pool, ViewKey, (v: StudentView) => v.studentId);
    var board := StudentBoard(scan, students, schools, summaries);
    assert Unranked(board) == ordered[..Min(BoardSize, |ordered|)];
    forall i | 0 <= i < |board| ensures Eligible(board[i].student.studentId, students, summaries) {
      assert board[i].student in pool;
      CandidatesAreEligible(scan, students, schools, summaries, board[i].student);
    }
  }

  // ---- School board ----

  /** The schools that have at least one scanned student: the groups of the GROUP BY. */
  function SchoolsOf(scan: seq<Id>, students: map<Id, Student>): set<Id> {
    set k | 0 <= k < |scan| && scan[k] in students :: students[scan[k]].school
  }

  /** `Sum(rating_summary__rating_count)` over the school's students; a student without summary adds nothing. */
  function TotalCount(scan: seq<Id>, students: map<Id, Student>, summaries: map<Id, RatingSummary>, school: Id): (total: nat) {
    if scan == [] then 0
    else
      (if scan[0] in students && students[scan[0]].school == school && scan[0] in summaries then summaries[scan[0]].count else 0)
      + TotalCount(scan[1..], students, summaries, school)
  }

  /** `Sum(avg_score * rating_count)`, on the stored (already rounded) averages, in hundredths. */
  function TotalScore(scan: seq<Id>, students: map<Id, Student>, summaries: map<Id, RatingSummary>, school: Id): int {
    if scan == [] then 0
    else
      (if scan[0] in students && students[scan[0]].school == school && scan[0] in summaries
       then summaries[scan[0]].avgHundredths * summaries[scan[0]].count else 0)
      + TotalScore(scan[1..], students, summaries, school)
  }

  /**
   * A school's row: the rating-weighted mean of its students' averages,
   * rounded half-even to hundredths, or 0 when none of them is rated.
   */
  function SchoolEntryFor(scan: seq<Id>, students: map<Id, Student>, schools: map<Id, School>, summaries: map<Id, RatingSummary>, school: Id): (e: SchoolEntry)
    ensures e.schoolId == school && e.ratingCount == TotalCount(scan, students, summaries, school)
    ensures e.ratingCount == 0 ==> e.avgHundredths == 0
    ensures e.ratingCount > 0 ==> var total := TotalScore(scan, students, summaries, school);
      && 2 * (total - e.avgHundredths * e.ratingCount) <= e.ratingCount
      && 2 * (e.avgHundredths * e.ratingCount - total) <= e.ratingCount
      && ((2 * (total - e.avgHundredths * e.ratingCount) == e.ratingCount || 2 * (e.avgHundredths * e.ratingCount - total) == e.ratingCount)
          ==> e.avgHundredths % 2 == 0)
  {
    var count := TotalCount(scan, students, summaries, school);
    SchoolEntry(school, if school in schools then schools[school].name else "",
      if count != 0 then Decimal.RoundHalfEven(TotalScore(scan, students, summaries, school), count) else 0,
      count)
  }

  /** The school's average is THE half-even rounding of the weighted mean to hundredths. */
  lemma SchoolEntryIsRoundedMean(scan: seq<Id>, students: map<Id, Student>, schools: map<Id, School>, summaries: map<Id, RatingSummary>, school: Id, avg: int)
    requires TotalCount(scan, students, summaries, school) > 0
    requires var n, total := TotalCount(scan, students, summaries, school), TotalScore(scan, students, summaries, school);
      && 2 * (total - avg * n) <= n && 2 * (avg * n - total) <= n
      && (2 * (total - avg * n) == n || 2 * (avg * n - total) == n ==> avg % 2 == 0)
    ensures SchoolEntryFor(scan, students, schools, summaries, school).avgHundredths == avg
  {
    Decimal.RoundHalfEvenUnique(TotalScore(scan, students, summaries, school), TotalCount(scan, students, summaries, school), avg);
  }

  /** The weighted totals lie between lo and hi times the count when every summary's average does. */
  lemma {:induction false} TotalScoreBetween(scan: seq<Id>, students: map<Id, Student>, summaries: map<Id, RatingSummary>, school: Id, lo: int, hi: int)
    requires forall id :: id in summaries ==> lo <= summaries[id].avgHundredths <= hi
    ensures lo * TotalCount(scan, students, summaries, school) <= TotalScore(scan, students, summaries, school)
    ensures TotalScore(scan, students, summaries, school) <= hi * TotalCount(scan, students, summaries, school)
  {
    if scan != [] {
      TotalScoreBetween(scan[1..], students, summaries, school, lo, hi);
      var id := scan[0];
      if id in students && students[id].school == school && id in summaries {
        WeightedStep(summaries[id].avgHundredths, summaries[id].count, lo, hi,
          TotalCount(scan[1..], students, summaries, school), TotalScore(scan[1..], students, summaries, school));
      }
    }
  }

  /** Adding one student's weighted average keeps the totals within the bounds. */
  lemma WeightedStep(avg: int, c: int, lo: int, hi: int, restCount: int, restScore: int)
    requires lo <= avg <= hi && c >= 0
    requires lo * restCount <= restScore <= hi * restCount
    ensures lo * (c + restCount) <= avg * c + restScore <= hi * (c + restCount)
  {
    Decimal.NonNegativeProduct(avg - lo, c);
    Decimal.NonNegativeProduct(hi - avg, c);
    assert (avg - lo) * c == avg * c - lo * c;
    assert (hi - avg) * c == hi * c - avg * c;
    assert lo * (c + restCount) == lo * c + lo * restCount;
    assert hi * (c + restCount) == hi * c + hi * restCount;
  }

  /**
   * A weighted mean stays within the students' averages: when every stored
   * average is between 1.00 and 5.00, a rated school's average is too.
   */
  lemma SchoolAverageWithinScoreRange(scan: seq<Id>, students: map<Id, Student>, schools: map<Id, School>, summaries: map<Id, RatingSummary>, school: Id)
    requires forall id :: id in summaries ==> 100 <= summaries[id].avgHundredths <= 500
    ensures var e := SchoolEntryFor(scan, students, schools, summaries, school);
      e.ratingCount > 0 ==> 100 <= e.avgHundredths <= 500
  {
    var count := TotalCount(scan, students, summaries, school);
    if count > 0 {
      TotalScoreBetween(scan, students, summaries, school, 100, 500);
      Decimal.RoundHalfEvenBetween(TotalScore(scan, students, summaries, school), count, 100, 500);
    }
  }

  /** Students at 5.00 with 2 ratings and 1.00 with 8 ratings make a school average of 1.80, not 3.00. */
  lemma WeightedSchoolAverage()
    ensures var students := map["s1" := Student("x", "A", 1), "s2" := Student("x", "B", 1)];
      var summaries := map["s1" := RatingSummary(500, 2), "s2" := RatingSummary(100, 8)];
      SchoolEntryFor(["s1", "s2"], students, map["x" := School("X")], summaries, "x") == SchoolEntry("x", "X", 180, 10)
  {
    var students := map["s1" := Student("x", "A", 1), "s2" := Student("x", "B", 1)];
    var summaries := map["s1" := RatingSummary(500, 2), "s2" := RatingSummary(100, 8)];
    assert TotalCount(["s1", "s2"], students, summaries, "x") == 10 by {
      assert ["s1", "s2"][1..] == ["s2"];
      assert TotalCount(["s2"], students, summaries, "x") == 8;
    }
    assert TotalScore(["s1", "s2"], students, summaries, "x") == 1800 by {
      assert ["s1", "s2"][1..] == ["s2"];
      assert TotalScore(["s2"], students, summaries, "x") == 800;
    }
    Decimal.RoundHalfEvenExact(180, 10);
  }

  /**
   * A school none of whose students is rated shows 0 and 0 rather than
   * dividing by zero, whatever the other schools' students have.
   */
  lemma UnratedSchoolShowsZero(scan: seq<Id>, students: map<Id, Student>, schools: map<Id, School>, summaries: map<Id, RatingSummary>, school: Id)
    requires forall id :: id in scan && id in students && students[id].school == school && id in summaries ==> summaries[id].count == 0
    ensures SchoolEntryFor(scan, students, schools, summaries, school).avgHundredths == 0
    ensures SchoolEntryFor(scan, students, schools, summaries, school).ratingCount == 0
  {
    UnratedStudentsNoCount(scan, students, summaries, school);
  }

  lemma {:induction false} UnratedStudentsNoCount(scan: seq<Id>, students: map<Id, Student>, summaries: map<Id, RatingSummary>, school: Id)
    requires forall id :: id in scan && id in students && students[id].school == school && id in summaries ==> summaries[id].count == 0
    ensures TotalCount(scan, students, summaries, school) == 0
  {
    if scan != [] {
      UnratedStudentsNoCount(scan[1..], students, summaries, school);
    }
  }

  /** The rows the for-loop appends, one per group, in group order. */
  function SchoolEntries(groups: seq<Id>, scan: seq<Id>, students: map<Id, Student>, schools: map<Id, School>, summaries: map<Id, RatingSummary>): (es: seq<SchoolEntry>)
    ensures |es| == |groups| && forall k :: 0 <= k < |groups| ==> es[k] == SchoolEntryFor(scan, students, schools, summaries, groups[k])
  {
    seq(|groups|, k requires 0 <= k < |groups| => SchoolEntryFor(scan, students, schools, summaries, groups[k]))
  }

  /** One row per school that has a student, and none for a school without students. */
  lemma SchoolEntriesPerSchool(groups: seq<Id>, scan: seq<Id>, students: map<Id, Student>, schools: map<Id, School>, summaries: map<Id, RatingSummary>)
    requires Distinct(groups)
    requires forall g :: g in groups <==> g in SchoolsOf(scan, students)
    ensures var es := SchoolEntries(groups, scan, students, schools, summaries);
      && IdsDistinct(es, (e: SchoolEntry) => e.schoolId)
      && (forall e :: e in es ==> e.schoolId in SchoolsOf(scan, students))
      && (forall s :: s in SchoolsOf(scan, students) ==> SchoolEntryFor(scan, students, schools, summaries, s) in es)
  {
    var es := SchoolEntries(groups, scan, students, schools, summaries);
    forall s | s in SchoolsOf(scan, students) ensures SchoolEntryFor(scan, students, schools, summaries, s) in es {
      var k :| 0 <= k < |groups| && groups[k] == s;
      assert es[k] == SchoolEntryFor(scan, students, schools, summaries, s);
    }
  }

  /**
   * Insertion sort state: the first i + 1 rows are sorted except for the
   * row at j, which is being moved up, and which already ranks at least
   * every row after it.
   */
  ghost predicate Inserting(s: seq<SchoolEntry>, i: int, j: int) {
    && 0 <= j <= i < |s|
    && (forall p, q :: 0 <= p < q <= i && p != j && q != j ==> RanksAtLeast(EntryKey(s[p]), EntryKey(s[q])))
    && (forall q :: j < q <= i ==> RanksAtLeast(EntryKey(s[j]), EntryKey(s[q])))
  }

  lemma InsertStart(s: seq<SchoolEntry>, i: int)
    requires 0 <= i < |s| && SortedBy(s[..i], EntryKey)
    ensures Inserting(s, i, i)
  {
    forall p, q | 0 <= p < q <= i && p != i && q != i ensures RanksAtLeast(EntryKey(s[p]), EntryKey(s[q])) {
      assert s[p] == s[..i][p] && s[q] == s[..i][q];
    }
  }

  /** Swapping the moving row with the row above it, which it outranks, keeps the state. */
  lemma InsertSwap(s: seq<SchoolEntry>, i: int, j: int)
    requires Inserting(s, i, j) && j > 0 && Outranks(EntryKey(s[j]), EntryKey(s[j - 1]))
    ensures Inserting(s[j - 1 := s[j]][j := s[j - 1]], i, j - 1)
    ensures multiset(s[j - 1 := s[j]][j := s[j - 1]]) == multiset(s)
  {
  }

  /** The moving row stops below a row that ranks at least it: the prefix is sorted. */
  lemma InsertDone(s: seq<SchoolEntry>, i: int, j: int)
    requires Inserting(s, i, j) && (j == 0 || !Outranks(EntryKey(s[j]), EntryKey(s[j - 1])))
    ensures SortedBy(s[..i + 1], EntryKey)
  {
    forall p, q | 0 <= p < q <= i ensures RanksAtLeast(EntryKey(s[p]), EntryKey(s[q])) {
      if q == j && p < j - 1 {
        assert RanksAtLeast(EntryKey(s[p]), EntryKey(s[j - 1]));
      }
    }
  }

  /** The in-place `result.sort(key=(-avg_score, -rating_count))`; a row moves up only past rows it outranks. */
  method SortByScore(a: array<SchoolEntry>)
    modifies a
    ensures SortedBy(a[..], EntryKey)
    ensures multiset(a[..]) == multiset(old(a[..]))
  {
    for i := 0 to a.Length
      invariant SortedBy(a[..i], EntryKey)
      invariant multiset(a[..]) == multiset(old(a[..]))
    {
      InsertStart(a[..], i);
      var j := i;
      while j > 0 && Outranks(EntryKey(a[j]), EntryKey(a[j - 1]))
        invariant Inserting(a[..], i, j)
        invariant multiset(a[..]) == multiset(old(a[..]))
      {
        InsertSwap(a[..], i, j);
        a[j - 1], a[j] := a[j], a[j - 1];
        j := j - 1;
      }
      InsertDone(a[..], i, j);
    }
    assert a[..] == a[..a.Length];
  }

  /**
   * The school board: one row per group (the for-loop), sorted in place,
   * then the first ten.
   */
  method SchoolBoard(groups: seq<Id>, scan: seq<Id>, students: map<Id, Student>, schools: map<Id, School>, summaries: map<Id, RatingSummary>)
    returns (top: seq<SchoolEntry>)
    requires Distinct(groups)
    ensures IsTopTen(top, SchoolEntries(groups, scan, students, schools, summaries), EntryKey, (e: SchoolEntry) => e.schoolId)
  {
    var result := new SchoolEntry[|groups|];
    for i := 0 to |groups|
      invariant forall k :: 0 <= k < i ==> result[k] == SchoolEntryFor(scan, students, schools, summaries, groups[k])
    {
      var school := groups[i];
      var totalCount := TotalCount(scan, students, summaries, school);
      var avg := if totalCount != 0 then Decimal.RoundHalfEven(TotalScore(scan, students, summaries, school), totalCount) else 0;
      result[i] := SchoolEntry(school, if school in schools then schools[school].name else "", avg, totalCount);
    }
    var pool := SchoolEntries(groups, scan, students, schools, summaries);
    assert result[..] == pool;
    SortByScore(result);
    TopOfSortedIsTopTen(result[..], pool, EntryKey, (e: SchoolEntry) => e.schoolId);
    top := result[..Min(BoardSize, result.Length)];
  }
}
