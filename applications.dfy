/**
 * The side effect of approving an application: a School or a Student is
 * created only when no matching one exists.  Setting "pending" or
 * "rejected" creates nothing.
 */
module Applications {
  import opened Models

  /** SQLite's LIKE folds the case of ASCII letters only. */
  function AsciiLower(c: char): char {
    if 'A' <= c <= 'Z' then (c as int + 32) as char else c
  }

  /** `school_name__iexact`, which SQLite evaluates as LIKE with the wildcards escaped. */
  predicate SameNameIgnoringCase(a: string, b: string) {
    |a| == |b| && forall k :: 0 <= k < |a| ==> AsciiLower(a[k]) == AsciiLower(b[k])
  }

  /** Some school's name matches `name` case-insensitively. */
  predicate SchoolNameTaken(schools: map<Id, School>, name: string) {
    exists s :: s in schools && SameNameIgnoringCase(schools[s].name, name)
  }

  /** The schools after a school application's status is set to `status`. */
  function OnboardSchool(schools: map<Id, School>, name: string, status: Status, freshId: Id): (out: map<Id, School>)
    requires freshId !in schools
    ensures forall s :: s in schools ==> s in out && out[s] == schools[s]
    ensures out.Keys - schools.Keys <= {freshId}
    ensures freshId in out ==> out[freshId] == School(name)
  {
    if status == Approved && !SchoolNameTaken(schools, name) then schools[freshId := School(name)] else schools
  }

  /**
   * A school is added exactly when the decision is an approval and no
   * existing name matches ignoring case; after an approval a matching school
   * always exists.
   */
  lemma OnboardSchoolAddsIff(schools: map<Id, School>, name: string, status: Status, freshId: Id)
    requires freshId !in schools
    ensures var out := OnboardSchool(schools, name, status, freshId);
      && (freshId in out <==> status == Approved && !SchoolNameTaken(schools, name))
      && (status == Approved ==> SchoolNameTaken(out, name))
  {
    var out := OnboardSchool(schools, name, status, freshId);
    if status == Approved && !SchoolNameTaken(schools, name) {
      assert SameNameIgnoringCase(out[freshId].name, name);
    }
  }

  /** Approving the same name again adds no second school. */
  lemma ReapprovalAddsNoSchool(schools: map<Id, School>, name: string, freshId: Id, laterId: Id)
    requires freshId !in schools
    requires laterId !in OnboardSchool(schools, name, Approved, freshId)
    ensures var once := OnboardSchool(schools, name, Approved, freshId);
      OnboardSchool(once, name, Approved, laterId) == once
  {
    OnboardSchoolAddsIff(schools, name, Approved, freshId);
  }

  /** Onboarding keeps school names unique, since an exact match is also a case-insensitive one. */
  lemma OnboardSchoolKeepsNamesUnique(schools: map<Id, School>, name: string, status: Status, freshId: Id)
    requires freshId !in schools && SchoolNamesUnique(schools)
    ensures SchoolNamesUnique(OnboardSchool(schools, name, status, freshId))
  {
    var out := OnboardSchool(schools, name, status, freshId);
    forall s, t | s in out && t in out && out[s].name == out[t].name ensures s == t {
      if s != t && (s == freshId || t == freshId) {
        var old_ := if s == freshId then t else s;
        assert SameNameIgnoringCase(schools[old_].name, name);
      }
    }
  }

  /** Some student already has this (name, school, grade). */
  predicate StudentExists(students: map<Id, Student>, name: string, school: Id, grade: int) {
    exists s :: s in students && students[s] == Student(school, name, grade)
  }

  /** The students after a student application's status is set to `status`. */
  function OnboardStudent(students: map<Id, Student>, name: string, school: Id, grade: int, status: Status, freshId: Id): (out: map<Id, Student>)
    requires freshId !in students
    ensures forall s :: s in students ==> s in out && out[s] == students[s]
    ensures out.Keys - students.Keys <= {freshId}
    ensures freshId in out ==> out[freshId] == Student(school, name, grade)
  {
    if status == Approved && !StudentExists(students, name, school, grade) then students[freshId := Student(school, name, grade)]
    else students
  }

  /**
   * A student is added exactly when the decision is an approval and no
   * student has the same (name, school, grade); after an approval one does.
   */
  lemma OnboardStudentAddsIff(students: map<Id, Student>, name: string, school: Id, grade: int, status: Status, freshId: Id)
    requires freshId !in students
    ensures var out := OnboardStudent(students, name, school, grade, status, freshId);
      && (freshId in out <==> status == Approved && !StudentExists(students, name, school, grade))
      && (status == Approved ==> StudentExists(out, name, school, grade))
  {
    var out := OnboardStudent(students, name, school, grade, status, freshId);
    if status == Approved && !StudentExists(students, name, school, grade) {
      assert out[freshId] == Student(school, name, grade);
    }
  }

  /** Approving the same student application again adds no second student. */
  lemma ReapprovalAddsNoStudent(students: map<Id, Student>, name: string, school: Id, grade: int, freshId: Id, laterId: Id)
    requires freshId !in students
    requires laterId !in OnboardStudent(students, name, school, grade, Approved, freshId)
    ensures var once := OnboardStudent(students, name, school, grade, Approved, freshId);
      OnboardStudent(once, name, school, grade, Approved, laterId) == once
  {
    OnboardStudentAddsIff(students, name, school, grade, Approved, freshId);
  }

  /** No two students share (name, school, grade). */
  predicate StudentsDistinct(students: map<Id, Student>) {
    forall s, t :: s in students && t in students && students[s] == students[t] ==> s == t
  }

  /** Approval never duplicates a student. */
  lemma OnboardStudentKeepsDistinct(students: map<Id, Student>, name: string, school: Id, grade: int, status: Status, freshId: Id)
    requires freshId !in students && StudentsDistinct(students)
    ensures StudentsDistinct(OnboardStudent(students, name, school, grade, status, freshId))
  {
  }
}
