/** src/db/repositories/student.repository.ts: lookups, inserts and the
    suspension update on the `students` table, and the three queries that join
    it with `teacher_students`. Query results come back in primary-key order. */
module StudentRepository {
  import opened Wrappers
  import opened Seqs
  import opened Errors
  import opened Db

  /** `findByEmail`: the student with that email, or null. */
  function FindByEmail(db: Database, email: string): (r: Option<Student>)
    reads db
    requires db.Valid()
    ensures r.Some? ==> r.value in db.students && r.value.email == email
    ensures r.Some? ==> forall s :: s in db.students && s.email == email ==> s == r.value
    ensures r.None? <==> forall s :: s in db.students ==> s.email != email
  {
    StudentEmailIdentifies(db.students, db.nextStudentId);
    Find(db.students, (s: Student) => s.email == email)
  }

  /** `findByEmails`: `WHERE email IN (emails)`. */
  function FindByEmails(db: Database, emails: seq<string>): (r: seq<Student>)
    reads db
    requires db.Valid()
    ensures forall s :: s in r <==> s in db.students && s.email in emails
    ensures NoDup(r)
  {
    StudentEmailIdentifies(db.students, db.nextStudentId);
    FilterNoDup(db.students, (s: Student) => s.email in emails);
    Filter(db.students, (s: Student) => s.email in emails)
  }

  /** At most one student per distinct requested email comes back, and
      exactly as many as were requested when the request has no repeats and
      every email belongs to a student. */
  lemma FindByEmailsCount(db: Database, emails: seq<string>)
    requires db.Valid()
    ensures |FindByEmails(db, emails)| <= |Elements(emails)| <= |emails|
    ensures |FindByEmails(db, emails)| == |emails| <==>
              NoDup(emails) && forall e :: e in emails ==> FindByEmail(db, e).Some?
  {
    var r := FindByEmails(db, emails);
    StudentEmailIdentifies(db.students, db.nextStudentId);
    KeyedSelectionCount(r, db.students, (s: Student) => s.email, emails);
    ElementsCardinality(emails);
    if NoDup(emails) && forall e :: e in emails ==> FindByEmail(db, e).Some? {
      forall e | e in emails ensures exists s :: s in db.students && s.email == e {
        assert FindByEmail(db, e).value in db.students;
      }
    }
  }

  /** `create(email, isSuspended = 0)`: insert a row with the next id. The
      unique index on `email` rejects a second student with the same email. */
  method Create(db: Database, email: string, isSuspended: TinyInt := 0)
    returns (r: Result<Student, Error>)
    requires db.Valid()
    modifies db
    ensures db.Valid()
    ensures old(FindByEmail(db, email)).Some? ==>
              r == Failure(DuplicateEmail(email)) && db.State() == old(db.State())
    ensures old(FindByEmail(db, email)).None? ==>
              && r == Success(Student(old(db.nextStudentId), email, isSuspended))
              && db.State() == old(db.State()).(students := old(db.students) + [r.value],
                                                nextStudentId := old(db.nextStudentId) + 1)
  {
    if FindByEmail(db, email).Some? {
      return Failure(DuplicateEmail(email));
    }
    var student := Student(db.nextStudentId, email, isSuspended);
    StudentTableAppend(db.students, db.nextStudentId, email, isSuspended);
    db.students := db.students + [student];
    db.nextStudentId := db.nextStudentId + 1;
    r := Success(student);
  }

  /** The rows `findOrCreate` inserts into a table: none when a row already
      carries the email, else one row with the counter's id. */
  function Inserted(rows: seq<Student>, nextId: nat, email: string, isSuspended: TinyInt): (r: seq<Student>)
    ensures r == [] <==> exists s :: s in rows && s.email == email
    ensures |r| <= 1 && forall s :: s in r ==> s == Student(nextId, email, isSuspended)
  {
    if exists s :: s in rows && s.email == email then [] else [Student(nextId, email, isSuspended)]
  }

  /** `findOrCreate(email, isSuspended = 0)`. */
  method FindOrCreate(db: Database, email: string, isSuspended: TinyInt := 0)
    returns (student: Student)
    requires db.Valid()
    modifies db
    ensures db.Valid()
    ensures FindByEmail(db, email) == Some(student)
    ensures old(FindByEmail(db, email)).Some? ==>
              student == old(FindByEmail(db, email)).value && db.State() == old(db.State())
    ensures old(FindByEmail(db, email)).None? ==>
              && student == Student(old(db.nextStudentId), email, isSuspended)
              && db.State() == old(db.State()).(students := old(db.students) + [student],
                                                nextStudentId := old(db.nextStudentId) + 1)
    ensures old(db.students) <= db.students && |db.students| <= |old(db.students)| + 1
    ensures forall k :: |old(db.students)| <= k < |db.students| ==>
              db.students[k] == student && student == Student(old(db.nextStudentId), email, isSuspended)
    ensures db.nextStudentId == old(db.nextStudentId) + |db.students| - |old(db.students)|
    ensures db.students == old(db.students) + Inserted(old(db.students), old(db.nextStudentId), email, isSuspended)
    ensures db.State() == old(db.State()).(students := db.students, nextStudentId := db.nextStudentId)
  {
    var found := FindByEmail(db, email);
    if found.Some? {
      return found.value;
    }
    var created := Create(db, email, isSuspended);
    student := created.value;
    assert student in db.students;
  }

  /** The table after `UPDATE students SET is_suspended = 1 WHERE student_id = id`. */
  function Suspended(rows: seq<Student>, studentId: nat): (r: seq<Student>)
    ensures |r| == |rows|
    ensures forall k :: 0 <= k < |r| ==>
              r[k].studentId == rows[k].studentId && r[k].email == rows[k].email
    ensures forall k :: 0 <= k < |r| ==>
              if rows[k].studentId == studentId then r[k].isSuspended == 1 else r[k] == rows[k]
  {
    Map(rows, (s: Student) => if s.studentId == studentId then s.(isSuspended := 1) else s)
  }

  /** The update sets the flag of the row with that id, touches no other row,
      and keeps every id and email; it is idempotent. */
  lemma SuspendedEffect(rows: seq<Student>, nextId: nat, studentId: nat)
    requires StudentTable(rows, nextId)
    ensures StudentTable(Suspended(rows, studentId), nextId)
    ensures StudentIds(Suspended(rows, studentId)) == StudentIds(rows)
    ensures forall s :: s in rows && s.studentId != studentId ==> s in Suspended(rows, studentId)
    ensures forall s :: s in rows && s.studentId == studentId ==>
              s.(isSuspended := 1) in Suspended(rows, studentId)
    ensures forall s :: s in Suspended(rows, studentId) ==>
              (s.studentId == studentId ==> s.isSuspended == 1)
              && (s.studentId != studentId ==> s in rows)
    ensures Suspended(Suspended(rows, studentId), studentId) == Suspended(rows, studentId)
  {
    var r := Suspended(rows, studentId);
    assert forall i :: 0 <= i < |rows| ==> r[i].studentId == rows[i].studentId && r[i].email == rows[i].email;
    forall s | s in rows ensures s.studentId in StudentIds(r) {
      var i :| 0 <= i < |rows| && rows[i] == s;
      assert r[i] in r;
    }
    forall s | s in rows && s.studentId != studentId ensures s in r {
      var i :| 0 <= i < |rows| && rows[i] == s;
      assert r[i] == s;
    }
    forall s | s in rows && s.studentId == studentId ensures s.(isSuspended := 1) in r {
      var i :| 0 <= i < |rows| && rows[i] == s;
      assert r[i] == s.(isSuspended := 1);
    }
  }

  /** `suspend(studentId)`. */
  method Suspend(db: Database, studentId: nat)
    requires db.Valid()
    modifies db
    ensures db.Valid()
    ensures db.State() == old(db.State()).(students := Suspended(old(db.students), studentId))
  {
    SuspendedEffect(db.students, db.nextStudentId, studentId);
    db.students := Suspended(db.students, studentId);
  }

  /** `findRegisteredToAllTeachers`: the join with `teacher_students` filtered
      to the given teacher ids, grouped by student and kept when
      `COUNT(DISTINCT teacher_id)` equals the length of the id list. */
  function FindRegisteredToAllTeachers(db: Database, teacherIds: seq<nat>): (r: seq<Student>)
    reads db
    requires db.Valid()
    ensures NoDup(r)
    ensures forall s :: s in r ==> s in db.students
  {
    var links := db.teacherStudents;
    StudentEmailIdentifies(db.students, db.nextStudentId);
    FilterNoDup(db.students, (s: Student) => RegisteredToAll(links, s.studentId, teacherIds));
    Filter(db.students, (s: Student) => RegisteredToAll(links, s.studentId, teacherIds))
  }

  /** The `HAVING` test of one student's group: it has a joined row, and its
      distinct teacher ids number as many as the ids requested. A repeated
      requested id makes that count unreachable, so nobody passes. */
  predicate RegisteredToAll(links: set<(nat, nat)>, studentId: nat, teacherIds: seq<nat>)
    ensures RegisteredToAll(links, studentId, teacherIds) ==> teacherIds != [] && NoDup(teacherIds)
  {
    ElementsCardinality(teacherIds);
    && (exists t :: t in teacherIds && (t, studentId) in links)
    && |LinkedTeachers(links, studentId, teacherIds)| == |teacherIds|
  }

  /** The distinct teacher ids of one student's group after the join: some of
      the requested ids, so no more of them than were requested. */
  function LinkedTeachers(links: set<(nat, nat)>, studentId: nat, teacherIds: seq<nat>): (r: set<nat>)
    ensures r <= Elements(teacherIds)
    ensures |r| <= |Elements(teacherIds)| <= |teacherIds|
  {
    var r := set t | t in teacherIds && (t, studentId) in links;
    ElementsCardinality(teacherIds);
    assert Elements(teacherIds) == r + (Elements(teacherIds) - r);
    r
  }

  /** With distinct teacher ids, the count test is set intersection: a student
      passes exactly when it is linked to every requested teacher. */
  lemma RegisteredToAllIff(links: set<(nat, nat)>, studentId: nat, teacherIds: seq<nat>)
    requires NoDup(teacherIds) && teacherIds != []
    ensures RegisteredToAll(links, studentId, teacherIds) <==>
              forall t :: t in teacherIds ==> (t, studentId) in links
  {
    var linked := LinkedTeachers(links, studentId, teacherIds);
    assert linked <= Elements(teacherIds);
    NoDupCardinality(teacherIds);
    if RegisteredToAll(links, studentId, teacherIds) {
      SubsetOfSameSize(linked, Elements(teacherIds));
      forall t | t in teacherIds ensures (t, studentId) in links {
        assert t in Elements(teacherIds);
      }
    }
    if forall t :: t in teacherIds ==> (t, studentId) in links {
      forall t | t in Elements(teacherIds) ensures t in linked {
        assert t in teacherIds;
      }
      assert linked == Elements(teacherIds);
      var t0 := teacherIds[0];
      assert t0 in teacherIds && (t0, studentId) in links;
    }
  }

  /** Whatever the list, a student who passes is linked to every listed teacher. */
  lemma RegisteredToAllSound(links: set<(nat, nat)>, studentId: nat, teacherIds: seq<nat>)
    requires RegisteredToAll(links, studentId, teacherIds)
    ensures forall t :: t in teacherIds ==> (t, studentId) in links
  {
    RegisteredToAllIff(links, studentId, teacherIds);
  }

  /** The query answers "registered to every listed teacher" when the ids are
      distinct and there is at least one; an empty list or a repeated id gives
      no student at all. */
  lemma FindRegisteredToAllTeachersMeaning(db: Database, teacherIds: seq<nat>)
    requires db.Valid()
    ensures NoDup(teacherIds) && teacherIds != [] ==>
              forall s :: s in FindRegisteredToAllTeachers(db, teacherIds) <==>
                s in db.students && forall t :: t in teacherIds ==> (t, s.studentId) in db.teacherStudents
    ensures teacherIds == [] || !NoDup(teacherIds) ==> FindRegisteredToAllTeachers(db, teacherIds) == []
    ensures forall s, t :: s in FindRegisteredToAllTeachers(db, teacherIds) && t in teacherIds ==>
              (t, s.studentId) in db.teacherStudents
  {
    var links := db.teacherStudents;
    var r := FindRegisteredToAllTeachers(db, teacherIds);
    forall s | s in db.students
      ensures s in r <==> RegisteredToAll(links, s.studentId, teacherIds)
    {
    }
    forall s | s in r ensures forall t :: t in teacherIds ==> (t, s.studentId) in links {
      RegisteredToAllSound(links, s.studentId, teacherIds);
    }
    if NoDup(teacherIds) && teacherIds != [] {
      forall s | s in db.students
        ensures RegisteredToAll(links, s.studentId, teacherIds) <==>
                  forall t :: t in teacherIds ==> (t, s.studentId) in links
      {
        RegisteredToAllIff(links, s.studentId, teacherIds);
      }
    }
  }

  /** `findByTeacherAndNotSuspended`: the teacher's students with `is_suspended = 0`. */
  function FindByTeacherAndNotSuspended(db: Database, teacherId: nat): (r: seq<Student>)
    reads db
    requires db.Valid()
    ensures NoDup(r)
    ensures forall s :: s in r <==>
              s in db.students && (teacherId, s.studentId) in db.teacherStudents && s.isSuspended == 0
  {
    var links := db.teacherStudents;
    StudentEmailIdentifies(db.students, db.nextStudentId);
    FilterNoDup(db.students, (s: Student) => (teacherId, s.studentId) in links && s.isSuspended == 0);
    Filter(db.students, (s: Student) => (teacherId, s.studentId) in links && s.isSuspended == 0)
  }

  /** `findMentionedAndNotSuspended`: students among the given emails with
      `is_suspended = 0`, whoever they are registered to. */
  function FindMentionedAndNotSuspended(db: Database, emails: seq<string>): (r: seq<Student>)
    reads db
    requires db.Valid()
    ensures NoDup(r)
    ensures forall s :: s in r <==> s in db.students && s.email in emails && s.isSuspended == 0
    ensures emails == [] ==> r == []
  {
    StudentEmailIdentifies(db.students, db.nextStudentId);
    FilterNoDup(db.students, (s: Student) => s.email in emails && s.isSuspended == 0);
    Filter(db.students, (s: Student) => s.email in emails && s.isSuspended == 0)
  }

  /** Emails of distinct rows of the table are distinct. */
  lemma EmailsOfRowsNoDup(db: Database, r: seq<Student>)
    requires db.Valid()
    requires NoDup(r) && forall s :: s in r ==> s in db.students
    ensures NoDup(Map(r, (s: Student) => s.email))
  {
    StudentEmailIdentifies(db.students, db.nextStudentId);
    var es := Map(r, (s: Student) => s.email);
    forall i, j | 0 <= i < j < |es| ensures es[i] != es[j] {
      assert r[i] in db.students && r[j] in db.students;
    }
  }
}
