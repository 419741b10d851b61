/** src/students/students.service.ts: registering students to a teacher, the
    common-students query, suspension, and the recipients of a notification. */
module StudentsService {
  import opened Wrappers
  import opened Seqs
  import opened Errors
  import opened Db
  import opened Mentions
  import TeacherRepository
  import StudentRepository
  import TeachersService
  import StudentsDto

  /** `students.map((s) => s.email)`. */
  function Emails(rows: seq<Student>): seq<string> {
    Map(rows, (s: Student) => s.email)
  }

  lemma EmailsSnoc(rows: seq<Student>, s: Student)
    ensures Emails(rows + [s]) == Emails(rows) + [s.email]
  {
  }

  lemma EmailsMembership(rows: seq<Student>, e: string)
    ensures e in Emails(rows) <==> exists s :: s in rows && s.email == e
  {
    if e in Emails(rows) {
      var i :| 0 <= i < |rows| && Emails(rows)[i] == e;
      assert rows[i] in rows;
    }
    if exists s :: s in rows && s.email == e {
      var s :| s in rows && s.email == e;
      var i :| 0 <= i < |rows| && rows[i] == s;
      assert Emails(rows)[i] == e;
    }
  }

  // ---------------------------------------------------------------- register

  /** The id of the teacher with that email, once the teacher exists. */
  function TeacherIdOf(db: Database, teacherEmail: string): nat
    reads db
    requires db.Valid()
    requires TeacherRepository.FindByEmail(db, teacherEmail).Some?
  {
    TeacherRepository.FindByEmail(db, teacherEmail).value.teacherId
  }

  /** What a successful `registerStudents` leaves: the teacher and every listed
      student exist, each listed student is linked to the teacher, and the
      edges are the old ones plus exactly those. */
  ghost predicate Registered(db: Database, oldLinks: set<(nat, nat)>, teacherEmail: string, studentEmails: seq<string>)
    reads db
    requires db.Valid()
  {
    && TeacherRepository.FindByEmail(db, teacherEmail).Some?
    && StudentsLinked(db, TeacherIdOf(db, teacherEmail), studentEmails)
    && EdgesAdded(db, oldLinks, TeacherIdOf(db, teacherEmail), studentEmails)
  }

  /** Every listed student exists and is linked to the teacher. */
  ghost predicate StudentsLinked(db: Database, teacherId: nat, studentEmails: seq<string>)
    reads db
    requires db.Valid()
  {
    forall e :: e in studentEmails ==>
      && StudentRepository.FindByEmail(db, e).Some?
      && (teacherId, StudentRepository.FindByEmail(db, e).value.studentId) in db.teacherStudents
  }

  /** The edges are the old ones plus those from the teacher to listed students. */
  ghost predicate EdgesAdded(db: Database, oldLinks: set<(nat, nat)>, teacherId: nat, studentEmails: seq<string>)
    reads db
  {
    forall l :: l in db.teacherStudents <==>
      l in oldLinks
      || (l.0 == teacherId && exists s :: s in db.students && s.email in studentEmails && s.studentId == l.1)
  }

  /** When each listed email has been resolved to a row of the table, the rows
      with a listed email are exactly the resolved ones. */
  lemma ResolvedRows(rows: seq<Student>, nextId: nat, studentEmails: seq<string>, students: seq<Student>)
    requires StudentTable(rows, nextId)
    requires |students| == |studentEmails|
    requires forall k :: 0 <= k < |students| ==> students[k] in rows && students[k].email == studentEmails[k]
    ensures forall s :: s in rows && s.email in studentEmails <==> s in students
  {
    StudentEmailIdentifies(rows, nextId);
    forall s | s in rows && s.email in studentEmails ensures s in students {
      var k :| 0 <= k < |studentEmails| && studentEmails[k] == s.email;
      assert students[k] in students;
    }
  }

  /** Once each listed email is resolved to a row and the edges to those rows
      are added, every listed student is linked. */
  lemma LinkedAfterLinking(db: Database, oldLinks: set<(nat, nat)>, teacherId: nat,
                           studentEmails: seq<string>, students: seq<Student>)
    requires db.Valid()
    requires |students| == |studentEmails|
    requires forall k :: 0 <= k < |students| ==>
               students[k] in db.students && students[k].email == studentEmails[k]
    requires forall s :: s in students ==> (teacherId, s.studentId) in db.teacherStudents
    ensures StudentsLinked(db, teacherId, studentEmails)
  {
    forall e | e in studentEmails
      ensures StudentRepository.FindByEmail(db, e).Some?
      ensures StudentRepository.FindByEmail(db, e).value in students
    {
      var k :| 0 <= k < |studentEmails| && studentEmails[k] == e;
      assert students[k] in db.students;
    }
  }

  /** The same edge set, described by the listed emails instead of the resolved rows. */
  lemma EdgesAfterLinking(db: Database, oldLinks: set<(nat, nat)>, teacherId: nat,
                          studentEmails: seq<string>, students: seq<Student>)
    requires db.Valid()
    requires |students| == |studentEmails|
    requires forall k :: 0 <= k < |students| ==>
               students[k] in db.students && students[k].email == studentEmails[k]
    requires forall l :: l in db.teacherStudents <==>
               l in oldLinks || (l.0 == teacherId && exists s :: s in students && s.studentId == l.1)
    ensures EdgesAdded(db, oldLinks, teacherId, studentEmails)
  {
    ResolvedRows(db.students, db.nextStudentId, studentEmails, students);
  }

  /** The loop of `registerStudents`: each listed email, in order, is looked
      up and, when absent, inserted as an unsuspended student. */
  method FindOrCreateStudents(db: Database, studentEmails: seq<string>) returns (students: seq<Student>)
    requires db.Valid()
    modifies db
    ensures db.Valid()
    ensures |students| == |studentEmails|
    ensures forall k :: 0 <= k < |studentEmails| ==>
              students[k] in db.students && students[k].email == studentEmails[k]
    ensures db.students == old(db.students) + NewRows(old(db.students), old(db.nextStudentId), studentEmails, |studentEmails|)
    ensures db.nextStudentId == old(db.nextStudentId) + |db.students| - |old(db.students)|
    ensures db.State() == old(db.State()).(students := db.students, nextStudentId := db.nextStudentId)
  {
    students := [];
    for i := 0 to |studentEmails|
      invariant db.Valid()
      invariant Resolved(students, db.students, studentEmails, i)
      invariant db.students == old(db.students) + NewRows(old(db.students), old(db.nextStudentId), studentEmails, i)
      invariant db.nextStudentId == old(db.nextStudentId) + |db.students| - |old(db.students)|
      invariant db.State() == old(db.State()).(students := db.students, nextStudentId := db.nextStudentId)
    {
      ghost var rows, next := db.students, db.nextStudentId;
      var student := StudentRepository.FindOrCreate(db, studentEmails[i], 0);
      ResolvedStep(students, rows, db.students, studentEmails, i, student);
      NewRowsStep(old(db.students), old(db.nextStudentId), studentEmails, i, rows, next, db.students);
      students := students + [student];
    }
  }

  /** One more find-or-create extends the inserted rows as `NewRows` says. */
  lemma NewRowsStep(rows0: seq<Student>, nextId: nat, emails: seq<string>, n: nat,
                    rows: seq<Student>, next: nat, rows': seq<Student>)
    requires n < |emails| && rows == rows0 + NewRows(rows0, nextId, emails, n)
    requires next == nextId + |rows| - |rows0|
    requires rows' == rows + StudentRepository.Inserted(rows, next, emails[n], 0)
    ensures rows' == rows0 + NewRows(rows0, nextId, emails, n + 1)
  {
    assert emails[n + 1 - 1] == emails[n];
  }

  /** The rows the first `n` listed emails insert, in order: an email that
      no row carries yet, counting rows inserted for earlier emails, gets an
      unsuspended row with the next counter value. */
  function NewRows(rows: seq<Student>, nextId: nat, emails: seq<string>, n: nat): (r: seq<Student>)
    requires n <= |emails|
    ensures |r| <= n
    ensures forall k :: 0 <= k < |r| ==> r[k].email in emails
  {
    if n == 0 then []
    else
      var added := NewRows(rows, nextId, emails, n - 1);
      added + StudentRepository.Inserted(rows + added, nextId + |added|, emails[n - 1], 0)
  }

  /** Some row carries email `e`. */
  ghost predicate HasRow(rows: seq<Student>, e: string) {
    exists s :: s in rows && s.email == e
  }

  /** One step of `NewRows`: the `n`-th listed email either is already
      carried by a row and adds nothing, or adds one unsuspended row with the
      next counter value. */
  lemma NewRowsLastStep(rows: seq<Student>, nextId: nat, emails: seq<string>, n: nat)
    requires 0 < n <= |emails|
    ensures var added := NewRows(rows, nextId, emails, n - 1);
            var r := NewRows(rows, nextId, emails, n);
            && (|r| == |added| <==> HasRow(rows + added, emails[n - 1]))
            && (|r| == |added| ==> r == added)
            && (|r| != |added| ==> r == added + [Student(nextId + |added|, emails[n - 1], 0)])
  {
    var added := NewRows(rows, nextId, emails, n - 1);
    var ins := StudentRepository.Inserted(rows + added, nextId + |added|, emails[n - 1], 0);
    if ins != [] {
      assert ins == [ins[0]];
      assert ins[0] in ins;
    }
  }

  /** The inserted rows are unsuspended and take consecutive counter values. */
  lemma {:induction false} NewRowsIds(rows: seq<Student>, nextId: nat, emails: seq<string>, n: nat)
    requires n <= |emails|
    ensures var r := NewRows(rows, nextId, emails, n);
            forall k :: 0 <= k < |r| ==> r[k] == Student(nextId + k, r[k].email, 0)
  {
    if n > 0 {
      NewRowsIds(rows, nextId, emails, n - 1);
      NewRowsLastStep(rows, nextId, emails, n);
    }
  }

  /** Each inserted row carries a listed email that no earlier row carries. */
  lemma {:induction false} NewRowsSound(rows: seq<Student>, nextId: nat, emails: seq<string>, n: nat)
    requires n <= |emails|
    ensures var r := NewRows(rows, nextId, emails, n);
            forall k :: 0 <= k < |r| ==> r[k].email in emails[..n] && !HasRow(rows, r[k].email)
  {
    if n > 0 {
      var added := NewRows(rows, nextId, emails, n - 1);
      NewRowsSound(rows, nextId, emails, n - 1);
      NewRowsLastStep(rows, nextId, emails, n);
      assert emails[..n] == emails[..n - 1] + [emails[n - 1]];
      if !HasRow(rows + added, emails[n - 1]) {
        forall s | s in rows ensures s.email != emails[n - 1] { assert s in rows + added; }
      }
    }
  }

  /** Once the rows are inserted, every listed email has a row. */
  lemma {:induction false} NewRowsComplete(rows: seq<Student>, nextId: nat, emails: seq<string>, n: nat)
    requires n <= |emails|
    ensures var r := NewRows(rows, nextId, emails, n);
            forall j :: 0 <= j < n ==> HasRow(rows + r, emails[j])
  {
    if n > 0 {
      var added := NewRows(rows, nextId, emails, n - 1);
      var r := NewRows(rows, nextId, emails, n);
      NewRowsComplete(rows, nextId, emails, n - 1);
      NewRowsLastStep(rows, nextId, emails, n);
      assert added <= r;
      assert HasRow(rows + r, emails[n - 1]) by {
        if |r| != |added| {
          assert r[|added|] in rows + r;
        }
      }
      HasRowGrows(rows, added, r, emails, n);
    }
  }

  /** Appending rows keeps every email that had a row. */
  lemma HasRowGrows(rows: seq<Student>, added: seq<Student>, r: seq<Student>, emails: seq<string>, n: nat)
    requires 0 < n <= |emails| && added <= r
    requires forall j :: 0 <= j < n - 1 ==> HasRow(rows + added, emails[j])
    requires HasRow(rows + r, emails[n - 1])
    ensures forall j :: 0 <= j < n ==> HasRow(rows + r, emails[j])
  {
    forall j | 0 <= j < n - 1 ensures HasRow(rows + r, emails[j]) {
      assert HasRow(rows + added, emails[j]);
      var s :| s in rows + added && s.email == emails[j];
      assert s in rows + r;
    }
  }

  /** No two inserted rows carry the same email. */
  lemma {:induction false} NewRowsDistinct(rows: seq<Student>, nextId: nat, emails: seq<string>, n: nat)
    requires n <= |emails|
    ensures var r := NewRows(rows, nextId, emails, n);
            forall i, j :: 0 <= i < j < |r| ==> r[i].email != r[j].email
  {
    if n > 0 {
      var added := NewRows(rows, nextId, emails, n - 1);
      var r := NewRows(rows, nextId, emails, n);
      NewRowsDistinct(rows, nextId, emails, n - 1);
      NewRowsLastStep(rows, nextId, emails, n);
      if |r| != |added| {
        forall i | 0 <= i < |added| ensures r[i].email != r[|added|].email {
          assert added[i] in rows + added;
        }
      }
    }
  }

  /** Rows ordered by where their emails are first listed. */
  ghost predicate InListingOrder(r: seq<Student>, emails: seq<string>)
    requires forall k :: 0 <= k < |r| ==> r[k].email in emails
  {
    forall i, j :: 0 <= i < j < |r| ==> FirstIndex(emails, r[i].email) < FirstIndex(emails, r[j].email)
  }

  /** The inserted rows come in the order their emails are first listed. */
  lemma {:induction false} NewRowsOrder(rows: seq<Student>, nextId: nat, emails: seq<string>, n: nat)
    requires n <= |emails|
    ensures InListingOrder(NewRows(rows, nextId, emails, n), emails)
  {
    if n > 0 {
      var added := NewRows(rows, nextId, emails, n - 1);
      var r := NewRows(rows, nextId, emails, n);
      NewRowsOrder(rows, nextId, emails, n - 1);
      NewRowsLastStep(rows, nextId, emails, n);
      if |r| != |added| {
        NewRowsFirstListed(rows, nextId, emails, n);
        NewRowsSound(rows, nextId, emails, n - 1);
        forall i | 0 <= i < |added|
          ensures FirstIndex(emails, r[i].email) < FirstIndex(emails, r[|added|].email)
        {
          assert r[i] == added[i] && added[i].email in emails[..n - 1];
          FirstIndexOfPrefix(emails, n - 1, added[i].email);
        }
      }
    }
  }

  /** An email that adds a row in step `n` is first listed at position `n - 1`. */
  lemma NewRowsFirstListed(rows: seq<Student>, nextId: nat, emails: seq<string>, n: nat)
    requires 0 < n <= |emails|
    requires |NewRows(rows, nextId, emails, n)| != |NewRows(rows, nextId, emails, n - 1)|
    ensures FirstIndex(emails, emails[n - 1]) == n - 1
  {
    NewRowsLastStep(rows, nextId, emails, n);
    NewRowsComplete(rows, nextId, emails, n - 1);
    FirstListedWithoutRow(rows + NewRows(rows, nextId, emails, n - 1), emails, n - 1);
  }

  /** When every email listed before position `k` has a row and the one at
      `k` has none, position `k` is where that email is first listed. */
  lemma FirstListedWithoutRow(rows: seq<Student>, emails: seq<string>, k: nat)
    requires k < |emails|
    requires forall j :: 0 <= j < k ==> HasRow(rows, emails[j])
    requires !HasRow(rows, emails[k])
    ensures FirstIndex(emails, emails[k]) == k
  {
    forall j | 0 <= j < k ensures emails[j] != emails[k] {
      assert HasRow(rows, emails[j]);
    }
    FirstIndexUnique(emails, emails[k], k);
  }

  /** The first `n` found students are rows of the table with the first `n`
      emails, in order. */
  ghost predicate Resolved(students: seq<Student>, rows: seq<Student>, emails: seq<string>, n: nat)
    requires n <= |emails|
  {
    && |students| == n
    && forall k :: 0 <= k < n ==> students[k] in rows && students[k].email == emails[k]
  }

  lemma ResolvedStep(students: seq<Student>, rows: seq<Student>, rows': seq<Student>,
                     emails: seq<string>, n: nat, student: Student)
    requires n < |emails| && Resolved(students, rows, emails, n) && rows <= rows'
    requires student in rows' && student.email == emails[n]
    ensures Resolved(students + [student], rows', emails, n + 1)
  {
    forall k | 0 <= k < n
      ensures students[k] in rows'
    {
      var j :| 0 <= j < |rows| && rows[j] == students[k];
      assert rows'[j] == students[k];
    }
  }

  /** The edges after the teacher's `students` relation is extended with the
      found students whose ids it does not hold yet, and saved. */
  function LinkNew(links: set<(nat, nat)>, teacherId: nat, students: seq<Student>): (r: set<(nat, nat)>)
    ensures links <= r
    ensures forall l :: l in r && l !in links ==> l.0 == teacherId
  {
    var existingStudentIds := set l | l in links && l.0 == teacherId :: l.1;
    var newStudents := Filter(students, (s: Student) => s.studentId !in existingStudentIds);
    if |newStudents| > 0 then links + set s | s in newStudents :: (teacherId, s.studentId)
    else links
  }

  /** Exactly the edges from the teacher to the found students are added;
      edges already present, the teacher's own and other teachers', stay. */
  lemma LinkNewEffect(links: set<(nat, nat)>, teacherId: nat, students: seq<Student>)
    ensures forall l :: l in LinkNew(links, teacherId, students) <==>
              l in links || (l.0 == teacherId && exists s :: s in students && s.studentId == l.1)
  {
    var existingStudentIds := set l | l in links && l.0 == teacherId :: l.1;
    var newStudents := Filter(students, (s: Student) => s.studentId !in existingStudentIds);
    forall s | s in students ensures (teacherId, s.studentId) in LinkNew(links, teacherId, students) {
      if s.studentId in existingStudentIds {
        var l :| l in links && l.0 == teacherId && l.1 == s.studentId;
        assert l == (teacherId, s.studentId);
      } else {
        assert s in newStudents;
      }
    }
  }

  /** Step 3 of `registerStudents`: the teacher's `students` relation gains
      the found students it does not hold yet, and is saved. Afterwards every
      listed student is linked, and no other edge is added or lost. */
  method LinkStudents(db: Database, teacherId: nat, studentEmails: seq<string>, students: seq<Student>)
    requires db.Valid()
    requires teacherId in TeacherIds(db.teachers)
    requires Resolved(students, db.students, studentEmails, |studentEmails|)
    modifies db
    ensures db.Valid()
    ensures db.State() == old(db.State()).(teacherStudents := LinkNew(old(db.teacherStudents), teacherId, students))
    ensures StudentsLinked(db, teacherId, studentEmails)
    ensures EdgesAdded(db, old(db.teacherStudents), teacherId, studentEmails)
  {
    LinkNewEffect(db.teacherStudents, teacherId, students);
    db.teacherStudents := LinkNew(db.teacherStudents, teacherId, students);
    LinkedAfterLinking(db, old(db.teacherStudents), teacherId, studentEmails, students);
    EdgesAfterLinking(db, old(db.teacherStudents), teacherId, studentEmails, students);
  }

  /** The part of `registerStudents` after the teacher is known: find or
      create each listed student, then link the new pairs. */
  method RegisterForTeacher(db: Database, teacherId: nat, studentEmails: seq<string>)
    requires db.Valid()
    requires teacherId in TeacherIds(db.teachers)
    modifies db
    ensures db.Valid()
    ensures db.students == old(db.students) + NewRows(old(db.students), old(db.nextStudentId), studentEmails, |studentEmails|)
    ensures db.nextStudentId == old(db.nextStudentId) + |db.students| - |old(db.students)|
    ensures db.State() == old(db.State()).(students := db.students, nextStudentId := db.nextStudentId,
                                           teacherStudents := db.teacherStudents)
    ensures StudentsLinked(db, teacherId, studentEmails)
    ensures EdgesAdded(db, old(db.teacherStudents), teacherId, studentEmails)
  {
    var students := FindOrCreateStudents(db, studentEmails);
    LinkStudents(db, teacherId, studentEmails, students);
  }

  /** `registerStudents`: find or create the teacher, find or create each
      listed student (new ones unsuspended), and link to the teacher each
      listed student not yet linked to it. Runs in one transaction. */
  method RegisterStudents(db: Database, teacherEmail: string, studentEmails: seq<string>)
    returns (r: Result<(), Error>)
    requires db.Valid()
    modifies db
    ensures db.Valid()
    ensures r.Failure? <==> teacherEmail == "" || studentEmails == []
    ensures teacherEmail == "" ==> r == Failure(TeacherEmailRequired)
    ensures teacherEmail != "" && studentEmails == [] ==> r == Failure(StudentEmailsRequired)
    ensures r.Failure? ==> db.State() == old(db.State())
    ensures r.Success? ==> Registered(db, old(db.teacherStudents), teacherEmail, studentEmails)
    ensures old(TeacherRepository.FindByEmail(db, teacherEmail)).Some? || r.Failure? ==>
              db.teachers == old(db.teachers) && db.nextTeacherId == old(db.nextTeacherId)
    ensures old(TeacherRepository.FindByEmail(db, teacherEmail)).None? && r.Success? ==>
              && db.teachers == old(db.teachers) + [Teacher(old(db.nextTeacherId), teacherEmail)]
              && db.nextTeacherId == old(db.nextTeacherId) + 1
    ensures old(db.students) <= db.students
    ensures forall i :: |old(db.students)| <= i < |db.students| ==>
              && db.students[i].studentId == old(db.nextStudentId) + i - |old(db.students)|
              && db.students[i].isSuspended == 0 && db.students[i].email in studentEmails
    ensures db.nextStudentId == old(db.nextStudentId) + |db.students| - |old(db.students)|
    ensures r.Success? ==>
              db.students == old(db.students) + NewRows(old(db.students), old(db.nextStudentId), studentEmails, |studentEmails|)
    ensures db.classes == old(db.classes) && db.subjects == old(db.subjects)
    ensures db.classSubjects == old(db.classSubjects) && db.classStudents == old(db.classStudents)
  {
    if teacherEmail == "" {
      return Failure(TeacherEmailRequired);
    }
    if |studentEmails| == 0 {
      return Failure(StudentEmailsRequired);
    }
    var teacher := TeachersService.FindOrCreateTeacher(db, teacherEmail);
    var teacherId := teacher.value;
    var teacherEntity := Find(db.teachers, (t: Teacher) => t.teacherId == teacherId);
    if teacherEntity.None? {
      assert false;
    }
    RegisterForTeacher(db, teacherId, studentEmails);
    NewRowsIds(old(db.students), old(db.nextStudentId), studentEmails, |studentEmails|);
    NewRowsSound(old(db.students), old(db.nextStudentId), studentEmails, |studentEmails|);
    assert studentEmails[..|studentEmails|] == studentEmails;
    r := Success(());
  }

  // ------------------------------------------------------- common students

  /** `getCommonStudents`: the emails of the students registered to every
      listed teacher. One teacher gives its unsuspended students; several give
      the join query, which does not look at suspension. */
  function GetCommonStudents(db: Database, teacherEmails: seq<string>): (r: Result<seq<string>, Error>)
    reads db
    requires db.Valid()
    ensures r.Failure? <==> teacherEmails == []
    ensures r.Failure? ==> r.error == TeacherEmailsRequired
    ensures r.Success? ==> NoDup(r.value)
  {
    if |teacherEmails| == 0 then Failure(TeacherEmailsRequired)
    else
      var teachers := TeacherRepository.FindByEmails(db, teacherEmails);
      if |teachers| != |teacherEmails| then Success([])
      else
        var teacherIds := Map(teachers, (t: Teacher) => t.teacherId);
        if |teacherIds| == 1 then
          var students := StudentRepository.FindByTeacherAndNotSuspended(db, teacherIds[0]);
          StudentRepository.EmailsOfRowsNoDup(db, students);
          Success(Emails(students))
        else
          var students := StudentRepository.FindRegisteredToAllTeachers(db, teacherIds);
          StudentRepository.EmailsOfRowsNoDup(db, students);
          Success(Emails(students))
  }

  /** A teacher email that belongs to no teacher, or one listed twice, makes
      the teacher count fall short: the answer is empty. */
  lemma CommonStudentsUnknownOrRepeated(db: Database, teacherEmails: seq<string>)
    requires db.Valid()
    requires teacherEmails != []
    requires !NoDup(teacherEmails)
             || exists e :: e in teacherEmails && TeacherRepository.FindByEmail(db, e).None?
    ensures GetCommonStudents(db, teacherEmails) == Success([])
  {
    TeacherRepository.FindByEmailsCount(db, teacherEmails);
  }

  /** One known teacher: exactly the emails of that teacher's unsuspended students. */
  lemma CommonStudentsOfOne(db: Database, teacherEmail: string)
    requires db.Valid()
    requires TeacherRepository.FindByEmail(db, teacherEmail).Some?
    ensures GetCommonStudents(db, [teacherEmail]).Success?
    ensures forall e :: e in GetCommonStudents(db, [teacherEmail]).value <==>
              exists s :: s in db.students && s.email == e && s.isSuspended == 0
                && (TeacherIdOf(db, teacherEmail), s.studentId) in db.teacherStudents
  {
    var t := TeacherRepository.FindByEmail(db, teacherEmail).value;
    TeacherRepository.FindByEmailsCount(db, [teacherEmail]);
    var teachers := TeacherRepository.FindByEmails(db, [teacherEmail]);
    assert teachers[0] in teachers;
    TeacherEmailIdentifies(db.teachers, db.nextTeacherId);
    assert teachers[0] == t;
    var students := StudentRepository.FindByTeacherAndNotSuspended(db, t.teacherId);
    forall e ensures e in Emails(students) <==> exists s :: s in students && s.email == e {
      EmailsMembership(students, e);
    }
  }

  /** `teachers.map((t) => t.teacherId)` after `findByEmails`. */
  function FoundTeacherIds(db: Database, teacherEmails: seq<string>): (r: seq<nat>)
    reads db
    requires db.Valid()
    ensures |r| <= |teacherEmails|
    ensures forall k :: 0 <= k < |r| ==> r[k] in TeacherIds(db.teachers)
  {
    TeacherRepository.FindByEmailsCount(db, teacherEmails);
    Map(TeacherRepository.FindByEmails(db, teacherEmails), (t: Teacher) => t.teacherId)
  }

  /** Distinct rows have distinct ids, so the found ids have no repeats. */
  lemma FoundTeacherIdsNoDup(db: Database, teacherEmails: seq<string>)
    requires db.Valid()
    ensures NoDup(FoundTeacherIds(db, teacherEmails))
  {
    TeacherEmailIdentifies(db.teachers, db.nextTeacherId);
    var teachers := TeacherRepository.FindByEmails(db, teacherEmails);
    var ids := FoundTeacherIds(db, teacherEmails);
    forall i, j | 0 <= i < j < |ids| ensures ids[i] != ids[j] {
      assert teachers[i] in teachers && teachers[j] in teachers;
    }
  }

  /** Each listed email that belongs to a teacher contributes that teacher's id. */
  lemma FoundTeacherIdsComplete(db: Database, teacherEmails: seq<string>, te: string)
    requires db.Valid()
    requires te in teacherEmails && TeacherRepository.FindByEmail(db, te).Some?
    ensures TeacherIdOf(db, te) in FoundTeacherIds(db, teacherEmails)
  {
    var teachers := TeacherRepository.FindByEmails(db, teacherEmails);
    var t := TeacherRepository.FindByEmail(db, te).value;
    var i :| 0 <= i < |teachers| && teachers[i] == t;
    assert FoundTeacherIds(db, teacherEmails)[i] == t.teacherId;
  }

  /** Each found id is the id of a listed email. */
  lemma FoundTeacherIdsSound(db: Database, teacherEmails: seq<string>, i: nat)
    requires db.Valid()
    requires i < |FoundTeacherIds(db, teacherEmails)|
    ensures exists te :: te in teacherEmails && TeacherRepository.FindByEmail(db, te).Some?
              && TeacherIdOf(db, te) == FoundTeacherIds(db, teacherEmails)[i]
  {
    var teachers := TeacherRepository.FindByEmails(db, teacherEmails);
    assert teachers[i] in teachers;
    assert TeacherRepository.FindByEmail(db, teachers[i].email) == Some(teachers[i]);
  }

  /** Several distinct known teachers: exactly the emails of the students
      linked to every one of them, suspended or not. */
  lemma CommonStudentsOfMany(db: Database, teacherEmails: seq<string>)
    requires db.Valid()
    requires |teacherEmails| >= 2 && NoDup(teacherEmails)
    requires forall e :: e in teacherEmails ==> TeacherRepository.FindByEmail(db, e).Some?
    ensures GetCommonStudents(db, teacherEmails).Success?
    ensures forall e :: e in GetCommonStudents(db, teacherEmails).value <==>
              exists s :: s in db.students && s.email == e
                && forall te :: te in teacherEmails ==> (TeacherIdOf(db, te), s.studentId) in db.teacherStudents
  {
    TeacherRepository.FindByEmailsCount(db, teacherEmails);
    FoundTeacherIdsNoDup(db, teacherEmails);
    var ids := FoundTeacherIds(db, teacherEmails);
    StudentRepository.FindRegisteredToAllTeachersMeaning(db, ids);
    var students := StudentRepository.FindRegisteredToAllTeachers(db, ids);
    forall s | s in db.students
      ensures s in students <==>
                forall te :: te in teacherEmails ==> (TeacherIdOf(db, te), s.studentId) in db.teacherStudents
    {
      if forall te :: te in teacherEmails ==> (TeacherIdOf(db, te), s.studentId) in db.teacherStudents {
        forall id | id in ids ensures (id, s.studentId) in db.teacherStudents {
          var i :| 0 <= i < |ids| && ids[i] == id;
          FoundTeacherIdsSound(db, teacherEmails, i);
        }
      }
      if s in students {
        forall te | te in teacherEmails
          ensures (TeacherIdOf(db, te), s.studentId) in db.teacherStudents
        {
          FoundTeacherIdsComplete(db, teacherEmails, te);
        }
      }
    }
    forall e ensures e in Emails(students) <==> exists s :: s in students && s.email == e {
      EmailsMembership(students, e);
    }
  }

  /** The query transform of the controller removes repeats, so a list with a
      repeated teacher, which the service alone answers with `[]`, is asked
      with each teacher once. */
  lemma CommonStudentsAfterTransform(db: Database, teacherEmail: string)
    requires db.Valid()
    ensures GetCommonStudents(db, [teacherEmail, teacherEmail]) == Success([])
    ensures StudentsDto.NormaliseTeachers(StudentsDto.Multiple([teacherEmail, teacherEmail])) == [teacherEmail]
  {
    assert [teacherEmail, teacherEmail][0] == [teacherEmail, teacherEmail][1];
    CommonStudentsUnknownOrRepeated(db, [teacherEmail, teacherEmail]);
    StudentsDto.NormaliseRepeated(teacherEmail);
  }

  // -------------------------------------------------------------- suspension

  /** `suspendStudent`: the student with that email is marked suspended. */
  method SuspendStudent(db: Database, studentEmail: string) returns (r: Result<(), Error>)
    requires db.Valid()
    modifies db
    ensures db.Valid()
    ensures studentEmail == "" ==> r == Failure(StudentEmailRequired)
    ensures studentEmail != "" && old(StudentRepository.FindByEmail(db, studentEmail)).None? ==>
              r == Failure(StudentNotFound)
    ensures r.Failure? ==> db.State() == old(db.State())
    ensures r.Success? <==> studentEmail != "" && old(StudentRepository.FindByEmail(db, studentEmail)).Some?
    ensures r.Success? ==>
              && db.State() == old(db.State()).(students := StudentRepository.Suspended(
                   old(db.students), old(StudentRepository.FindByEmail(db, studentEmail)).value.studentId))
              && StudentRepository.FindByEmail(db, studentEmail)
                   == Some(old(StudentRepository.FindByEmail(db, studentEmail)).value.(isSuspended := 1))
  {
    if studentEmail == "" {
      return Failure(StudentEmailRequired);
    }
    var student := StudentRepository.FindByEmail(db, studentEmail);
    if student.None? {
      return Failure(StudentNotFound);
    }
    StudentRepository.SuspendedEffect(db.students, db.nextStudentId, student.value.studentId);
    StudentRepository.Suspend(db, student.value.studentId);
    assert student.value.(isSuspended := 1) in db.students;
    r := Success(());
  }

  /** Suspending twice is suspending once: the second call succeeds and
      changes nothing. */
  method SuspendStudentTwice(db: Database, studentEmail: string)
    returns (first: Result<(), Error>, second: Result<(), Error>)
    requires db.Valid()
    modifies db
    ensures db.Valid()
    ensures first == second
    ensures first.Failure? ==> db.State() == old(db.State())
    ensures studentEmail != "" && old(StudentRepository.FindByEmail(db, studentEmail)).Some? ==>
              db.State() == old(db.State()).(students := StudentRepository.Suspended(
                old(db.students), old(StudentRepository.FindByEmail(db, studentEmail)).value.studentId))
  {
    first := SuspendStudent(db, studentEmail);
    ghost var found := StudentRepository.FindByEmail(db, studentEmail);
    assert first.Success? ==> found.Some?;
    assert first.Failure? ==> found == old(StudentRepository.FindByEmail(db, studentEmail));
    second := SuspendStudent(db, studentEmail);
    assert first.Success? ==> second.Success? && first.value == () == second.value;
    if first.Success? {
      StudentRepository.SuspendedEffect(old(db.students), old(db.nextStudentId),
        old(StudentRepository.FindByEmail(db, studentEmail)).value.studentId);
    }
  }

  // ----------------------------------------------------------- notification

  /** Who receives a notification from the teacher with that id: the emails of
      the teacher's unsuspended students, then those of the unsuspended
      students mentioned in the text, each once and in insertion order. */
  function Recipients(db: Database, teacherId: nat, notificationText: string): (r: seq<string>)
    reads db
    requires db.Valid()
    ensures NoDup(r)
  {
    Dedup(Emails(StudentRepository.FindByTeacherAndNotSuspended(db, teacherId))
          + Emails(StudentRepository.FindMentionedAndNotSuspended(db, ExtractMentionedEmails(notificationText))))
  }

  /** An email receives the notification iff it belongs to an unsuspended
      student who is registered to the teacher or mentioned in the text. */
  lemma RecipientsMeaning(db: Database, teacherId: nat, notificationText: string)
    requires db.Valid()
    ensures forall e :: e in Recipients(db, teacherId, notificationText) <==>
              exists s :: s in db.students && s.email == e && s.isSuspended == 0
                && ((teacherId, s.studentId) in db.teacherStudents || e in ExtractMentionedEmails(notificationText))
  {
    var registered := StudentRepository.FindByTeacherAndNotSuspended(db, teacherId);
    var mentioned := StudentRepository.FindMentionedAndNotSuspended(db, ExtractMentionedEmails(notificationText));
    forall e ensures e in Emails(registered) + Emails(mentioned) <==>
                       (exists s :: s in registered && s.email == e) || (exists s :: s in mentioned && s.email == e)
    {
      EmailsMembership(registered, e);
      EmailsMembership(mentioned, e);
    }
  }

  /** A suspended student never receives a notification, even when registered
      to the teacher and mentioned by name. */
  lemma SuspendedNeverNotified(db: Database, teacherId: nat, notificationText: string, s: Student)
    requires db.Valid()
    requires s in db.students && s.isSuspended != 0
    ensures s.email !in Recipients(db, teacherId, notificationText)
  {
    RecipientsMeaning(db, teacherId, notificationText);
    StudentEmailIdentifies(db.students, db.nextStudentId);
  }

  /** A mention of an email nobody holds adds nobody; an email in the result is
      that of a known student. */
  lemma RecipientsAreStudents(db: Database, teacherId: nat, notificationText: string, e: string)
    requires db.Valid()
    requires e in Recipients(db, teacherId, notificationText)
    ensures StudentRepository.FindByEmail(db, e).Some?
    ensures StudentRepository.FindByEmail(db, e).value.isSuspended == 0
  {
    RecipientsMeaning(db, teacherId, notificationText);
    StudentEmailIdentifies(db.students, db.nextStudentId);
  }

  /** `students.forEach((s) => recipients.add(s.email))` on a JavaScript `Set`
      that so far holds `seen` in insertion order: emails already present are
      skipped, the others appended. */
  method AddEmails(recipients: seq<string>, ghost seen: seq<string>, students: seq<Student>)
    returns (r: seq<string>)
    requires recipients == Dedup(seen)
    ensures r == Dedup(seen + Emails(students))
  {
    r := recipients;
    assert seen + Emails(students[..0]) == seen;
    for i := 0 to |students|
      invariant r == Dedup(seen + Emails(students[..i]))
    {
      var email := students[i].email;
      assert students[..i + 1] == students[..i] + [students[i]];
      EmailsSnoc(students[..i], students[i]);
      assert seen + Emails(students[..i + 1]) == (seen + Emails(students[..i])) + [email];
      DedupSnoc(seen + Emails(students[..i]), email);
      if email !in r {
        r := r + [email];
      }
    }
    assert students[..|students|] == students;
  }

  /** The read-only part of `getNotificationRecipients`: the teacher's
      unsuspended students, then the mentioned unsuspended students, each
      email added to an insertion-ordered Set. */
  method CollectRecipients(db: Database, teacherId: nat, notificationText: string, mentionedEmails: seq<string>)
    returns (recipients: seq<string>)
    requires db.Valid()
    requires mentionedEmails == ExtractMentionedEmails(notificationText)
    ensures recipients == Recipients(db, teacherId, notificationText)
  {
    var registeredStudents := StudentRepository.FindByTeacherAndNotSuspended(db, teacherId);
    assert [] + Emails(registeredStudents) == Emails(registeredStudents);
    recipients := AddEmails([], [], registeredStudents);
    var mentionedStudents: seq<Student> := [];
    if |mentionedEmails| > 0 {
      mentionedStudents := StudentRepository.FindMentionedAndNotSuspended(db, mentionedEmails);
      recipients := AddEmails(recipients, Emails(registeredStudents), mentionedStudents);
    } else {
      assert StudentRepository.FindMentionedAndNotSuspended(db, mentionedEmails) == mentionedStudents;
      assert Emails(registeredStudents) + Emails(mentionedStudents) == Emails(registeredStudents);
    }
  }

  /** `getNotificationRecipients`: extract the mentions, find or create the
      teacher, and gather the recipients into a set. */
  method GetNotificationRecipients(db: Database, teacherEmail: string, notificationText: string)
    returns (r: Result<seq<string>, Error>)
    requires db.Valid()
    modifies db
    ensures db.Valid()
    ensures r.Failure? <==> teacherEmail == ""
    ensures r.Failure? ==> r.error == TeacherEmailRequired && db.State() == old(db.State())
    ensures r.Success? ==>
              && TeacherRepository.FindByEmail(db, teacherEmail).Some?
              && r.value == Recipients(db, TeacherIdOf(db, teacherEmail), notificationText)
    ensures old(TeacherRepository.FindByEmail(db, teacherEmail)).Some? || r.Failure? ==>
              db.State() == old(db.State())
    ensures old(TeacherRepository.FindByEmail(db, teacherEmail)).None? && r.Success? ==>
              db.State() == old(db.State()).(teachers := old(db.teachers) + [Teacher(old(db.nextTeacherId), teacherEmail)],
                                             nextTeacherId := old(db.nextTeacherId) + 1)
  {
    var mentionedEmails := ExtractMentionedEmails(notificationText);
    var teacher := TeachersService.FindOrCreateTeacher(db, teacherEmail);
    if teacher.Failure? {
      return Failure(teacher.error);
    }
    assert TeacherIdOf(db, teacherEmail) == teacher.value;
    var recipients := CollectRecipients(db, teacher.value, notificationText, mentionedEmails);
    r := Success(recipients);
  }
}
