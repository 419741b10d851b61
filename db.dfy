/** The relational store behind the repositories (src/db/models): the
    `teachers` and `students` tables, the `teacher_students` join table of the
    many-to-many relation, and the `classes`, `subjects`, `class_subjects` and
    `class_students` tables of class enrolment.

    Each of `teachers` and `students` is kept as its rows in primary-key order,
    with an AUTO_INCREMENT counter and a unique index on `email`; the join and
    pair tables are sets, since their primary keys are the pairs themselves. */
module Db {
  import opened Seqs

  /** MySQL `TINYINT`, the type of `is_suspended`. */
  type TinyInt = x: int | -128 <= x < 128

  datatype Teacher = Teacher(teacherId: nat, email: string)

  datatype Student = Student(studentId: nat, email: string, isSuspended: TinyInt)

  datatype ClassSubject = ClassSubject(classId: nat, subjectId: nat)

  datatype ClassStudent = ClassStudent(classId: nat, studentId: nat)

  /** The contents of every table at one moment. */
  datatype Tables = Tables(
    teachers: seq<Teacher>,
    students: seq<Student>,
    teacherStudents: set<(nat, nat)>,
    nextTeacherId: nat,
    nextStudentId: nat,
    classes: set<nat>,
    subjects: set<nat>,
    classSubjects: set<ClassSubject>,
    classStudents: set<ClassStudent>)

  function TeacherIds(rows: seq<Teacher>): set<nat> {
    set t | t in rows :: t.teacherId
  }

  function StudentIds(rows: seq<Student>): set<nat> {
    set s | s in rows :: s.studentId
  }

  /** The `teachers` table: ids issued by the counter in increasing order, and
      the unique index on `email`. */
  ghost predicate TeacherTable(rows: seq<Teacher>, nextId: nat) {
    && (forall i :: 0 <= i < |rows| ==> rows[i].teacherId < nextId)
    && (forall i, j :: 0 <= i < j < |rows| ==>
          rows[i].teacherId < rows[j].teacherId && rows[i].email != rows[j].email)
  }

  /** The `students` table, with the same two constraints. */
  ghost predicate StudentTable(rows: seq<Student>, nextId: nat) {
    && (forall i :: 0 <= i < |rows| ==> rows[i].studentId < nextId)
    && (forall i, j :: 0 <= i < j < |rows| ==>
          rows[i].studentId < rows[j].studentId && rows[i].email != rows[j].email)
  }

  /** Table constraints, and the foreign keys of the join and pair tables. */
  ghost predicate Consistent(t: Tables) {
    && TeacherTable(t.teachers, t.nextTeacherId)
    && StudentTable(t.students, t.nextStudentId)
    && (forall l :: l in t.teacherStudents ==>
          l.0 in TeacherIds(t.teachers) && l.1 in StudentIds(t.students))
    && (forall cs :: cs in t.classSubjects ==> cs.classId in t.classes && cs.subjectId in t.subjects)
    && (forall cs :: cs in t.classStudents ==>
          cs.classId in t.classes && cs.studentId in StudentIds(t.students))
  }

  class Database {
    var teachers: seq<Teacher>
    var students: seq<Student>
    var teacherStudents: set<(nat, nat)>
    var nextTeacherId: nat
    var nextStudentId: nat
    var classes: set<nat>
    var subjects: set<nat>
    var classSubjects: set<ClassSubject>
    var classStudents: set<ClassStudent>

    function State(): Tables
      reads this
    {
      Tables(teachers, students, teacherStudents, nextTeacherId, nextStudentId,
             classes, subjects, classSubjects, classStudents)
    }

    ghost predicate Valid()
      reads this
    {
      Consistent(State())
    }

    /** An empty registry over the given classes and subjects, which this
        core reads but never creates. AUTO_INCREMENT starts at 1. */
    constructor (classes: set<nat>, subjects: set<nat>)
      ensures Valid()
      ensures State() == Tables([], [], {}, 1, 1, classes, subjects, {}, {})
    {
      teachers, students, teacherStudents := [], [], {};
      nextTeacherId, nextStudentId := 1, 1;
      this.classes, this.subjects := classes, subjects;
      classSubjects, classStudents := {}, {};
    }
  }

  /** The unique index on `teachers.email`: the email identifies the row. */
  lemma TeacherEmailIdentifies(rows: seq<Teacher>, nextId: nat)
    requires TeacherTable(rows, nextId)
    ensures NoDup(rows)
    ensures forall t1, t2 :: t1 in rows && t2 in rows && t1.email == t2.email ==> t1 == t2
    ensures forall t1, t2 :: t1 in rows && t2 in rows && t1.teacherId == t2.teacherId ==> t1 == t2
  {
    forall t1, t2 | t1 in rows && t2 in rows && (t1.email == t2.email || t1.teacherId == t2.teacherId)
      ensures t1 == t2
    {
      var i :| 0 <= i < |rows| && rows[i] == t1;
      var j :| 0 <= j < |rows| && rows[j] == t2;
      assert i == j;
    }
  }

  /** The unique index on `students.email`, and the primary key. */
  lemma StudentEmailIdentifies(rows: seq<Student>, nextId: nat)
    requires StudentTable(rows, nextId)
    ensures NoDup(rows)
    ensures forall s1, s2 :: s1 in rows && s2 in rows && s1.email == s2.email ==> s1 == s2
    ensures forall s1, s2 :: s1 in rows && s2 in rows && s1.studentId == s2.studentId ==> s1 == s2
  {
    forall s1, s2 | s1 in rows && s2 in rows && (s1.email == s2.email || s1.studentId == s2.studentId)
      ensures s1 == s2
    {
      var i :| 0 <= i < |rows| && rows[i] == s1;
      var j :| 0 <= j < |rows| && rows[j] == s2;
      assert i == j;
    }
  }

  /** Appending a row with a fresh id and an unused email keeps the table. */
  lemma TeacherTableAppend(rows: seq<Teacher>, nextId: nat, email: string)
    requires TeacherTable(rows, nextId)
    requires forall t :: t in rows ==> t.email != email
    ensures TeacherTable(rows + [Teacher(nextId, email)], nextId + 1)
  {
    var rows' := rows + [Teacher(nextId, email)];
    forall i, j | 0 <= i < j < |rows'|
      ensures rows'[i].teacherId < rows'[j].teacherId && rows'[i].email != rows'[j].email
    {
      if j == |rows| {
        assert rows'[i] in rows;
      }
    }
  }

  lemma StudentTableAppend(rows: seq<Student>, nextId: nat, email: string, isSuspended: TinyInt)
    requires StudentTable(rows, nextId)
    requires forall s :: s in rows ==> s.email != email
    ensures StudentTable(rows + [Student(nextId, email, isSuspended)], nextId + 1)
  {
    var rows' := rows + [Student(nextId, email, isSuspended)];
    forall i, j | 0 <= i < j < |rows'|
      ensures rows'[i].studentId < rows'[j].studentId && rows'[i].email != rows'[j].email
    {
      if j == |rows| {
        assert rows'[i] in rows;
      }
    }
  }
}
