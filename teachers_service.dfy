/** src/teachers/teachers.service.ts: `findOrCreateTeacher`, the entry point
    through which every teacher comes into existence. The identical method in
    src/students/students.service.ts is this one. */
module TeachersService {
  import opened Wrappers
  import opened Errors
  import opened Db
  import TeacherRepository

  /** The id of the teacher with that email, inserting the teacher first when
      there is none. An empty email is refused before the store is touched. */
  method FindOrCreateTeacher(db: Database, teacherEmail: string) returns (r: Result<nat, Error>)
    requires db.Valid()
    modifies db
    ensures db.Valid()
    ensures r.Failure? <==> teacherEmail == ""
    ensures r.Failure? ==> r.error == TeacherEmailRequired && db.State() == old(db.State())
    ensures r.Success? ==> TeacherRepository.FindByEmail(db, teacherEmail) == Some(Teacher(r.value, teacherEmail))
    ensures r.Success? && old(TeacherRepository.FindByEmail(db, teacherEmail)).Some? ==>
              r.value == old(TeacherRepository.FindByEmail(db, teacherEmail)).value.teacherId
              && db.State() == old(db.State())
    ensures r.Success? && old(TeacherRepository.FindByEmail(db, teacherEmail)).None? ==>
              r.value == old(db.nextTeacherId)
              && db.State() == old(db.State()).(teachers := old(db.teachers) + [Teacher(r.value, teacherEmail)],
                                                nextTeacherId := old(db.nextTeacherId) + 1)
  {
    if teacherEmail == "" {
      return Failure(TeacherEmailRequired);
    }
    var teacher := TeacherRepository.FindByEmail(db, teacherEmail);
    if teacher.None? {
      var created := TeacherRepository.Create(db, teacherEmail);
      teacher := Some(created.value);
      assert created.value in db.teachers;
    }
    return Success(teacher.value.teacherId);
  }

  /** Calling twice with the same email gives the same id and leaves the store
      as one call would, so the second call changes nothing; exactly one
      teacher has that email afterwards. */
  method FindOrCreateTeacherTwice(db: Database, teacherEmail: string)
    returns (first: Result<nat, Error>, second: Result<nat, Error>)
    requires db.Valid()
    modifies db
    ensures db.Valid()
    ensures first == second
    ensures first.Success? ==>
              TeacherRepository.FindByEmail(db, teacherEmail) == Some(Teacher(first.value, teacherEmail))
    ensures first.Success? ==>
              forall t :: t in db.teachers && t.email == teacherEmail ==> t.teacherId == first.value
    ensures |db.teachers| <= old(|db.teachers|) + 1
    ensures first.Failure? || old(TeacherRepository.FindByEmail(db, teacherEmail)).Some? ==>
              db.State() == old(db.State())
    ensures first.Success? && old(TeacherRepository.FindByEmail(db, teacherEmail)).None? ==>
              db.State() == old(db.State()).(teachers := old(db.teachers) + [Teacher(first.value, teacherEmail)],
                                             nextTeacherId := old(db.nextTeacherId) + 1)
  {
    first := FindOrCreateTeacher(db, teacherEmail);
    second := FindOrCreateTeacher(db, teacherEmail);
  }
}
