/** src/db/repositories/teacher.repository.ts: lookups and inserts on the
    `teachers` table. */
module TeacherRepository {
  import opened Wrappers
  import opened Seqs
  import opened Errors
  import opened Db

  /** `findByEmail`: the teacher with that email, or null. */
  function FindByEmail(db: Database, email: string): (r: Option<Teacher>)
    reads db
    requires db.Valid()
    ensures r.Some? ==> r.value in db.teachers && r.value.email == email
    ensures r.Some? ==> forall t :: t in db.teachers && t.email == email ==> t == r.value
    ensures r.None? <==> forall t :: t in db.teachers ==> t.email != email
  {
    TeacherEmailIdentifies(db.teachers, db.nextTeacherId);
    Find(db.teachers, (t: Teacher) => t.email == email)
  }

  /** `findByEmails`: `WHERE email IN (emails)`. */
  function FindByEmails(db: Database, emails: seq<string>): (r: seq<Teacher>)
    reads db
    requires db.Valid()
    ensures forall t :: t in r <==> t in db.teachers && t.email in emails
    ensures NoDup(r)
  {
    TeacherEmailIdentifies(db.teachers, db.nextTeacherId);
    FilterNoDup(db.teachers, (t: Teacher) => t.email in emails);
    Filter(db.teachers, (t: Teacher) => t.email in emails)
  }

  /** At most one teacher per distinct requested email comes back, and exactly
      as many as were requested when the request has no repeats and every
      email belongs to a teacher. */
  lemma FindByEmailsCount(db: Database, emails: seq<string>)
    requires db.Valid()
    ensures |FindByEmails(db, emails)| <= |Elements(emails)| <= |emails|
    ensures |FindByEmails(db, emails)| == |emails| <==>
              NoDup(emails) && forall e :: e in emails ==> FindByEmail(db, e).Some?
  {
    var r := FindByEmails(db, emails);
    TeacherEmailIdentifies(db.teachers, db.nextTeacherId);
    KeyedSelectionCount(r, db.teachers, (t: Teacher) => t.email, emails);
    ElementsCardinality(emails);
    if NoDup(emails) && forall e :: e in emails ==> FindByEmail(db, e).Some? {
      forall e | e in emails ensures exists t :: t in db.teachers && t.email == e {
        assert FindByEmail(db, e).value in db.teachers;
      }
    }
  }

  /** `create`: insert a row with the next id. The unique index on `email`
      rejects a second teacher with the same email. */
  method Create(db: Database, email: string) returns (r: Result<Teacher, Error>)
    requires db.Valid()
    modifies db
    ensures db.Valid()
    ensures old(FindByEmail(db, email)).Some? ==>
              r == Failure(DuplicateEmail(email)) && db.State() == old(db.State())
    ensures old(FindByEmail(db, email)).None? ==>
              && r == Success(Teacher(old(db.nextTeacherId), email))
              && db.State() == old(db.State()).(teachers := old(db.teachers) + [r.value],
                                                nextTeacherId := old(db.nextTeacherId) + 1)
  {
    if FindByEmail(db, email).Some? {
      return Failure(DuplicateEmail(email));
    }
    var teacher := Teacher(db.nextTeacherId, email);
    TeacherTableAppend(db.teachers, db.nextTeacherId, email);
    db.teachers := db.teachers + [teacher];
    db.nextTeacherId := db.nextTeacherId + 1;
    r := Success(teacher);
  }

  /** `findOrCreate`: the existing teacher, or a newly inserted one. */
  method FindOrCreate(db: Database, email: string) returns (teacher: Teacher)
    requires db.Valid()
    modifies db
    ensures db.Valid()
    ensures FindByEmail(db, email) == Some(teacher)
    ensures old(FindByEmail(db, email)).Some? ==>
              teacher == old(FindByEmail(db, email)).value && db.State() == old(db.State())
    ensures old(FindByEmail(db, email)).None? ==>
              && teacher == Teacher(old(db.nextTeacherId), email)
              && db.State() == old(db.State()).(teachers := old(db.teachers) + [teacher],
                                                nextTeacherId := old(db.nextTeacherId) + 1)
  {
    var found := FindByEmail(db, email);
    if found.Some? {
      return found.value;
    }
    var created := Create(db, email);
    teacher := created.value;
    assert teacher in db.teachers;
  }
}
