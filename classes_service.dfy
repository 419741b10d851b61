/** src/classes/classes.service.ts: registering a subject or a student to a
    class, after existence, duplicate and capacity checks, in that order. */
module ClassesService {
  import opened Wrappers
  import opened Seqs
  import opened Errors
  import opened Db

  /** The value `MAX_STUDENTS_PER_CLASS` falls back to. */
  const MaxStudentsPerClassDefault: nat := 30

  /** `classStudentRepository.count({ where: { classId } })`. */
  function ClassSize(classStudents: set<ClassStudent>, classId: nat): (r: nat)
    ensures r <= |classStudents|
    ensures r == 0 <==> forall cs :: cs in classStudents ==> cs.classId != classId
  {
    var inClass := set cs | cs in classStudents && cs.classId == classId;
    assert classStudents == inClass + (classStudents - inClass);
    assert inClass == {} <==> forall cs :: cs in classStudents ==> cs.classId != classId;
    |inClass|
  }

  /** Adding a pair that is not there yet raises its class's size by one and
      leaves every other class's size alone. */
  lemma ClassSizeAfterAdd(classStudents: set<ClassStudent>, added: ClassStudent, classId: nat)
    requires added !in classStudents
    ensures ClassSize(classStudents + {added}, classId)
            == ClassSize(classStudents, classId) + (if added.classId == classId then 1 else 0)
  {
    var before := set cs | cs in classStudents && cs.classId == classId;
    var after := set cs | cs in classStudents + {added} && cs.classId == classId;
    if added.classId == classId {
      assert after == before + {added};
    } else {
      assert after == before;
    }
  }

  class ClassesService {
    const db: Database
    /** `MAX_STUDENTS_PER_CLASS` as configured. */
    const maxStudentsPerClass: nat

    constructor (db: Database, maxStudentsPerClass: nat := MaxStudentsPerClassDefault)
      ensures this.db == db && this.maxStudentsPerClass == maxStudentsPerClass
    {
      this.db := db;
      this.maxStudentsPerClass := maxStudentsPerClass;
    }

    /** No class holds more students than the configured maximum. */
    ghost predicate WithinCapacity()
      reads db
    {
      forall c :: ClassSize(db.classStudents, c) <= maxStudentsPerClass
    }

    /** `registerSubject`: the class must exist, then the subject, then the
        pair must be new; a new pair is inserted. */
    method RegisterSubject(classId: int, subjectId: int) returns (r: Result<ClassSubject, Error>)
      requires db.Valid()
      modifies db
      ensures db.Valid()
      ensures classId !in old(db.classes) ==> r == Failure(ClassNotFound(classId))
      ensures classId in old(db.classes) && subjectId !in old(db.subjects) ==>
                r == Failure(SubjectNotFound(subjectId))
      ensures classId in old(db.classes) && subjectId in old(db.subjects)
              && ClassSubject(classId, subjectId) in old(db.classSubjects) ==>
                r == Failure(SubjectAlreadyRegistered(classId, subjectId))
      ensures r.Failure? ==> db.State() == old(db.State())
      ensures r.Success? <==>
                classId in old(db.classes) && subjectId in old(db.subjects)
                && ClassSubject(classId, subjectId) !in old(db.classSubjects)
      ensures r.Success? ==>
                && r.value == ClassSubject(classId, subjectId)
                && db.State() == old(db.State()).(classSubjects := old(db.classSubjects) + {r.value})
    {
      if classId !in db.classes {
        return Failure(ClassNotFound(classId));
      }
      if subjectId !in db.subjects {
        return Failure(SubjectNotFound(subjectId));
      }
      if ClassSubject(classId, subjectId) in db.classSubjects {
        return Failure(SubjectAlreadyRegistered(classId, subjectId));
      }
      var classSubject := ClassSubject(classId, subjectId);
      db.classSubjects := db.classSubjects + {classSubject};
      r := Success(classSubject);
    }

    /** `registerStudent`: the class must exist, then the student, then the
        pair must be new, then the class must have room; a new pair is
        inserted. */
    method RegisterStudent(classId: int, studentId: int) returns (r: Result<ClassStudent, Error>)
      requires db.Valid()
      modifies db
      ensures db.Valid()
      ensures classId !in old(db.classes) ==> r == Failure(ClassNotFound(classId))
      ensures classId in old(db.classes) && studentId !in StudentIds(old(db.students)) ==>
                r == Failure(StudentIdNotFound(studentId))
      ensures classId in old(db.classes) && studentId in StudentIds(old(db.students))
              && ClassStudent(classId, studentId) in old(db.classStudents) ==>
                r == Failure(StudentAlreadyRegistered(classId, studentId))
      ensures classId in old(db.classes) && studentId in StudentIds(old(db.students))
              && ClassStudent(classId, studentId) !in old(db.classStudents)
              && ClassSize(old(db.classStudents), classId) >= maxStudentsPerClass ==>
                r == Failure(ClassFull(classId, maxStudentsPerClass))
      ensures r.Failure? ==> db.State() == old(db.State())
      ensures r.Success? <==>
                classId in old(db.classes) && studentId in StudentIds(old(db.students))
                && ClassStudent(classId, studentId) !in old(db.classStudents)
                && ClassSize(old(db.classStudents), classId) < maxStudentsPerClass
      ensures r.Success? ==>
                && r.value == ClassStudent(classId, studentId)
                && db.State() == old(db.State()).(classStudents := old(db.classStudents) + {r.value})
                && ClassSize(db.classStudents, classId) == ClassSize(old(db.classStudents), classId) + 1
                && ClassSize(db.classStudents, classId) <= maxStudentsPerClass
                && forall c :: c != classId ==> ClassSize(db.classStudents, c) == ClassSize(old(db.classStudents), c)
      ensures old(WithinCapacity()) ==> WithinCapacity()
    {
      if classId !in db.classes {
        return Failure(ClassNotFound(classId));
      }
      var studentEntity := Find(db.students, (s: Student) => s.studentId == studentId);
      if studentEntity.None? {
        return Failure(StudentIdNotFound(studentId));
      }
      if ClassStudent(classId, studentId) in db.classStudents {
        return Failure(StudentAlreadyRegistered(classId, studentId));
      }
      var currentStudentCount := ClassSize(db.classStudents, classId);
      if currentStudentCount >= maxStudentsPerClass {
        return Failure(ClassFull(classId, maxStudentsPerClass));
      }
      var classStudent := ClassStudent(classId, studentId);
      forall c ensures ClassSize(db.classStudents + {classStudent}, c)
                       == ClassSize(db.classStudents, c) + (if c == classId then 1 else 0)
      {
        ClassSizeAfterAdd(db.classStudents, classStudent, c);
      }
      db.classStudents := db.classStudents + {classStudent};
      r := Success(classStudent);
    }
  }
}
