# Teacher–student registry, modelled in Dafny

This project models the core of a NestJS/TypeORM service for teachers. Teachers use it to:

- register students to themselves;
- ask which students are common to several teachers;
- suspend a student;
- find out who receives a notification. A notification goes to the teacher's unsuspended students, plus any unsuspended student whose email is `@`-mentioned in its text.

A second service enrols students and subjects into classes. It checks that the class and student or subject exist, that the pair is new, and that the class is not full.

How the model is laid out:

- **The store.** `Db.Database` is a class whose fields are the tables:
  - `teachers` and `students` are rows in primary-key order, each with an AUTO_INCREMENT counter and a unique `email`.
  - the `teacher_students` join table, `classes`, `subjects`, `class_subjects` and `class_students` are sets.
  - `Db.Consistent` is the invariant every operation keeps: unique emails, ids below the counter and increasing, and every foreign key of the join and pair tables pointing at an existing row.
- **Queries** are functions of the store. Each is proved equal to its meaning, e.g. "linked to every listed teacher" or "unsuspended and mentioned".
- **Operations that write** are methods whose postconditions give the whole new state as a function of the old one. For `registerStudents` that function is `StudentsService.NewRows`: it fixes which listed email gets which new id, in first-listing order. Failures are values of `Errors.Error`. `Errors.Error.Status` gives the HTTP status each failure carries: 400, 404, or 500 for the database's duplicate-email error. That error is not an `HttpException`, so the global exception filter answers it with 500.
- **The mention extractor** (`/@([a-zA-Z0-9._%+-]+@[a-zA-Z0-9.-]+\.[a-zA-Z]{2,})/g`) is modelled twice:
  - as a greedy, backtracking scanner, `Mentions.MatchEnd` and `Mentions.MatchesFrom`;
  - as a declarative description of an address, `Mentions.IsMention`.

  The two are proved to agree, in both directions, on whether a text contains a mention.
- **Set semantics.** JavaScript's `[...new Set(xs)]` and `Set.add` are `Seqs.Dedup`: it keeps the first occurrence of each element, in insertion order.

## Model

| member | source | states |
|---|---|---|
| Seqs.Dedup | src/utils/index.ts:14 | The result has no repeats and the same elements as the input, and is no longer than it. |
| Seqs.DedupKeepsFirstOccurrenceOrder | src/utils/index.ts:14 | Elements of the result appear in the order of their first occurrence in the input. |
| Seqs.DedupLength | src/students/dto/index.ts:44 | Removing repeats keeps the length exactly when the input has no repeats. |
| Seqs.DedupOfNoDup | src/students/dto/index.ts:44 | A list without repeats passes through unchanged. |
| Seqs.DedupSnoc | src/students/students.service.ts:168-187 | Adding one element to a set in insertion order appends it when new and changes nothing otherwise. |
| Seqs.Filter | src/db/repositories/teacher.repository.ts:20-24 | A `WHERE` keeps exactly the rows satisfying the condition, and returns none exactly when no row satisfies it. |
| Seqs.FilterNoDup | src/db/repositories/student.repository.ts:20-24 | Rows picked from a table without repeats have no repeats. |
| Seqs.Find | src/db/repositories/teacher.repository.ts:14-18 | `findOne` returns a row satisfying the condition, or null only when no row does. |
| Seqs.KeyedSelectionCount | src/db/repositories/teacher.repository.ts:20-24 | Rows selected by a key that identifies them number at most the distinct requested keys, with equality exactly when every key has a row. |
| Mentions.RunEnd | src/utils/index.ts:4 | A greedy character class consumes the longest run of matching characters. |
| Mentions.LastTldDot | src/utils/index.ts:4 | Backtracking of the domain part settles on the last dot followed by two or more letters, and finds none only when there is none. |
| Mentions.MatchesFrom | src/utils/index.ts:4-6 | Every match, with its `@` stripped, has at least six characters. Matches do not overlap, so there is at most one per seven characters of text. `MatchesFromSound` and `MatchesFromComplete` prove these are exactly the pattern's matches. |
| Mentions.MatchEnd | src/utils/index.ts:3-6 | A match starting at a position spans at least seven characters (`@a@b.cd`) and stays inside the text. |
| Mentions.MatchEndSound | src/utils/index.ts:3-6 | Every match is an `@` followed by an address of the pattern's shape. |
| Mentions.MatchEndComplete | src/utils/index.ts:3-6 | Wherever an `@` is followed by an address of the pattern's shape, the scanner finds a match there. |
| Mentions.MatchesFromSound | src/utils/index.ts:6-11 | Every reported match, with its `@` stripped, is an address that follows an `@` in the text. |
| Mentions.MatchesFromComplete | src/utils/index.ts:6-8 | A mention anywhere after the scan position makes the scan report something. |
| Mentions.ExtractMentionedEmails | src/utils/index.ts:1-15 | Empty text gives `[]`; the result has no repeats and holds exactly the scanned matches. |
| Mentions.ExtractedAreMentions | src/utils/index.ts:3-11 | Every extracted email has the pattern's shape and occurs right after an `@` in the text. |
| Mentions.ExtractEmptyIff | src/utils/index.ts:2-8 | The result is empty exactly when no `@` in the text is followed by an address of the pattern's shape. |
| Mentions.ExtractKeepsFirstOccurrenceOrder | src/utils/index.ts:6-14 | Emails come out in the order of their first match. |
| Mentions.MatchesFromAtCount | src/utils/index.ts:3-11 | Each match consumes two `@` characters of the text. |
| Mentions.ExtractAtCount | src/utils/index.ts:3-14 | The result has at most half as many emails as the text has `@` characters. |
| StudentsDto.NormaliseTeachers | src/students/dto/index.ts:41-45 | A single value becomes a one-element list. The output has no repeats and the same emails as the input. It is no longer than the input, and as long exactly when the input had no repeats. |
| StudentsDto.NormaliseKeepsFirstOccurrenceOrder | src/students/dto/index.ts:44 | The first occurrence of each email is kept, in input order. |
| StudentsDto.NormaliseIdempotent | src/students/dto/index.ts:41-45 | Normalising an already normalised list changes nothing. |
| StudentsDto.NormaliseRepeated | src/students/dto/index.ts:41-45 | A teacher email given twice is asked for once. |
| Db.Database.constructor | src/db/models/teacher.entity.ts:14-18 | An empty registry satisfies the table invariants, with both id counters at 1. |
| Db.TeacherEmailIdentifies | src/db/models/teacher.entity.ts:14-18 | In the `teachers` table, the email and the id each identify a single row. |
| Db.StudentEmailIdentifies | src/db/models/student.entity.ts:13-17 | In the `students` table, the email and the id each identify a single row. |
| Db.TeacherTableAppend | src/db/models/teacher.entity.ts:14-18 | Inserting a row with the next id and an unused email keeps the `teachers` invariant. |
| Db.StudentTableAppend | src/db/models/student.entity.ts:13-20 | Inserting a row with the next id and an unused email keeps the `students` invariant. |
| TeacherRepository.FindByEmail | src/db/repositories/teacher.repository.ts:14-18 | Returns the unique teacher with that email, or null exactly when there is none. |
| TeacherRepository.FindByEmails | src/db/repositories/teacher.repository.ts:20-24 | Returns exactly the teachers whose email is listed, without repeats. |
| TeacherRepository.FindByEmailsCount | src/db/repositories/teacher.repository.ts:20-24 | Returns at most one teacher per distinct email, and exactly one per listed email iff the list has no repeats and every email is known. |
| TeacherRepository.Create | src/db/repositories/teacher.repository.ts:26-29 | Appends one teacher with the next id, or fails with a duplicate-email error and changes nothing. |
| TeacherRepository.FindOrCreate | src/db/repositories/teacher.repository.ts:31-37 | Returns the existing teacher with the store unchanged, or creates exactly one. Either way the email then finds that teacher. |
| StudentRepository.FindByEmail | src/db/repositories/student.repository.ts:14-18 | Returns the unique student with that email, or null exactly when there is none. |
| StudentRepository.FindByEmails | src/db/repositories/student.repository.ts:20-24 | Returns exactly the students whose email is listed, without repeats. |
| StudentRepository.FindByEmailsCount | src/db/repositories/student.repository.ts:20-24 | Returns at most one student per distinct email, and exactly one per listed email iff the list has no repeats and every email is known. |
| StudentRepository.Create | src/db/repositories/student.repository.ts:26-32 | Appends one student with the next id and the given flag (0 by default), or fails with a duplicate-email error and changes nothing. |
| StudentRepository.Inserted | src/db/repositories/student.repository.ts:34-40 | `findOrCreate` inserts nothing exactly when some row already carries the email. Otherwise it inserts one row with the counter's id, that email and the given flag. |
| StudentRepository.FindOrCreate | src/db/repositories/student.repository.ts:34-40 | Returns the existing student with the store unchanged, or creates exactly one, with the counter's id. Either way the email then finds that student, and the table grows by exactly `Inserted`. |
| StudentRepository.Suspended | src/db/repositories/student.repository.ts:42-44 | The update keeps the table's length and each row's id and email. The row with that id gets flag 1; every other row is unchanged. `SuspendedEffect` proves that the table invariant is kept and that the update is idempotent. |
| StudentRepository.SuspendedEffect | src/db/repositories/student.repository.ts:42-44 | The update sets the flag of the row with that id and leaves other rows, ids and emails alone. Applying it twice is applying it once. |
| StudentRepository.Suspend | src/db/repositories/student.repository.ts:42-44 | The new store is the old one with that student's flag set to 1, and nothing else changed. |
| StudentRepository.FindRegisteredToAllTeachers | src/db/repositories/student.repository.ts:46-58 | Returns students of the table, without repeats. |
| StudentRepository.RegisteredToAllIff | src/db/repositories/student.repository.ts:50-55 | With distinct ids, the `HAVING COUNT(DISTINCT …)` test holds iff the student is linked to every listed teacher. |
| StudentRepository.RegisteredToAll | src/db/repositories/student.repository.ts:48-55 | A student passes only when the requested list is non-empty and has no repeats. A repeated id makes `COUNT(DISTINCT …)` unreachable. `RegisteredToAllIff` proves that, for such a list, passing means being linked to every listed teacher. |
| StudentRepository.LinkedTeachers | src/db/repositories/student.repository.ts:50-53 | The distinct teacher ids in a student's group are among the requested ones, so there are at most as many as distinct requested ids. `RegisteredToAllIff` uses this to read the count test as "linked to all". |
| StudentRepository.RegisteredToAllSound | src/db/repositories/student.repository.ts:46-58 | Any student that passes is linked to every listed teacher. |
| StudentRepository.FindRegisteredToAllTeachersMeaning | src/db/repositories/student.repository.ts:46-58 | For distinct ids and a non-empty list, returns exactly the students linked to every listed teacher. An empty list or a repeated id gives no student. |
| StudentRepository.FindByTeacherAndNotSuspended | src/db/repositories/student.repository.ts:60-67 | Returns exactly the students linked to the teacher with `isSuspended = 0`, without repeats. |
| StudentRepository.FindMentionedAndNotSuspended | src/db/repositories/student.repository.ts:69-76 | Returns exactly the listed students with `isSuspended = 0`, whatever their edges, and nobody for an empty list. |
| StudentRepository.EmailsOfRowsNoDup | src/db/models/student.entity.ts:16-17 | Distinct rows of the `students` table have distinct emails. |
| TeachersService.FindOrCreateTeacher | src/teachers/teachers.service.ts:9-29 | An empty email fails with BadRequest and changes nothing. An existing teacher's id is returned with the store unchanged. Otherwise exactly one teacher is inserted and its new id returned. |
| TeachersService.FindOrCreateTeacherTwice | src/teachers/teachers.service.ts:19-28 | Two calls with one email return the same id and leave the store as one call would, so the second call changes nothing. On success the email finds the teacher with that id, and no other teacher has that email. |
| StudentsService.NewRows | src/students/students.service.ts:80-97 | The loop inserts at most one row per listed email, and each inserted row carries a listed email. The lemmas below give its full meaning. |
| StudentsService.NewRowsStep | src/students/students.service.ts:83-96 | One more find-or-create turns the old table plus the rows for the first `n` emails into the old table plus the rows for the first `n + 1`. |
| StudentsService.NewRowsLastStep | src/students/students.service.ts:84-94 | The next email adds nothing exactly when an old row or an earlier inserted row carries it. Otherwise it adds one unsuspended row with the next counter value. |
| StudentsService.NewRowsIds | src/students/students.service.ts:88-93 | Inserted rows are unsuspended and take consecutive counter values. |
| StudentsService.NewRowsSound | src/students/students.service.ts:84-94 | Each inserted row carries a listed email that no row had before the call. |
| StudentsService.NewRowsComplete | src/students/students.service.ts:83-97 | After the loop every listed email has a row, old or inserted. |
| StudentsService.NewRowsDistinct | src/students/students.service.ts:83-97 | No two inserted rows share an email, so an email listed twice is inserted once. |
| StudentsService.NewRowsOrder | src/students/students.service.ts:83-97 | Inserted rows come in the order in which their emails are first listed, so an earlier-listed new email gets a smaller id. |
| StudentsService.NewRowsFirstListed | src/students/students.service.ts:83-94 | An email that inserts a row at some step is listed there for the first time. |
| StudentsService.FindOrCreateStudents | src/students/students.service.ts:80-97 | Each listed email is resolved to a row with that email. Only students change: the table becomes the old one plus `NewRows`, and the counter advances by the number inserted. |
| StudentsService.LinkNew | src/students/students.service.ts:101-113 | Earlier edges are kept, and every added edge starts at the teacher. `LinkNewEffect` proves exactly which edges are added. |
| StudentsService.LinkNewEffect | src/students/students.service.ts:99-113 | Edges afterwards are the old ones plus one from the teacher to each found student. |
| StudentsService.ResolvedRows | src/students/students.service.ts:80-97 | Once each listed email is resolved to a row, the rows carrying a listed email are exactly the resolved ones, because emails are unique. |
| StudentsService.LinkedAfterLinking | src/students/students.service.ts:99-113 | When an edge from the teacher to each resolved row exists, every listed email belongs to a student linked to the teacher. |
| StudentsService.EdgesAfterLinking | src/students/students.service.ts:99-113 | The edges added for the resolved rows are exactly those to students whose email is listed. |
| StudentsService.LinkStudents | src/students/students.service.ts:99-113 | Only the edge table changes, to the old edges plus one from the teacher to each resolved student. Afterwards every listed student is linked and the store stays consistent. |
| StudentsService.ResolvedStep | src/students/students.service.ts:83-96 | Resolving one more email keeps earlier resolutions valid, since the table only grows. |
| StudentsService.RegisterForTeacher | src/students/students.service.ts:80-113 | Once the teacher is known: the student table becomes the old one plus `NewRows`, and the counter advances by the number inserted. Every listed student is linked to the teacher, and the edges are the old ones plus those to listed students. Nothing else changes. |
| StudentsService.RegisterStudents | src/students/students.service.ts:44-115 | An empty teacher email or student list fails with BadRequest and changes nothing. On success: (1) every listed student exists and is linked to the teacher; (2) earlier edges are kept; (3) the student table becomes the old one plus `NewRows`, so new students start unsuspended and take consecutive counter values in first-listing order; (4) the teacher row is kept if it existed, or appended with the counter's id; (5) existing students and the class tables are unchanged. |
| StudentsService.GetCommonStudents | src/students/students.service.ts:117-144 | An empty list fails with BadRequest; otherwise the emails returned have no repeats. |
| StudentsService.CommonStudentsUnknownOrRepeated | src/students/students.service.ts:123-129 | An unknown teacher email, or one listed twice, gives `[]`. |
| StudentsService.CommonStudentsOfOne | src/students/students.service.ts:133-138 | One known teacher gives exactly the emails of its unsuspended students. |
| StudentsService.FoundTeacherIds | src/students/students.service.ts:123-131 | There are no more ids than listed emails, and each belongs to an existing teacher. `FoundTeacherIdsNoDup`, `FoundTeacherIdsSound` and `FoundTeacherIdsComplete` prove that they are exactly the ids of the listed known teachers, without repeats. |
| StudentsService.FoundTeacherIdsNoDup | src/students/students.service.ts:131 | The found teachers' ids have no repeats. |
| StudentsService.FoundTeacherIdsComplete | src/students/students.service.ts:123-131 | Every listed known email contributes its teacher's id. |
| StudentsService.FoundTeacherIdsSound | src/students/students.service.ts:123-131 | Every found id belongs to a listed email. |
| StudentsService.CommonStudentsOfMany | src/students/students.service.ts:140-143 | Several distinct known teachers give exactly the emails of the students linked to all of them, suspended ones included. |
| StudentsService.CommonStudentsAfterTransform | src/students/students.service.ts:117-129 | A teacher listed twice gives `[]` from the service, and the query transform turns that list into a single entry. |
| StudentsService.SuspendStudent | src/students/students.service.ts:146-158 | An empty email fails with BadRequest and an unknown one with NotFound, changing nothing. Otherwise exactly that student's flag becomes 1. |
| StudentsService.SuspendStudentTwice | src/students/students.service.ts:146-158 | A second call gives the same result as the first. A failed first call leaves the store unchanged; otherwise the store afterwards is the old one with that student's flag set to 1, as after one call. |
| StudentsService.Recipients | src/students/students.service.ts:160-188 | The recipient list has no repeats. |
| StudentsService.RecipientsMeaning | src/students/students.service.ts:164-187 | An email receives the notification iff it belongs to an unsuspended student who is registered to the teacher or mentioned in the text. |
| StudentsService.SuspendedNeverNotified | src/students/students.service.ts:170-184 | A suspended student is never a recipient, even if registered and mentioned. |
| StudentsService.RecipientsAreStudents | src/students/students.service.ts:177-184 | Every recipient is a known unsuspended student, so unknown mentions are dropped. |
| StudentsService.AddEmails | src/students/students.service.ts:175 | Adding students' emails to an insertion-ordered set gives the set of the concatenation. |
| StudentsService.CollectRecipients | src/students/students.service.ts:168-187 | The Set built from the teacher's unsuspended students, then from the mentioned unsuspended students, is exactly `Recipients`. |
| StudentsService.GetNotificationRecipients | src/students/students.service.ts:160-188 | An empty teacher email fails with BadRequest. Otherwise the teacher exists afterwards and the result is exactly `Recipients`. The store is unchanged unless the teacher was unknown; then only that teacher row is appended, with the counter's id. |
| ClassesService.ClassSize | src/classes/classes.service.ts:109-111 | The count is at most the table's size, and zero exactly when no pair belongs to the class. `ClassSizeAfterAdd` proves how an insert changes it. |
| ClassesService.ClassSizeAfterAdd | src/classes/classes.service.ts:109-125 | Inserting a new pair raises its class's count by one and leaves other classes' counts unchanged. |
| ClassesService.ClassesService.constructor | src/classes/classes.service.ts:104-107 | The service keeps the store and the configured maximum, 30 by default. |
| ClassesService.ClassesService.RegisterSubject | src/classes/classes.service.ts:32-70 | Errors in this order: NotFound for the class, NotFound for the subject, BadRequest for an existing pair; each changes nothing. Otherwise exactly that pair is inserted. |
| ClassesService.ClassesService.RegisterStudent | src/classes/classes.service.ts:72-126 | Errors in this order: NotFound for the class, NotFound for the student, BadRequest for an existing pair, BadRequest for a full class; each changes nothing. The call succeeds exactly when all four checks pass. On success: (1) exactly that pair is inserted; (2) the class's count rises by one and stays within the maximum; (3) other classes are unchanged; (4) the capacity invariant is preserved. |

## Left out

- HTTP layer: the controllers, the global exception filter and the bootstrap are not part of this model. This covers routing, response formatting and the re-wrapping of errors other than BadRequest as status 500. Errors are modelled as kinds; their message texts are left out.
- Validation decorators (`@IsEmail`, `@ArrayMinSize`, …) run before the services and are not modelled. The services accept any string, as their own code does.
- `null` and `undefined` have no counterpart. A falsy email is the empty string. A missing student list is the empty list. A query `teacher` parameter is either one value or a list.
- Dependency-injection and TypeORM wiring is not modelled, including `getRepository(entityManager)`. The services call the repository model directly. `StudentsService.FindOrCreateStudents` stands for the inline `findOne`/`create`/`save` of `registerStudents`, which does the same as the repository's `findOrCreate`.
- `findOrCreateTeacher` appears twice in the source, at src/students/students.service.ts:22-42 and in src/teachers/teachers.service.ts. Both bodies are identical, so it is modelled once, as `TeachersService.FindOrCreateTeacher`; `RegisterStudents` and `GetNotificationRecipients` call it.
- ClassesService.ClassesService.RegisterStudent: the count check and the insert (src/classes/classes.service.ts:109-125) are modelled as one atomic step, as is every other operation. Two concurrent calls for the same class can both pass the check and overfill it. The capacity invariant is therefore proved only for calls that run one after another.
- The transaction in `registerStudents` is modelled as one atomic step. Isolation, rollback and concurrent find-or-create races are not modelled; such a race would surface as a unique-key error from the database.
- `createdAt`/`updatedAt` timestamps and the surrogate `id` columns of `class_students` and `class_subjects` are not modelled. The pair tables are sets keyed by their unique `(classId, studentId)` and `(classId, subjectId)` pairs.
- Class and subject rows (names included) are fixed inputs of the store, since no operation in this core creates them.
- SQL without `ORDER BY` has no guaranteed row order. Query results are modelled in primary-key order, so the order of lists returned to the caller is this model's choice. Membership, absence of repeats and counts do not depend on it.
- `ConfigService` is not modelled. `MAX_STUDENTS_PER_CLASS` is a constructor parameter defaulting to 30; an environment value that arrives as a string is not modelled.
- Integer widths are not modelled: ids are unbounded, so AUTO_INCREMENT overflow of the `INT` columns is not captured. `is_suspended` is a `TINYINT` range.
- Emails and texts are sequences of characters. MySQL collation (case-insensitive email uniqueness) and JavaScript's UTF-16 code units are not modelled.
- StudentRepository.FindRegisteredToAllTeachers: its contract alone says only that results are students of the table, without repeats. The exact answer is stated in `FindRegisteredToAllTeachersMeaning`. For an empty id list the model returns no rows; MySQL would reject `IN ()` as a syntax error, but the services never pass an empty list.
- `registerStudents` with the same student email listed twice pushes that student twice onto the teacher's relation. The model's edge table is a set, so the edge exists once. Whether TypeORM would try to insert the join row twice is not modelled.
- The code has no per-teacher edge-count operation, so the model has none.
- AUTO_INCREMENT is modelled as a counter that only advances on a successful insert, so ids are consecutive. MySQL can leave gaps: a failed insert or a rolled-back transaction may still consume values. The model does not capture those gaps.
- Class, subject and student ids given to the class service are integers. A negative id is modelled and is answered with NotFound, as the database lookup would answer it. `@IsNumber` also admits fractional numbers, and those are not modelled.
