/** The `@Transform` on `CommonStudentsQueryDto.teacher` in
    src/students/dto/index.ts: a query string gives one value for
    `?teacher=a` and an array for `?teacher=a&teacher=b`; the transform wraps a
    single value into a list and removes repeated emails. */
module StudentsDto {
  import opened Seqs

  datatype TeacherParam = Single(email: string) | Multiple(emails: seq<string>)

  /** `Array.isArray(value) ? value : [value]`. */
  function AsList(v: TeacherParam): seq<string> {
    match v
    case Single(e) => [e]
    case Multiple(es) => es
  }

  /** The transformed `teacher` list: `[...new Set(teachers)]`. */
  function NormaliseTeachers(v: TeacherParam): (r: seq<string>)
    ensures v.Single? ==> r == [v.email]
    ensures NoDup(r)
    ensures forall e :: e in r <==> e in AsList(v)
    ensures |r| <= |AsList(v)|
    ensures |r| == |AsList(v)| <==> NoDup(AsList(v))
  {
    DedupLength(AsList(v));
    Dedup(AsList(v))
  }

  /** The transform keeps the first occurrence of each email, in input order. */
  lemma NormaliseKeepsFirstOccurrenceOrder(v: TeacherParam, i: nat, j: nat)
    requires i < j < |NormaliseTeachers(v)|
    ensures FirstIndex(AsList(v), NormaliseTeachers(v)[i])
          < FirstIndex(AsList(v), NormaliseTeachers(v)[j])
  {
    DedupKeepsFirstOccurrenceOrder(AsList(v), i, j);
  }

  /** A list without repeats passes through unchanged; so normalising twice is
      normalising once. */
  lemma NormaliseIdempotent(v: TeacherParam)
    ensures NormaliseTeachers(Multiple(NormaliseTeachers(v))) == NormaliseTeachers(v)
  {
    DedupOfNoDup(NormaliseTeachers(v));
  }

  /** `?teacher=a&teacher=a` asks for `a` once. */
  lemma NormaliseRepeated(email: string)
    ensures NormaliseTeachers(Multiple([email, email])) == [email]
  {
    DedupSnoc([], email);
    DedupSnoc([email], email);
    assert [email] + [email] == [email, email];
  }
}
