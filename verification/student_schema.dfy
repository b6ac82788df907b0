/**
 * The `Student` schema: four required fields and a boolean `feePaid` that
 * defaults to false. A `Doc` is the partial document handed to the schema
 * (by `new Student({...})` or by an update); `Student` is what the collection
 * holds once the schema has accepted a document.
 */
module StudentSchema {
  import opened Base

  /** A calendar date; the handlers store and return it but never inspect it. */
  datatype Date = Date(epochMillis: int)

  /** A stored student: every required field is present by construction. */
  datatype Student = Student(
    name: Text,
    phone: Text,
    dob: Date,
    studentClass: Text,
    feePaid: bool)

  /** A document whose fields may each be absent. */
  datatype Doc = Doc(
    name: Option<Text>,
    phone: Option<Text>,
    dob: Option<Date>,
    studentClass: Option<Text>,
    feePaid: Option<bool>)

  /** The document with no field set. */
  const EmptyDoc := Doc(None, None, None, None, None)

  /** The schema's `required: true` constraints all hold of `d`. */
  predicate HasRequired(d: Doc) {
    d.name.Some? && d.phone.Some? && d.dob.Some? && d.studentClass.Some?
  }

  /** The stored student seen as a document with every field set. */
  function ToDoc(s: Student): Doc {
    Doc(Some(s.name), Some(s.phone), Some(s.dob), Some(s.studentClass), Some(s.feePaid))
  }

  /** Names of the required paths `d` lacks, in schema order. */
  function MissingPaths(d: Doc): (paths: seq<string>)
    ensures |paths| == 0 <==> HasRequired(d)
    ensures "name" in paths <==> d.name.None?
    ensures "phone" in paths <==> d.phone.None?
    ensures "dob" in paths <==> d.dob.None?
    ensures "studentClass" in paths <==> d.studentClass.None?
    ensures |paths| <= 4
  {
    (if d.name.None? then ["name"] else [])
    + (if d.phone.None? then ["phone"] else [])
    + (if d.dob.None? then ["dob"] else [])
    + (if d.studentClass.None? then ["studentClass"] else [])
  }

  /** The error text for a document lacking `paths` (non-empty). */
  function RequiredMessage(paths: seq<string>): string
    decreases |paths|
  {
    if |paths| == 0 then ""
    else
      var item := paths[0] + ": Path `" + paths[0] + "` is required.";
      if |paths| == 1 then item else item + ", " + RequiredMessage(paths[1..])
  }

  /**
   * Saving `d` through the schema: it is refused when a required path is
   * missing, otherwise the stored student carries `d`'s fields with `feePaid`
   * defaulted to false.
   */
  function Cast(d: Doc): (r: Result<Student>)
    ensures r.Ok? <==> HasRequired(d)
    ensures r.Ok? ==> ToDoc(r.value) == d.(feePaid := Some(d.feePaid.GetOr(false)))
    ensures r.Ok? && d.feePaid.None? ==> !r.value.feePaid
  {
    if HasRequired(d) then
      Ok(Student(d.name.value, d.phone.value, d.dob.value, d.studentClass.value, d.feePaid.GetOr(false)))
    else
      Err("Student validation failed: " + RequiredMessage(MissingPaths(d)))
  }

  /** Overwrites the fields of `s` that `d` sets and keeps the others. */
  function Apply(s: Student, d: Doc): Student {
    Student(
      d.name.GetOr(s.name),
      d.phone.GetOr(s.phone),
      d.dob.GetOr(s.dob),
      d.studentClass.GetOr(s.studentClass),
      d.feePaid.GetOr(s.feePaid))
  }

  /** A stored student survives the round trip through a document. */
  lemma CastToDoc(s: Student)
    ensures Cast(ToDoc(s)) == Ok(s)
  {
  }

  /** A field `d` sets ends up in the result; a field it leaves out keeps its value. */
  lemma ApplyFieldwise(s: Student, d: Doc)
    ensures var t := Apply(s, d);
      && (d.name.Some? ==> t.name == d.name.value) && (d.name.None? ==> t.name == s.name)
      && (d.phone.Some? ==> t.phone == d.phone.value) && (d.phone.None? ==> t.phone == s.phone)
      && (d.dob.Some? ==> t.dob == d.dob.value) && (d.dob.None? ==> t.dob == s.dob)
      && (d.studentClass.Some? ==> t.studentClass == d.studentClass.value)
      && (d.studentClass.None? ==> t.studentClass == s.studentClass)
      && (d.feePaid.Some? ==> t.feePaid == d.feePaid.value) && (d.feePaid.None? ==> t.feePaid == s.feePaid)
  {
  }

  /** Applying the same partial update twice is the same as applying it once. */
  lemma ApplyIdempotent(s: Student, d: Doc)
    ensures Apply(Apply(s, d), d) == Apply(s, d)
  {
  }

  /** An update that sets nothing changes nothing. */
  lemma ApplyEmpty(s: Student)
    ensures Apply(s, EmptyDoc) == s
  {
  }

  /** An update that sets every field replaces the student outright. */
  lemma ApplyComplete(s: Student, t: Student)
    ensures Apply(s, ToDoc(t)) == t
  {
  }
}
