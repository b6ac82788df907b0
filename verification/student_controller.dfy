/**
 * The five request handlers of the student controller as pure functions: each
 * takes the request (body fields, path id), the collection and the store
 * fault the one store call would raise, and yields the response and the new
 * collection.
 */
module StudentController {
  import opened Base
  import opened StudentSchema
  import opened StudentStore
  import opened Validation

  /** The fields a handler reads from the JSON body; any may be absent. */
  datatype RequestBody = RequestBody(
    name: Option<Text>,
    phone: Option<Text>,
    dob: Option<Text>,
    studentClass: Option<Text>,
    feePaid: Option<bool>)

  /** A response body: `{ message }`, one student, or a list of students. */
  datatype Payload = Message(text: string) | One(entry: Entry) | Many(entries: seq<Entry>)

  datatype Response = Response(status: int, payload: Payload)

  /** The response sent and the collection afterwards. */
  datatype Handled = Handled(response: Response, db: Db)

  const NoStudentsMessage := "No students found"
  const DuplicateMessage := "Student with this phone number and name already exists"
  const NothingToUpdateMessage := "At least one field (name, phone, dob, class, feePaid) must be provided for update"
  const NotFoundMessage := "Student not found"
  const DeletedMessage := "Student deleted successfully"
  const NameOrPhoneRequiredMessage := "At least one of name or phone is required"

  /** A `{ message }` response that leaves the collection as it was. */
  function Reply(status: int, message: string, db: Db): Handled {
    Handled(Response(status, Message(message)), db)
  }

  /** GET /students */
  function GetStudents(db: Db, fault: Option<string>): (h: Handled)
    ensures h.db == db
    ensures fault.Some? ==> h.response == Response(500, Message(fault.value))
    ensures fault.None? && |db.records| == 0 ==> h.response == Response(204, Message(NoStudentsMessage))
    ensures fault.None? && |db.records| > 0 ==>
      && h.response.status == 200
      && h.response.payload.Many?
      && ListsExactly(h.response.payload.entries, db.records, (s: Student) => true)
  {
    if fault.Some? then Reply(500, fault.value, db)
    else
      var students := Find(db, MatchAll);
      FindEmpty(db, MatchAll);
      if |students| == 0 then Reply(204, NoStudentsMessage, db)
      else Handled(Response(200, Many(students)), db)
  }

  /** The document `createStudent` builds: `feePaid || false` makes `feePaid` always set. */
  function NewDocument(env: Env, b: RequestBody): Doc {
    Doc(b.name, b.phone, b.dob.Map(env.toDate), b.studentClass, Some(b.feePaid == Some(true)))
  }

  /** POST /students */
  function CreateStudent(env: Env, b: RequestBody, db: Db, fault: Option<string>): (h: Handled)
    ensures h.response.status in {201, 400, 409}
    ensures h.response.status != 201 ==> h.db == db
    ensures h.response.status == 201 ==>
      && h.response.payload.One?
      && var e := h.response.payload.entry;
      && e.id !in db.records
      && h.db.records == db.records[e.id := e.student]
  {
    var namePhone := env.validateNameAndPhone(b.name, b.phone);
    if !namePhone.isValid then Reply(400, namePhone.message, db)
    else
      var dob := env.validateDob(b.dob);
      if !dob.isValid then Reply(400, dob.message, db)
      else
        var studentClass := env.validateClass(b.studentClass);
        if !studentClass.isValid then Reply(400, studentClass.message, db)
        else
          var fee := env.validateFeePaid(b.feePaid);
          if !fee.isValid then Reply(400, fee.message, db)
          else if fault.Some? then Reply(400, fault.value, db)
          else if FindOne(db, Query(b.name, b.phone)).Some? then Reply(409, DuplicateMessage, db)
          else
            match Cast(NewDocument(env, b))
            case Err(message) => Reply(400, message, db)
            case Ok(student) =>
              var (db', id) := Insert(db, student);
              Handled(Response(201, One(Entry(id, student))), db')
  }

  /** The update document: absent fields are left out and so left unchanged. */
  function UpdateDocument(env: Env, b: RequestBody): Doc {
    Doc(b.name, b.phone, b.dob.Map(env.toDate), b.studentClass, b.feePaid)
  }

  predicate ProvidesNothing(b: RequestBody) {
    b.name.None? && b.phone.None? && b.dob.None? && b.studentClass.None? && b.feePaid.None?
  }

  /** PUT /students/:id */
  function UpdateStudent(env: Env, id: Id, b: RequestBody, db: Db, fault: Option<string>): (h: Handled)
    ensures h.response.status in {200, 400, 404, 500}
    ensures h.response.status != 200 ==> h.db == db
    ensures h.response.status == 404 ==> id !in db.records && fault.None?
    ensures h.response.status == 500 ==> fault.Some?
    ensures h.db.next == db.next && h.db.records.Keys == db.records.Keys
    ensures forall k :: k in db.records && k != id ==> h.db.records[k] == db.records[k]
    ensures h.response.status == 200 ==>
      id in db.records && h.response.payload == One(Entry(id, h.db.records[id]))
  {
    if ProvidesNothing(b) then Reply(400, NothingToUpdateMessage, db)
    else
      var phone := env.validateNameAndPhone(b.name, b.phone);
      if b.phone.Some? && !phone.isValid then Reply(400, phone.message, db)
      else
        var dob := env.validateDob(b.dob);
        if b.dob.Some? && !dob.isValid then Reply(400, dob.message, db)
        else
          var studentClass := env.validateClass(b.studentClass);
          if b.studentClass.Some? && !studentClass.isValid then Reply(400, studentClass.message, db)
          else
            var fee := env.validateFeePaid(b.feePaid);
            if b.feePaid.Some? && !fee.isValid then Reply(400, fee.message, db)
            else if fault.Some? then Reply(500, fault.value, db)
            else
              match UpdateById(db, id, UpdateDocument(env, b))
              case None => Reply(404, NotFoundMessage, db)
              case Some((student, db')) => Handled(Response(200, One(Entry(id, student))), db')
  }

  /** DELETE /students/:id */
  function DeleteStudent(id: Id, db: Db, fault: Option<string>): (h: Handled)
    ensures h.db.next == db.next
    ensures fault.Some? ==> h.response == Response(500, Message(fault.value)) && h.db == db
    ensures fault.None? && id in db.records ==>
      h.response == Response(200, Message(DeletedMessage)) && h.db.records == db.records - {id}
    ensures fault.None? && id !in db.records ==>
      h.response == Response(404, Message(NotFoundMessage)) && h.db == db
  {
    if fault.Some? then Reply(500, fault.value, db)
    else
      match DeleteById(db, id)
      case None => Reply(404, NotFoundMessage, db)
      case Some((_, db')) => Handled(Response(200, Message(DeletedMessage)), db')
  }

  /** POST /students/find */
  function FindByNameAndPhone(b: RequestBody, db: Db, fault: Option<string>): (h: Handled)
    ensures h.db == db
    ensures b.name.None? && b.phone.None? ==> h.response == Response(400, Message(NameOrPhoneRequiredMessage))
    ensures (b.name.Some? || b.phone.Some?) && fault.Some? ==> h.response == Response(500, Message(fault.value))
    ensures (b.name.Some? || b.phone.Some?) && fault.None? ==>
      && h.response.status == 200
      && h.response.payload.Many?
      && ListsExactly(h.response.payload.entries, db.records,
                      (s: Student) => (b.name.Some? ==> s.name == b.name.value) && (b.phone.Some? ==> s.phone == b.phone.value))
  {
    if b.name.None? && b.phone.None? then Reply(400, NameOrPhoneRequiredMessage, db)
    else if fault.Some? then Reply(500, fault.value, db)
    else Handled(Response(200, Many(Find(db, Query(b.name, b.phone)))), db)
  }
}
