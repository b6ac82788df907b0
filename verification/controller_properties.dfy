/**
 * Properties of the student handlers, stated relative to whatever the
 * validators and the date parser answer. Each handler is related to an
 * independent description of its behaviour: the validation chains below,
 * the duplicate condition, and field-by-field update semantics.
 */
module ControllerProperties {
  import opened Base
  import opened StudentSchema
  import opened StudentStore
  import opened Validation
  import opened StudentController

  /** Create acts on every validator, in the order name/phone, dob, class, feePaid. */
  function CreateGates(env: Env, b: RequestBody): seq<Gate> {
    [ Gate(true, env.validateNameAndPhone(b.name, b.phone)),
      Gate(true, env.validateDob(b.dob)),
      Gate(true, env.validateClass(b.studentClass)),
      Gate(true, env.validateFeePaid(b.feePaid)) ]
  }

  /**
   * Update acts on a validator only when the field it guards is provided; the
   * name/phone validator is guarded by the phone alone.
   */
  function UpdateGates(env: Env, b: RequestBody): seq<Gate> {
    [ Gate(b.phone.Some?, env.validateNameAndPhone(b.name, b.phone)),
      Gate(b.dob.Some?, env.validateDob(b.dob)),
      Gate(b.studentClass.Some?, env.validateClass(b.studentClass)),
      Gate(b.feePaid.Some?, env.validateFeePaid(b.feePaid)) ]
  }

  /** Some stored student has the body's name and phone (an absent field constrains nothing). */
  ghost predicate HasDuplicate(db: Db, b: RequestBody) {
    exists k :: k in db.records
      && (b.name.Some? ==> db.records[k].name == b.name.value)
      && (b.phone.Some? ==> db.records[k].phone == b.phone.value)
  }

  predicate ProvidesRequired(b: RequestBody) {
    b.name.Some? && b.phone.Some? && b.dob.Some? && b.studentClass.Some?
  }

  /** No two stored students share a (name, phone) pair. */
  ghost predicate UniquePairs(db: Db) {
    forall j, k :: j in db.records && k in db.records && j != k ==>
      db.records[j].name != db.records[k].name || db.records[j].phone != db.records[k].phone
  }

  /** `t` is `s` with exactly the fields the body provides overwritten. */
  ghost predicate PatchedFrom(t: Student, s: Student, env: Env, b: RequestBody) {
    && t.name == (if b.name.Some? then b.name.value else s.name)
    && t.phone == (if b.phone.Some? then b.phone.value else s.phone)
    && t.dob == (if b.dob.Some? then env.toDate(b.dob.value) else s.dob)
    && t.studentClass == (if b.studentClass.Some? then b.studentClass.value else s.studentClass)
    && t.feePaid == (if b.feePaid.Some? then b.feePaid.value else s.feePaid)
  }

  // ---------------------------------------------------------------- create

  /** The first failing check answers 400 with its own message; later checks and the store play no part. */
  lemma CreateRejectsAtFirstFailingCheck(env: Env, b: RequestBody, db: Db, fault: Option<string>, i: int)
    requires IsFirstRejection(CreateGates(env, b), i)
    ensures CreateStudent(env, b, db, fault) == Handled(Response(400, Message(CreateGates(env, b)[i].check.message)), db)
  {
    var gates := CreateGates(env, b);
    if i > 0 { assert !Rejects(gates[0]); }
    if i > 1 { assert !Rejects(gates[1]); }
    if i > 2 { assert !Rejects(gates[2]); }
  }

  /** A create that reaches the store (201 or 409) has passed every check and met no store fault. */
  lemma CreateReachesStoreOnlyWhenValid(env: Env, b: RequestBody, db: Db, fault: Option<string>)
    ensures CreateStudent(env, b, db, fault).response.status in {201, 409} ==>
      FirstRejection(CreateGates(env, b)).None? && fault.None?
  {
  }

  /** A store fault after validation answers 400 with the fault's message. */
  lemma CreateStoreFault(env: Env, b: RequestBody, db: Db, message: string)
    requires FirstRejection(CreateGates(env, b)).None?
    ensures CreateStudent(env, b, db, Some(message)) == Handled(Response(400, Message(message)), db)
  {
    var gates := CreateGates(env, b);
    assert !Rejects(gates[0]) && !Rejects(gates[1]) && !Rejects(gates[2]) && !Rejects(gates[3]);
  }

  /** A valid create whose name and phone are already stored answers 409 and stores nothing. */
  lemma CreateConflict(env: Env, b: RequestBody, db: Db)
    requires FirstRejection(CreateGates(env, b)).None?
    requires HasDuplicate(db, b)
    ensures CreateStudent(env, b, db, None) == Handled(Response(409, Message(DuplicateMessage)), db)
  {
    var gates := CreateGates(env, b);
    assert !Rejects(gates[0]) && !Rejects(gates[1]) && !Rejects(gates[2]) && !Rejects(gates[3]);
    var k :| k in db.records
      && (b.name.Some? ==> db.records[k].name == b.name.value)
      && (b.phone.Some? ==> db.records[k].phone == b.phone.value);
    assert Matches(Query(b.name, b.phone), db.records[k]);
  }

  /**
   * A valid create with every required field and no duplicate answers 201
   * with a student stored under a fresh id; `feePaid` is the supplied value
   * or false, and every other stored student is untouched.
   */
  lemma CreateInsertsFreshStudent(env: Env, b: RequestBody, db: Db)
    requires FirstRejection(CreateGates(env, b)).None?
    requires ProvidesRequired(b) && !HasDuplicate(db, b)
    ensures var h := CreateStudent(env, b, db, None);
      && h.response.status == 201
      && h.response.payload.One?
      && var e := h.response.payload.entry;
      && e.id !in db.records
      && h.db.records.Keys == db.records.Keys + {e.id}
      && (forall k :: k in db.records ==> h.db.records[k] == db.records[k])
      && h.db.records[e.id] == e.student
      && e.student.name == b.name.value
      && e.student.phone == b.phone.value
      && e.student.dob == env.toDate(b.dob.value)
      && e.student.studentClass == b.studentClass.value
      && (b.feePaid.Some? ==> e.student.feePaid == b.feePaid.value)
      && (b.feePaid.None? ==> !e.student.feePaid)
  {
    var gates := CreateGates(env, b);
    assert !Rejects(gates[0]) && !Rejects(gates[1]) && !Rejects(gates[2]) && !Rejects(gates[3]);
  }

  /** A valid create lacking a required field is refused by the schema on save: 400, nothing stored. */
  lemma CreateMissingRequiredField(env: Env, b: RequestBody, db: Db)
    requires FirstRejection(CreateGates(env, b)).None?
    requires !ProvidesRequired(b) && !HasDuplicate(db, b)
    ensures var h := CreateStudent(env, b, db, None);
      h.response.status == 400 && h.db == db
  {
  }

  /** Create stores a student exactly when every check passes, the store is up, all required fields are present and there is no duplicate. */
  lemma CreateSucceedsIff(env: Env, b: RequestBody, db: Db, fault: Option<string>)
    ensures CreateStudent(env, b, db, fault).response.status == 201 <==>
      FirstRejection(CreateGates(env, b)).None? && fault.None? && ProvidesRequired(b) && !HasDuplicate(db, b)
  {
    CreateReachesStoreOnlyWhenValid(env, b, db, fault);
    if FirstRejection(CreateGates(env, b)).None? && fault.None? {
      if HasDuplicate(db, b) {
        CreateConflict(env, b, db);
      } else if ProvidesRequired(b) {
        CreateInsertsFreshStudent(env, b, db);
      } else {
        CreateMissingRequiredField(env, b, db);
      }
    }
  }

  /** After a successful create, listing the students shows the new one. */
  lemma CreateThenListed(env: Env, b: RequestBody, db: Db)
    requires CreateStudent(env, b, db, None).response.status == 201
    ensures var h := CreateStudent(env, b, db, None);
      var listed := GetStudents(h.db, None).response;
      && listed.status == 200
      && listed.payload.Many?
      && h.response.payload.entry in listed.payload.entries
  {
  }

  /** Repeating a successful create verbatim answers 409 and stores nothing more. */
  lemma CreateTwiceConflicts(env: Env, b: RequestBody, db: Db)
    requires CreateStudent(env, b, db, None).response.status == 201
    ensures var db' := CreateStudent(env, b, db, None).db;
      CreateStudent(env, b, db', None) == Handled(Response(409, Message(DuplicateMessage)), db')
  {
  }

  /** Create never introduces a second student with an already stored (name, phone) pair. */
  lemma CreateKeepsPairsUnique(env: Env, b: RequestBody, db: Db, fault: Option<string>)
    requires UniquePairs(db)
    ensures UniquePairs(CreateStudent(env, b, db, fault).db)
  {
  }

  // ---------------------------------------------------------------- update

  /** An update body providing no field answers 400 before any validation. */
  lemma UpdateNeedsSomeField(env: Env, id: Id, b: RequestBody, db: Db, fault: Option<string>)
    requires ProvidesNothing(b)
    ensures UpdateStudent(env, id, b, db, fault) == Handled(Response(400, Message(NothingToUpdateMessage)), db)
  {
  }

  /** The first failing validator of a provided field answers 400 with its message. */
  lemma UpdateRejectsAtFirstFailingProvidedField(env: Env, id: Id, b: RequestBody, db: Db, fault: Option<string>, i: int)
    requires !ProvidesNothing(b)
    requires IsFirstRejection(UpdateGates(env, b), i)
    ensures UpdateStudent(env, id, b, db, fault) == Handled(Response(400, Message(UpdateGates(env, b)[i].check.message)), db)
  {
    var gates := UpdateGates(env, b);
    if i > 0 { assert !Rejects(gates[0]); }
    if i > 1 { assert !Rejects(gates[1]); }
    if i > 2 { assert !Rejects(gates[2]); }
  }

  /** An update that provides something is refused with 400 only when a provided field's validator fails. */
  lemma UpdateRejectsOnlyForProvidedFields(env: Env, id: Id, b: RequestBody, db: Db, fault: Option<string>)
    requires !ProvidesNothing(b)
    ensures UpdateStudent(env, id, b, db, fault).response.status == 400 <==> FirstRejection(UpdateGates(env, b)).Some?
  {
    var gates := UpdateGates(env, b);
    if FirstRejection(gates).Some? {
      var i :| IsFirstRejection(gates, i) && FirstRejection(gates).value == gates[i].check.message;
      UpdateRejectsAtFirstFailingProvidedField(env, id, b, db, fault, i);
    } else {
      assert !Rejects(gates[0]) && !Rejects(gates[1]) && !Rejects(gates[2]) && !Rejects(gates[3]);
    }
  }

  /**
   * Renaming alone is never refused by validation, whatever the validators
   * say: it never answers 400, and without a store fault it answers 200 or 404.
   */
  lemma UpdateNameOnlyPassesValidation(env: Env, id: Id, name: Text, db: Db, fault: Option<string>)
    ensures UpdateStudent(env, id, RequestBody(Some(name), None, None, None, None), db, fault).response.status != 400
    ensures fault.None? ==>
      UpdateStudent(env, id, RequestBody(Some(name), None, None, None, None), db, fault).response.status in {200, 404}
  {
  }

  /**
   * `feePaid: false` alone counts as a field to update: such a body is
   * refused with 400 only when the feePaid validator rejects `false`.
   */
  lemma UpdateFeePaidFalseIsProvided(env: Env, id: Id, db: Db, fault: Option<string>)
    ensures !ProvidesNothing(RequestBody(None, None, None, None, Some(false)))
    ensures UpdateStudent(env, id, RequestBody(None, None, None, None, Some(false)), db, fault).response.status == 400
      ==> !env.validateFeePaid(Some(false)).isValid
  {
  }

  /** When the validator accepts it, `feePaid: false` on a stored id is stored. */
  lemma UpdateFeePaidFalseStored(env: Env, id: Id, db: Db)
    requires env.validateFeePaid(Some(false)).isValid
    requires id in db.records
    ensures var h := UpdateStudent(env, id, RequestBody(None, None, None, None, Some(false)), db, None);
      h.response.status == 200 && !h.db.records[id].feePaid
  {
  }

  /**
   * A valid update of a stored id answers 200 with the student in which only
   * the provided fields are overwritten; the id and all other students stay.
   */
  lemma UpdateOverwritesOnlyProvidedFields(env: Env, id: Id, b: RequestBody, db: Db)
    requires !ProvidesNothing(b) && FirstRejection(UpdateGates(env, b)).None?
    requires id in db.records
    ensures var h := UpdateStudent(env, id, b, db, None);
      && h.response.status == 200
      && h.response.payload.One?
      && h.response.payload.entry.id == id
      && var t := h.response.payload.entry.student;
      && PatchedFrom(t, db.records[id], env, b)
      && h.db.records == db.records[id := t]
  {
    var gates := UpdateGates(env, b);
    assert !Rejects(gates[0]) && !Rejects(gates[1]) && !Rejects(gates[2]) && !Rejects(gates[3]);
  }

  /** A valid update of an unknown id answers 404 and changes nothing. */
  lemma UpdateUnknownId(env: Env, id: Id, b: RequestBody, db: Db)
    requires !ProvidesNothing(b) && FirstRejection(UpdateGates(env, b)).None?
    requires id !in db.records
    ensures UpdateStudent(env, id, b, db, None) == Handled(Response(404, Message(NotFoundMessage)), db)
  {
    var gates := UpdateGates(env, b);
    assert !Rejects(gates[0]) && !Rejects(gates[1]) && !Rejects(gates[2]) && !Rejects(gates[3]);
  }

  /** A store fault after validation answers 500 with the fault's message. */
  lemma UpdateStoreFault(env: Env, id: Id, b: RequestBody, db: Db, message: string)
    requires !ProvidesNothing(b) && FirstRejection(UpdateGates(env, b)).None?
    ensures UpdateStudent(env, id, b, db, Some(message)) == Handled(Response(500, Message(message)), db)
  {
    var gates := UpdateGates(env, b);
    assert !Rejects(gates[0]) && !Rejects(gates[1]) && !Rejects(gates[2]) && !Rejects(gates[3]);
  }

  /** Unlike create, update can give two students the same (name, phone) pair. */
  lemma UpdateCanDuplicatePairs()
    ensures exists env: Env, id: Id, b: RequestBody, db: Db ::
      UniquePairs(db) && !UniquePairs(UpdateStudent(env, id, b, db, None).db)
  {
    var pass := Check(true, "");
    var env := Env((n, p) => pass, d => pass, c => pass, f => pass, t => Date(0));
    var alice := Student("Alice", "1234567890", Date(0), "5A", false);
    var bob := Student("Bob", "1234567890", Date(0), "5A", false);
    var db: Db := Collection(map[0 := alice, 1 := bob], 2);
    var b := RequestBody(Some("Alice"), None, None, None, None);
    var h := UpdateStudent(env, 1, b, db, None);
    UpdateOverwritesOnlyProvidedFields(env, 1, b, db);
    assert h.db.records[0] == h.db.records[1];
    assert !UniquePairs(h.db);
  }

  // ---------------------------------------------------------------- delete

  /** Deleting the same stored id twice answers 200, then 404. */
  lemma DeleteTwice(id: Id, db: Db)
    requires id in db.records
    ensures var first := DeleteStudent(id, db, None);
      && first.response.status == 200
      && DeleteStudent(id, first.db, None) == Handled(Response(404, Message(NotFoundMessage)), first.db)
  {
  }

  // ---------------------------------------------------------------- find

  /**
   * Find by name and phone answers 200 with exactly the students listing
   * would show that satisfy the filter; on an empty store, 200 with none.
   */
  lemma FindIsFilteredListing(b: RequestBody, db: Db, e: Entry)
    requires b.name.Some? || b.phone.Some?
    ensures |db.records| == 0 ==> FindByNameAndPhone(b, db, None).response == Response(200, Many([]))
    ensures |db.records| > 0 ==>
      var found := FindByNameAndPhone(b, db, None).response.payload.entries;
      var all := GetStudents(db, None).response.payload.entries;
      e in found <==> e in all && Matches(Query(b.name, b.phone), e.student)
  {
    FindEmpty(db, Query(b.name, b.phone));
  }

  /** Deleting the only stored student leaves a store that lists with 204. */
  lemma DeleteLastThenListEmpty(id: Id, db: Db)
    requires id in db.records && |db.records| == 1
    ensures GetStudents(DeleteStudent(id, db, None).db, None).response == Response(204, Message(NoStudentsMessage))
  {
    var rest := DeleteStudent(id, db, None).db;
    assert rest.records.Keys == db.records.Keys - {id};
    assert |db.records.Keys - {id}| == |db.records.Keys| - |{id}|;
  }
}
