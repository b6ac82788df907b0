# Student record service — request-handling core in Dafny

This project models the request-handling core of a small HTTP service that
stores student records (name, phone, date of birth, class, fee-paid flag).
The five handlers of the student controller become pure functions. Each takes
the request body fields, the path id and the current collection. Each returns
the HTTP status, the response body and the new collection. The document store
becomes an immutable value: a `map<Id, Student>` plus the next fresh id.

Modules, leaf first:

- `Base` (`base.dfy`): `Option` for body fields that may be absent, `Result`
  for a save that can throw, and `Text` for non-empty strings.
- `StudentSchema` (`student_schema.dfy`): the `Student` schema. It has four
  required fields. `feePaid` is a boolean that defaults to false. A partial
  `Doc` is cast into a stored `Student` by `Cast`, and a stored student is
  patched by `Apply`.
- `StudentStore` (`student_store.dfy`): the collection (`Db`). It provides
  `find`, `findOne`, `save`, `findByIdAndUpdate` and `findByIdAndDelete` as
  pure functions. The subset type `Db` keeps every stored id below the next
  id to hand out.
- `Validation` (`validation.dfy`): the four validators and `new Date(...)`.
  Their code is not part of this model, so they are passed in as function
  values (`Env`), and every property holds whatever they answer. `Gate` and
  `FirstRejection` give the reference meaning of a short-circuiting
  validation chain.
- `StudentController` (`student_controller.dfy`): `GetStudents`,
  `CreateStudent`, `UpdateStudent`, `DeleteStudent` and `FindByNameAndPhone`.
  Their branches follow the controller line by line.
- `ControllerProperties` (`controller_properties.dfy`): lemmas relating each
  handler to an independent statement of its behaviour.

Routes (context only): `GET /students` is `GetStudents`, `POST /students` is
`CreateStudent`, `PUT /students/:id` is `UpdateStudent`,
`DELETE /students/:id` is `DeleteStudent`, and `POST /students/find` is
`FindByNameAndPhone`.

Modelling choices:

- Store failures are one parameter, `fault: Option<string>`. It holds the
  message the handler's store call throws, if it throws. Create answers 400
  with that message. Every other handler answers 500.
- Find-by-name/phone puts only the supplied fields into its filter
  (`controllers/studentController.js:142-144`), and every supplied field must
  match. The duplicate check in create uses the same conjunctive `Query` with
  name and phone. When one of them is absent, the model drops it from that
  filter as well (see "Left out").
- The validators' answers are free, so they may let an absent required field
  through. Such a create then answers 409 if the duplicate filter matches a
  stored student. Otherwise the schema refuses the save, and create answers
  400 from its catch block. Either way nothing is stored, so every stored
  student has all required fields whatever the validators answer. The
  `Student` type carries that invariant.
- An update sends every body field, with absent ones as `undefined`
  (`controllers/studentController.js:100-106`). The model drops the absent
  fields from the update document (`UpdateDocument`), so they keep their
  stored values. This relies on the store ignoring `undefined` keys in an
  update.
- The store lists documents in ascending id order. Ids are handed out in
  increasing order, so this is insertion order.

Two facts of the code are worth stating on their own:

- A failed update store call answers 500
  (`controllers/studentController.js:115-117`), while a failed create answers
  400 (`controllers/studentController.js:63-65`).
- (name, phone) uniqueness is checked only when creating
  (`controllers/studentController.js:48-51`). `UpdateCanDuplicatePairs`
  exhibits an update that breaks it.

## Model

Lemmas take the store fault as a parameter. A row about a single request
assumes its store call does not fail unless the row mentions a fault.

| member | source | states |
|---|---|---|
| StudentSchema.Cast | models/Student.js:3-24 | a document is accepted exactly when name, phone, dob and studentClass are all present; the stored student carries the document's fields, with feePaid false when absent |
| StudentSchema.MissingPaths | models/Student.js:4-19 | the reported missing paths are exactly the absent required fields, and there are none exactly when all four are present |
| StudentSchema.CastToDoc | models/Student.js:3-24 | a stored student, seen as a full document, is accepted by the schema and gives back the same student |
| StudentSchema.ApplyFieldwise | controllers/studentController.js:98-108 | a partial update sets every field it provides and keeps every field it omits |
| StudentSchema.ApplyIdempotent | controllers/studentController.js:98-108 | applying the same partial update twice equals applying it once |
| StudentSchema.ApplyEmpty | controllers/studentController.js:98-108 | an update that sets no field leaves the student unchanged |
| StudentSchema.ApplyComplete | controllers/studentController.js:98-108 | an update that sets every field replaces the student by the given one |
| StudentStore.Scan | controllers/studentController.js:147 | the entries below a bound that match a filter, each exactly once, in ascending id order |
| StudentStore.Find | controllers/studentController.js:147 | a query returns exactly the stored students satisfying every field of the filter, in id order |
| StudentStore.FindEmpty | controllers/studentController.js:12-13 | a query is empty exactly when no stored student matches it |
| StudentStore.FindOne | controllers/studentController.js:48 | findOne yields a stored matching student exactly when one exists |
| StudentStore.Insert | controllers/studentController.js:53-61 | saving a new student stores it under an id no stored student had |
| StudentStore.UpdateById | controllers/studentController.js:98-108 | updating by id yields nothing for an unknown id; otherwise it yields the patched student and changes only that id |
| StudentStore.DeleteById | controllers/studentController.js:123 | deleting by id yields nothing for an unknown id; otherwise it yields the removed student and removes only that id |
| Validation.FirstRejection | controllers/studentController.js:27-45 | a validation chain rejects exactly when some step it acts on fails, and then reports the message of the first such step |
| Validation.FirstRejectionAt | controllers/studentController.js:27-45 | the first failing step's message is the one a chain reports |
| StudentController.GetStudents | controllers/studentController.js:10-20 | 204 with "No students found" on an empty store, otherwise 200 with every stored student exactly once in id order; 500 on a store fault; the store never changes |
| StudentController.CreateStudent | controllers/studentController.js:23-66 | answers 201, 400 or 409; anything but 201 leaves the store unchanged; 201 adds exactly one student under a fresh id |
| StudentController.UpdateStudent | controllers/studentController.js:69-118 | answers 200, 400, 404 or 500; only 200 changes the store, and only the record under the given id; 404 only for an unknown id |
| StudentController.DeleteStudent | controllers/studentController.js:121-129 | 200 and exactly that record removed for a stored id; 404 and no change for an unknown id; 500 and no change on a store fault |
| StudentController.FindByNameAndPhone | controllers/studentController.js:132-157 | 400 when name and phone are both absent; otherwise 500 on a store fault, and without one 200 with exactly the stored students equal on every supplied field, possibly none; the store never changes |
| ControllerProperties.CreateRejectsAtFirstFailingCheck | controllers/studentController.js:27-45 | the first failing of name/phone, dob, class, feePaid answers 400 with that validator's message, whatever later checks and the store would say, and changes nothing |
| ControllerProperties.CreateReachesStoreOnlyWhenValid | controllers/studentController.js:27-51 | a create answering 201 or 409 has passed all four checks and met no store fault |
| ControllerProperties.CreateStoreFault | controllers/studentController.js:63-65 | a store fault after validation answers 400 with the fault's message and changes nothing |
| ControllerProperties.CreateConflict | controllers/studentController.js:48-51 | a valid create whose name and phone are already stored answers 409 with the duplicate message and changes nothing |
| ControllerProperties.CreateInsertsFreshStudent | controllers/studentController.js:53-62 | a valid, complete, non-duplicate create answers 201 and adds one student under a fresh id with the given fields, feePaid as supplied or false; all other students are untouched |
| ControllerProperties.CreateMissingRequiredField | controllers/studentController.js:53-65 | when all four checks pass and no duplicate is stored, a create with name, phone, dob or studentClass absent answers 400 and leaves the store unchanged |
| ControllerProperties.CreateSucceedsIff | controllers/studentController.js:23-66 | create answers 201 exactly when all checks pass, no store fault occurs, all required fields are present and no duplicate is stored |
| ControllerProperties.CreateThenListed | controllers/studentController.js:10-16 | after a successful create, listing answers 200 and includes the created student |
| ControllerProperties.CreateTwiceConflicts | controllers/studentController.js:48-51 | repeating a successful create verbatim answers 409 and stores nothing |
| ControllerProperties.CreateKeepsPairsUnique | controllers/studentController.js:48-62 | if no two stored students share name and phone before a create, none do after it |
| ControllerProperties.UpdateNeedsSomeField | controllers/studentController.js:73-75 | an update providing none of the five fields answers 400 with the "at least one field" message and changes nothing |
| ControllerProperties.UpdateRejectsAtFirstFailingProvidedField | controllers/studentController.js:77-95 | the first failing validator among provided fields, in order phone, dob, class, feePaid, answers 400 with its message and changes nothing |
| ControllerProperties.UpdateRejectsOnlyForProvidedFields | controllers/studentController.js:77-95 | a non-empty update answers 400 exactly when the validator of some provided field fails |
| ControllerProperties.UpdateNameOnlyPassesValidation | controllers/studentController.js:77-117 | an update providing only a name never answers 400, whatever the validators say or the store does; without a store fault it answers 200 or 404 |
| ControllerProperties.UpdateFeePaidFalseIsProvided | controllers/studentController.js:73-95 | a body carrying only feePaid false counts as providing a field, and is refused with 400 only when the feePaid validator rejects false |
| ControllerProperties.UpdateFeePaidFalseStored | controllers/studentController.js:73-114 | when the feePaid validator accepts false, an update of a stored id carrying only feePaid false answers 200 and stores feePaid false |
| ControllerProperties.UpdateOverwritesOnlyProvidedFields | controllers/studentController.js:98-114 | a valid update of a stored id answers 200 with the student in which only the provided fields are overwritten; no other id changes |
| ControllerProperties.UpdateUnknownId | controllers/studentController.js:110-112 | a valid update of an unknown id answers 404 and changes nothing |
| ControllerProperties.UpdateStoreFault | controllers/studentController.js:115-117 | a store fault after validation answers 500 with the fault's message and changes nothing |
| ControllerProperties.UpdateCanDuplicatePairs | controllers/studentController.js:98-108 | some update turns a store with unique (name, phone) pairs into one with a repeated pair |
| ControllerProperties.DeleteTwice | controllers/studentController.js:123-125 | deleting the same stored id twice answers 200, then 404 |
| ControllerProperties.FindIsFilteredListing | controllers/studentController.js:142-153 | find-by-name/phone answers 200 with exactly the listed students that equal every supplied field, and 200 with no students on an empty store |
| ControllerProperties.DeleteLastThenListEmpty | controllers/studentController.js:12-14 | deleting the only stored student leaves a store that lists with 204 and "No students found" |

## Left out

- Process start-up, configuration, the database connection, middleware and
  `listen` (`index.js`) are I/O plumbing and not modelled. The routing table
  (`routes/studentRoutes.js`) is only listed above.
- The validators' own rules and `new Date(...)` parsing are not part of this
  model. They are parameters. A dob string that parses to an invalid date is
  not modelled: `toDate` always yields a date.
- JavaScript truthiness: present text fields are non-empty (`Text`). An empty
  string in a body is outside the model. The source treats `""` as absent in
  the "at least one field" guard but still sends it to the store.
- `feePaid` in a body is `Option<bool>`. A non-boolean value is outside the
  model; the feePaid validator is there to reject it.
- Path ids are ids of the model (`nat`). Casting a malformed id string, which
  makes the store throw, is covered only by the generic `fault` parameter.
- How store failures arise is not modelled. In create, `fault` stands for a
  throw from either the existence check or the save.
- CreateStudent, CreateConflict: an absent name or phone is dropped from the
  duplicate filter of `controllers/studentController.js:48`. The source passes
  the key with an `undefined` value, and whether the database library drops it
  or sends it as null is not part of this model. The two readings differ only
  when the validators accept an absent name or phone. Example: a body with
  only a phone that is already stored answers 409 in the model. Under the
  null reading it would reach the save, fail the required check and answer
  400. Both leave the store unchanged, and `CreateSucceedsIff` (no 201
  without all required fields) holds under either.
- CreateMissingRequiredField: the text of the 400 message is not stated,
  only the status and the unchanged store.
- CreateStudent: the 400 text for a document the schema refuses follows the
  store's usual wording but is not promised verbatim. The source turns an
  absent dob into an invalid date rather than a missing field; both end in
  400 with no change, and only the status and the unchanged store are stated.
- The 404 branch of find-by-name/phone (`controllers/studentController.js:149-151`)
  is unreachable, because a find never returns null. It is left out.
- Concurrency: the race between the existence check and the save in create
  is out of scope. Each handler is one atomic step.
- JSON serialisation, and HTTP dropping the body of a 204 response.
- Store natural order is modelled as ascending id (insertion) order.
