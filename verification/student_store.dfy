/**
 * The `Student` collection as an in-memory value: documents keyed by id plus
 * the next id the store will hand out. Queries return matches in ascending id
 * order, which is insertion order since ids are handed out increasingly.
 */
module StudentStore {
  import opened Base
  import opened StudentSchema

  type Id = nat

  /** A stored document together with its id, as a query returns it. */
  datatype Entry = Entry(id: Id, student: Student)

  datatype Collection = Collection(records: map<Id, Student>, next: Id)

  /** Every id in use was handed out earlier, so `next` is unused. */
  ghost predicate FreshNext(c: Collection) {
    forall k :: k in c.records ==> k < c.next
  }

  /** A collection whose id supply is fresh. */
  type Db = c: Collection | FreshNext(c) witness Collection(map[], 0)

  /** The empty collection. */
  const EmptyDb: Db := Collection(map[], 0)

  /**
   * A filter object: each present field must equal the stored one; an
   * absent field is dropped from the filter and constrains nothing.
   */
  datatype Query = Query(name: Option<Text>, phone: Option<Text>)

  /** The filter `{}`, matched by every document. */
  const MatchAll := Query(None, None)

  predicate Matches(q: Query, s: Student) {
    && (q.name.Some? ==> s.name == q.name.value)
    && (q.phone.Some? ==> s.phone == q.phone.value)
  }

  predicate Ascending(es: seq<Entry>) {
    forall i, j :: 0 <= i < j < |es| ==> es[i].id < es[j].id
  }

  /** `es` lists, in id order and without repetition, exactly the entries of `records` that `keep` accepts. */
  ghost predicate ListsExactly(es: seq<Entry>, records: map<Id, Student>, keep: Student -> bool) {
    && Ascending(es)
    && forall e :: e in es <==> e.id in records && records[e.id] == e.student && keep(e.student)
  }

  /** The entries with id below `n` that match `q`, in ascending id order. */
  function Scan(records: map<Id, Student>, n: nat, q: Query): (es: seq<Entry>)
    ensures forall e :: e in es <==> e.id < n && e.id in records && records[e.id] == e.student && Matches(q, e.student)
    ensures Ascending(es)
  {
    if n == 0 then []
    else
      var prefix := Scan(records, n - 1, q);
      if n - 1 in records && Matches(q, records[n - 1]) then prefix + [Entry(n - 1, records[n - 1])]
      else prefix
  }

  /** `Model.find(filter)`: every stored document matching `q`. */
  function Find(db: Db, q: Query): (es: seq<Entry>)
    ensures ListsExactly(es, db.records, s => Matches(q, s))
  {
    Scan(db.records, db.next, q)
  }

  /** A query comes back empty exactly when no stored document matches it. */
  lemma FindEmpty(db: Db, q: Query)
    ensures |Find(db, q)| == 0 <==> forall k :: k in db.records ==> !Matches(q, db.records[k])
  {
    var es := Find(db, q);
    if k :| k in db.records && Matches(q, db.records[k]) {
      assert Entry(k, db.records[k]) in es;
    }
    if |es| > 0 {
      assert es[0] in es;
    }
  }

  /** `Model.findOne(filter)`: some stored document matching `q`, if any. */
  function FindOne(db: Db, q: Query): (r: Option<Entry>)
    ensures r.Some? <==> exists k :: k in db.records && Matches(q, db.records[k])
    ensures r.Some? ==> r.value.id in db.records && db.records[r.value.id] == r.value.student && Matches(q, r.value.student)
  {
    var es := Find(db, q);
    FindEmpty(db, q);
    if |es| == 0 then None else assert es[0] in es; Some(es[0])
  }

  /** `doc.save()` of a new document: stores `s` under a fresh id. */
  function Insert(db: Db, s: Student): (r: (Db, Id))
    ensures r.1 !in db.records
    ensures r.0.records == db.records[r.1 := s]
    ensures r.0.next > r.1
  {
    (Collection(db.records[db.next := s], db.next + 1), db.next)
  }

  /**
   * `Model.findByIdAndUpdate(id, d, {new: true})`: the updated document and
   * the new collection, or nothing when no document has that id.
   */
  function UpdateById(db: Db, id: Id, d: Doc): (r: Option<(Student, Db)>)
    ensures r.None? <==> id !in db.records
    ensures r.Some? ==> r.value.0 == Apply(db.records[id], d)
    ensures r.Some? ==> r.value.1.records == db.records[id := r.value.0] && r.value.1.next == db.next
  {
    if id in db.records then
      var s := Apply(db.records[id], d);
      Some((s, Collection(db.records[id := s], db.next)))
    else None
  }

  /** `Model.findByIdAndDelete(id)`: the removed document and the new collection, or nothing. */
  function DeleteById(db: Db, id: Id): (r: Option<(Student, Db)>)
    ensures r.None? <==> id !in db.records
    ensures r.Some? ==> r.value.0 == db.records[id]
    ensures r.Some? ==> r.value.1.records == db.records - {id} && r.value.1.next == db.next
  {
    if id in db.records then
      Some((db.records[id], Collection(db.records - {id}, db.next)))
    else None
  }
}
