/** The JSON-shaped documents the service reads, merges and writes: request
    bodies, merge candidates and the bodies kept in the store. */
module Documents {

  /** A JSON value that may be `null`. */
  datatype Nullable<+T> = Null | Value(v: T)

  /** One key of a JSON object: absent, or present with a value that may be
      `null`. "Absent" is what an update leaves out; "present and null" is
      what it sets explicitly to `null`. */
  datatype Field<+T> = Unset | Set(val: Nullable<T>)

  /** The key is present and holds a non-null value. */
  predicate Given<T>(f: Field<T>) {
    f.Set? && f.val.Value?
  }

  function Get<T>(f: Field<T>): T
    requires Given(f)
  {
    f.val.v
  }

  /** A marks object: JSON key to mark, where a mark may be `null`. */
  type SubjectsDoc = map<string, Nullable<int>>

  /** A student document. The stored body carries no `id` (the ID is the
      store key) but does carry the two computed marks; a create request
      carries the `id`; the merge candidate gets the `id` put back. */
  datatype Doc = Doc(
    id: Field<string>,
    name: Field<string>,
    age: Field<int>,
    gender: Field<string>,
    rollNumber: Field<string>,
    subjects: Field<SubjectsDoc>,
    attendance: Field<real>,
    totalMarks: Field<int>,
    averageMarks: Field<real>)

  /** The document with its `id` key set to `id`; nothing else changes. */
  function WithId(d: Doc, id: string): (r: Doc)
    ensures Given(r.id) && Get(r.id) == id
    ensures r.(id := d.id) == d
  {
    d.(id := Set(Value(id)))
  }
}
