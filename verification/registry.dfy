/** The keyed store of student bodies and the operations over it: view,
    create, delete and the merge-and-revalidate update. The store is passed
    in and the new store returned; loading and saving the file is not
    modelled. */
module Registry {
  import opened Outcomes
  import opened Documents
  import opened Schema
  import opened Updates

  /** Student ID to stored body. */
  type Store = map<string, Doc>

  /** The store after an operation, and how the operation ended. */
  datatype Reply = Reply(store: Store, status: Status)

  /** Every stored body validates as a student under its own key: the
      state an update re-checks after merging. */
  predicate Readable(s: Store) {
    forall k :: k in s ==> Validate(WithId(s[k], k)).Success?
  }

  /** The student a stored body reads back as under its key. */
  function StudentAt(s: Store, id: string): Student
    requires id in s && Validate(WithId(s[id], id)).Success?
  {
    Validate(WithId(s[id], id)).value
  }

  function View(s: Store, id: string): (r: Result<Doc>)
    ensures r.Success? <==> id in s
    ensures r.Failure? ==> r.error == NotFound
    ensures r.Success? ==> r.value == s[id]
  {
    if id in s then Success(s[id]) else Failure(NotFound)
  }

  /** Create: the document is validated in full first; an ID already in the
      store is refused; otherwise the body is stored under the ID, written
      by alias so that it reads back. */
  function Create(s: Store, doc: Doc): (r: Reply)
    ensures r.status.Err? ==> r.store == s
    ensures Validate(doc).Failure? ==> r.status == Err(ValidationError)
    ensures Validate(doc).Success? && Validate(doc).value.id in s ==> r.status == Err(AlreadyExists)
    ensures r.status.Ok? <==> Validate(doc).Success? && Validate(doc).value.id !in s
    ensures r.status.Ok? ==>
      var st := Validate(doc).value;
      && r.store.Keys == s.Keys + {st.id}
      && r.store[st.id] == Dump(st, true)
      && Validate(WithId(r.store[st.id], st.id)) == Success(st)
    ensures forall k :: k in s ==> k in r.store && r.store[k] == s[k]
    ensures Readable(s) ==> Readable(r.store)
  {
    match Validate(doc)
    case Failure(e) => Reply(s, Err(e))
    case Success(st) =>
      if st.id in s then Reply(s, Err(AlreadyExists))
      else Reply(s[st.id := Dump(st, true)], Ok)
  }

  /** Create as the service writes it: the body is written with subject
      keys by field name, so "Computer Science" is stored as
      "computer_science". */
  function CreateAsWritten(s: Store, doc: Doc): (r: Reply)
    ensures r.status.Err? ==> r.store == s
    ensures Validate(doc).Failure? ==> r.status == Err(ValidationError)
    ensures Validate(doc).Success? && Validate(doc).value.id in s ==> r.status == Err(AlreadyExists)
    ensures r.status.Ok? <==> Validate(doc).Success? && Validate(doc).value.id !in s
    ensures r.status.Ok? ==>
      var id := Validate(doc).value.id;
      && r.store.Keys == s.Keys + {id}
      && r.store[id] == Dump(Validate(doc).value, false)
      && Validate(WithId(r.store[id], id)).Failure?
    ensures forall k :: k in s ==> k in r.store && r.store[k] == s[k]
  {
    match Validate(doc)
    case Failure(e) => Reply(s, Err(e))
    case Success(st) =>
      if st.id in s then Reply(s, Err(AlreadyExists))
      else Reply(s[st.id := Dump(st, false)], Ok)
  }

  function Delete(s: Store, id: string): (r: Reply)
    ensures r.status.Ok? <==> id in s
    ensures r.status.Err? ==> r.status.error == NotFound && r.store == s
    ensures r.status.Ok? ==> r.store.Keys == s.Keys - {id}
    ensures forall k :: k in s && k != id ==> k in r.store && r.store[k] == s[k]
    ensures Readable(s) ==> Readable(r.store)
  {
    if id !in s then Reply(s, Err(NotFound)) else Reply(s - {id}, Ok)
  }

  /** Update: the update document is checked on its own, the ID looked up,
      the update merged onto the stored body, the `id` put back and the
      candidate validated in full; only then is the body replaced. */
  function Update(s: Store, id: string, u: StudentUpdate): (r: Reply)
    ensures r.status.Err? ==> r.store == s
    ensures !Accepted(u) ==> r.status == Err(ValidationError)
    ensures Accepted(u) && id !in s ==> r.status == Err(NotFound)
    ensures Accepted(u) && id in s && Merge(s[id], u).Failure? ==> r.status == Err(TypeError)
    ensures Accepted(u) && id in s && Merge(s[id], u).Success? ==>
      (Validate(WithId(Merge(s[id], u).value, id)).Failure? ==> r.status == Err(ValidationError))
    ensures r.status.Ok? <==>
      && Accepted(u) && id in s && Merge(s[id], u).Success?
      && Validate(WithId(Merge(s[id], u).value, id)).Success?
    ensures r.status.Ok? ==>
      && r.store.Keys == s.Keys
      && r.store[id] == Dump(Validate(WithId(Merge(s[id], u).value, id)).value, true)
      && Validate(WithId(r.store[id], id)) == Validate(WithId(Merge(s[id], u).value, id))
    ensures forall k :: k in s && k != id ==> k in r.store && r.store[k] == s[k]
    ensures Readable(s) ==> Readable(r.store)
  {
    if !Accepted(u) then Reply(s, Err(ValidationError))
    else if id !in s then Reply(s, Err(NotFound))
    else
      match Merge(s[id], u)
      case Failure(e) => Reply(s, Err(e))
      case Success(d) =>
        match Validate(WithId(d, id))
        case Failure(e) => Reply(s, Err(e))
        case Success(st) => Reply(s[id := Dump(st, true)], Ok)
  }

  /** The value a stored field ends with: the update's when it gives one,
      the stored one otherwise. */
  function ValueAfter<T>(prior: T, f: Field<T>): T {
    if Given(f) then Get(f) else prior
  }

  /** The student a successful update leaves behind is the merged
      candidate, read under the ID. */
  lemma UpdatedStudentIsCandidate(s: Store, id: string, u: StudentUpdate)
    requires id in s && Update(s, id, u).status == Ok
    ensures Merge(s[id], u).Success?
    ensures Validate(WithId(Merge(s[id], u).value, id)).Success?
    ensures StudentAt(Update(s, id, u).store, id) == Validate(WithId(Merge(s[id], u).value, id)).value
  {
  }

  /** Each mark of the candidate is the update's when the update gives it,
      the stored one otherwise. */
  lemma CandidateMarks(d: Doc, u: StudentUpdate, id: string, n: SubjectName)
    requires Validate(WithId(d, id)).Success? && Merge(d, u).Success?
    requires Validate(WithId(Merge(d, u).value, id)).Success?
    ensures Mark(Validate(WithId(Merge(d, u).value, id)).value.subjects, n)
         == ValueAfter(Mark(Validate(WithId(d, id)).value.subjects, n), MarkChange(u, n))
  {
    var stored := WithId(d, id);
    var cand := WithId(Merge(d, u).value, id);
    assert Admissible(stored) && Admissible(cand);
    assert Mark(Validate(cand).value.subjects, n) == Get(cand.subjects)[Alias(n)].v;
    assert Mark(Validate(stored).value.subjects, n) == Get(stored.subjects)[Alias(n)].v;
    if Given(u.subjects) {
      MergeKeepsOtherMarks(d, u, n);
    }
  }

  /** What a successful update does to the student: each field the update
      sets takes the update's value, each mark the update sets takes the
      update's mark, and everything else keeps its value. */
  lemma {:induction false} UpdateChangesOnlyWhatIsSet(s: Store, id: string, u: StudentUpdate)
    requires id in s && Validate(WithId(s[id], id)).Success?
    requires Update(s, id, u).status == Ok
    ensures var before := StudentAt(s, id);
            var after := StudentAt(Update(s, id, u).store, id);
            && after.id == id
            && after.name == ValueAfter(before.name, u.name)
            && after.age == ValueAfter(before.age, u.age)
            && GenderName(after.gender) == ValueAfter(GenderName(before.gender), u.gender)
            && after.rollNumber == ValueAfter(before.rollNumber, u.rollNumber)
            && after.attendance == ValueAfter(before.attendance, u.attendance)
            && forall n: SubjectName ::
                 Mark(after.subjects, n) == ValueAfter(Mark(before.subjects, n), MarkChange(u, n))
  {
    UpdatedStudentIsCandidate(s, id, u);
    forall n: SubjectName
      ensures Mark(StudentAt(Update(s, id, u).store, id).subjects, n)
           == ValueAfter(Mark(StudentAt(s, id).subjects, n), MarkChange(u, n))
    {
      CandidateMarks(s[id], u, id, n);
    }
  }

  /** An update that sets a given age outside 0 < age < 25 is refused and
      leaves the store as it was. */
  lemma UpdateRejectsAgeOutOfRange(s: Store, id: string, u: StudentUpdate)
    requires Given(u.age) && !ValidAge(Get(u.age))
    ensures Update(s, id, u) == Reply(s, Err(ValidationError))
  {
  }

  /** Setting a required field explicitly to `null` passes the update's
      own checks but fails the full validation of the merged candidate,
      and nothing is written. The update leaves `subjects` unset or sets
      it to `null`; writing marks could fail earlier, in the merge. */
  lemma UpdateRejectsNullRequiredField(s: Store, id: string, u: StudentUpdate)
    requires Accepted(u) && id in s && (u.subjects.Unset? || u.subjects == Set(Null))
    requires u.name == Set(Null) || u.age == Set(Null) || u.gender == Set(Null)
          || u.rollNumber == Set(Null) || u.attendance == Set(Null)
    ensures Update(s, id, u) == Reply(s, Err(ValidationError))
  {
  }

  /** For a stored body that validates, the update that sets nothing
      succeeds and the student reads back unchanged. */
  lemma UpdateNoChangeKeepsStudent(s: Store, id: string)
    requires id in s && Validate(WithId(s[id], id)).Success?
    ensures Update(s, id, NoChange).status == Ok
    ensures StudentAt(Update(s, id, NoChange).store, id) == StudentAt(s, id)
  {
    MergeNoChange(s[id]);
  }

  /** After a successful delete, viewing the ID fails with not-found. */
  lemma DeleteThenView(s: Store, id: string)
    requires Delete(s, id).status == Ok
    ensures View(Delete(s, id).store, id) == Failure(NotFound)
  {
  }

  /** After a successful create, viewing the ID returns a body that reads
      back as the created student. */
  lemma CreateThenView(s: Store, doc: Doc)
    requires Create(s, doc).status == Ok
    ensures var st := Validate(doc).value;
            View(Create(s, doc).store, st.id).Success?
            && Validate(WithId(View(Create(s, doc).store, st.id).value, st.id)) == Success(st)
  {
  }

  /** A student created as the service writes it cannot be updated by any
      update that leaves the Computer Science mark unset: the merged body
      still lacks the "Computer Science" key the full validation reads. */
  lemma {:induction false} CreateAsWrittenBlocksUpdate(s: Store, doc: Doc, u: StudentUpdate)
    requires CreateAsWritten(s, doc).status == Ok
    requires MarkChange(u, ComputerScience).Unset?
    ensures var id := Validate(doc).value.id;
            Update(CreateAsWritten(s, doc).store, id, u).status == Err(ValidationError)
  {
    var st := Validate(doc).value;
    var s' := CreateAsWritten(s, doc).store;
    var body := Dump(st, false);
    assert s'[st.id] == body;
    if Accepted(u) {
      assert Merge(body, u).Success?;
      FieldNameDumpUnreadable(st.subjects);
      MergeKeepsMissingMark(body, u, ComputerScience);
      assert !Admissible(WithId(Merge(body, u).value, st.id));
    }
  }
}
