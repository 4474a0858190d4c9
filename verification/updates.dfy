/** Partial updates: the optional update shapes, the checks an update must
    pass on its own, and the merge of an update onto a stored body. */
module Updates {
  import opened Outcomes
  import opened Documents
  import opened Schema

  /** Any subset of the five marks; a mark may also be set to `null`. */
  datatype SubjectsUpdate = SubjectsUpdate(
    mathematics: Field<int>,
    physics: Field<int>,
    computerScience: Field<int>,
    english: Field<int>,
    chemistry: Field<int>)

  /** Any subset of the student's fields. The `id` is not among them: it is
      never changed by an update. */
  datatype StudentUpdate = StudentUpdate(
    name: Field<string>,
    age: Field<int>,
    gender: Field<string>,
    rollNumber: Field<string>,
    subjects: Field<SubjectsUpdate>,
    attendance: Field<real>)

  /** The update that sets nothing. */
  const NoChange: StudentUpdate := StudentUpdate(Unset, Unset, Unset, Unset, Unset, Unset)

  function MarkUpdate(su: SubjectsUpdate, n: SubjectName): Field<int> {
    match n
    case Mathematics => su.mathematics
    case Physics => su.physics
    case ComputerScience => su.computerScience
    case English => su.english
    case Chemistry => su.chemistry
  }

  /** The change an update makes to one mark: unset unless the update sets
      its marks object and, in it, that mark. */
  function MarkChange(u: StudentUpdate, n: SubjectName): Field<int> {
    if u.subjects.Set? && u.subjects.val.Value? then MarkUpdate(u.subjects.val.v, n) else Unset
  }

  /** The checks an update document passes before any record is looked
      up: a given age lies strictly between 0 and 25 and a given gender is
      Male or Female. Absent and `null` values pass. */
  predicate Accepted(u: StudentUpdate) {
    && (Given(u.age) ==> ValidAge(Get(u.age)))
    && (Given(u.gender) ==> IsGenderName(Get(u.gender)))
  }

  /** The request check refuses nothing the full validation would let
      through: when merging an update yields a candidate that validates,
      the update passed the check. So the check only makes a refusal
      earlier, before the ID is looked up. */
  lemma ValidCandidatePassesRequestCheck(d: Doc, u: StudentUpdate, id: string)
    requires Merge(d, u).Success?
    requires Validate(WithId(Merge(d, u).value, id)).Success?
    ensures Accepted(u)
  {
    assert Admissible(WithId(Merge(d, u).value, id));
  }

  function Entry(key: string, f: Field<int>): (m: SubjectsDoc)
    ensures key in m <==> f.Set?
    ensures key in m ==> m[key] == f.val
    ensures m.Keys <= {key}
  {
    if f.Set? then map[key := f.val] else map[]
  }

  /** The marks object of an update written with unset marks left out and
      keys by alias. */
  function DumpSubjectsUpdate(su: SubjectsUpdate): (m: SubjectsDoc)
    ensures forall n: SubjectName :: Alias(n) in m <==> MarkUpdate(su, n).Set?
    ensures forall n: SubjectName :: Alias(n) in m ==> m[Alias(n)] == MarkUpdate(su, n).val
    ensures m.Keys <= AliasKeys
  {
    var m := Entry("Mathematics", su.mathematics) + Entry("Physics", su.physics)
      + Entry("Computer Science", su.computerScience) + Entry("English", su.english)
      + Entry("Chemistry", su.chemistry);
    DumpSubjectsUpdateKeys(su, m);
    m
  }

  lemma DumpSubjectsUpdateKeys(su: SubjectsUpdate, m: SubjectsDoc)
    requires m == Entry("Mathematics", su.mathematics) + Entry("Physics", su.physics)
      + Entry("Computer Science", su.computerScience) + Entry("English", su.english)
      + Entry("Chemistry", su.chemistry)
    ensures forall n: SubjectName :: Alias(n) in m <==> MarkUpdate(su, n).Set?
    ensures forall n: SubjectName :: Alias(n) in m ==> m[Alias(n)] == MarkUpdate(su, n).val
  {
    assert "Mathematics" != "Physics" && "Mathematics" != "English" && "Mathematics" != "Chemistry";
    assert "Physics" != "English" && "Physics" != "Chemistry" && "English" != "Chemistry";
    assert "Computer Science" != "Mathematics" && "Computer Science" != "Physics";
    assert "Computer Science" != "English" && "Computer Science" != "Chemistry";
    forall n: SubjectName
      ensures Alias(n) in m <==> MarkUpdate(su, n).Set?
      ensures Alias(n) in m ==> m[Alias(n)] == MarkUpdate(su, n).val
    {
      match n
      case Mathematics =>
      case Physics =>
      case ComputerScience =>
      case English =>
      case Chemistry =>
    }
  }

  /** Whether the update's marks object sets at least one mark. */
  predicate SetsAnyMark(su: SubjectsUpdate) {
    DumpSubjectsUpdate(su) != map[]
  }

  /** `mm` is `m` with the marks `su` sets overwritten, one key at a time:
      every set mark is replaced, every other key is kept as it was, and no
      other key appears. */
  predicate MergedMarks(m: SubjectsDoc, su: SubjectsUpdate, mm: SubjectsDoc) {
    && (forall n: SubjectName :: MarkUpdate(su, n).Set? ==>
          Alias(n) in mm && mm[Alias(n)] == MarkUpdate(su, n).val)
    && (forall k :: k in m && k !in DumpSubjectsUpdate(su) ==> k in mm && mm[k] == m[k])
    && (forall k :: k in mm ==> k in m || k in DumpSubjectsUpdate(su))
  }

  /** The marks object a merge starts from: the stored one, or an empty
      object when the body has none. */
  function PriorMarks(prior: Field<SubjectsDoc>): SubjectsDoc {
    if Given(prior) then Get(prior) else map[]
  }

  /** Merges the `subjects` part of an update into the stored `subjects`
      key. Unset: kept. Set to `null`: overwritten with `null`. Set to an
      object: its marks are copied key by key onto the stored object (an
      absent object starts empty); copying a mark into a stored `null`
      fails, as item assignment on `None` does. */
  function MergeSubjects(prior: Field<SubjectsDoc>, upd: Field<SubjectsUpdate>): (r: Result<Field<SubjectsDoc>>)
    ensures upd.Unset? ==> r == Success(prior)
    ensures upd == Set(Null) ==> r == Success(Set(Null))
    ensures r.Failure? <==> Given(upd) && prior == Set(Null) && SetsAnyMark(Get(upd))
    ensures r.Failure? ==> r.error == TypeError
    ensures Given(upd) && prior == Set(Null) && !SetsAnyMark(Get(upd)) ==> r == Success(Set(Null))
    ensures r.Success? && Given(upd) && prior != Set(Null) ==>
      Given(r.value) && MergedMarks(PriorMarks(prior), Get(upd), Get(r.value))
  {
    match upd
    case Unset => Success(prior)
    case Set(Null) => Success(Set(Null))
    case Set(Value(su)) =>
      var changes := DumpSubjectsUpdate(su);
      match prior
      case Set(Null) => if changes == map[] then Success(Set(Null)) else Failure(TypeError)
      case _ => Success(Set(Value(PriorMarks(prior) + changes)))
  }

  /** Keeps `prior` unless the update sets the key (to a value or `null`). */
  function Overlay<T>(prior: Field<T>, upd: Field<T>): Field<T> {
    if upd.Set? then upd else prior
  }

  /** Copies onto the body exactly the keys the update sets, `subjects`
      one level deeper. The `id` and the stored computed marks are not
      touched. */
  function Merge(d: Doc, u: StudentUpdate): (r: Result<Doc>)
    ensures r.Failure? <==> Given(u.subjects) && d.subjects == Set(Null) && SetsAnyMark(Get(u.subjects))
    ensures r.Failure? ==> r.error == TypeError
    ensures r.Success? ==>
      && r.value.id == d.id && r.value.totalMarks == d.totalMarks && r.value.averageMarks == d.averageMarks
      && (u.name.Unset? ==> r.value.name == d.name) && (u.name.Set? ==> r.value.name == u.name)
      && (u.age.Unset? ==> r.value.age == d.age) && (u.age.Set? ==> r.value.age == u.age)
      && (u.gender.Unset? ==> r.value.gender == d.gender) && (u.gender.Set? ==> r.value.gender == u.gender)
      && (u.rollNumber.Unset? ==> r.value.rollNumber == d.rollNumber)
      && (u.rollNumber.Set? ==> r.value.rollNumber == u.rollNumber)
      && (u.attendance.Unset? ==> r.value.attendance == d.attendance)
      && (u.attendance.Set? ==> r.value.attendance == u.attendance)
      && (u.subjects.Unset? ==> r.value.subjects == d.subjects)
      && (u.subjects == Set(Null) ==> r.value.subjects == Set(Null))
      && (d.subjects == Set(Null) ==> r.value.subjects == Set(Null))
      && (Given(u.subjects) && d.subjects != Set(Null) ==>
            Given(r.value.subjects)
            && MergedMarks(PriorMarks(d.subjects), Get(u.subjects), Get(r.value.subjects)))
  {
    match MergeSubjects(d.subjects, u.subjects)
    case Failure(e) => Failure(e)
    case Success(subjects) =>
      Success(d.(
        name := Overlay(d.name, u.name),
        age := Overlay(d.age, u.age),
        gender := Overlay(d.gender, u.gender),
        rollNumber := Overlay(d.rollNumber, u.rollNumber),
        subjects := subjects,
        attendance := Overlay(d.attendance, u.attendance)))
  }

  /** Merging the update that sets nothing returns the body unchanged. */
  lemma MergeNoChange(d: Doc)
    ensures Merge(d, NoChange) == Success(d)
  {
  }

  /** Only the marks the update names are overwritten; the other marks of
      the stored object keep their values. */
  lemma {:induction false} MergeKeepsOtherMarks(d: Doc, u: StudentUpdate, n: SubjectName)
    requires Given(d.subjects) && Given(u.subjects)
    requires Merge(d, u).Success?
    ensures Given(Merge(d, u).value.subjects)
    ensures MarkUpdate(Get(u.subjects), n).Unset? ==>
      (Alias(n) in Get(Merge(d, u).value.subjects) <==> Alias(n) in Get(d.subjects))
      && (Alias(n) in Get(d.subjects) ==>
            Get(Merge(d, u).value.subjects)[Alias(n)] == Get(d.subjects)[Alias(n)])
    ensures MarkUpdate(Get(u.subjects), n).Set? ==>
      Get(Merge(d, u).value.subjects)[Alias(n)] == MarkUpdate(Get(u.subjects), n).val
  {
    var mm := Get(Merge(d, u).value.subjects);
    var changes := DumpSubjectsUpdate(Get(u.subjects));
    assert MergedMarks(Get(d.subjects), Get(u.subjects), mm);
    if MarkUpdate(Get(u.subjects), n).Unset? {
      assert Alias(n) !in changes;
    }
  }

  /** A mark the update leaves unset stays missing (or `null`) if it was. */
  lemma MergeKeepsMissingMark(d: Doc, u: StudentUpdate, n: SubjectName)
    requires Merge(d, u).Success? && MarkChange(u, n).Unset?
    requires !(Given(d.subjects) && HasMark(Get(d.subjects), Alias(n)))
    ensures !(Given(Merge(d, u).value.subjects) && HasMark(Get(Merge(d, u).value.subjects), Alias(n)))
  {
    var r := Merge(d, u).value;
    if Given(u.subjects) && Given(r.subjects) {
      var mm := Get(r.subjects);
      assert MergedMarks(PriorMarks(d.subjects), Get(u.subjects), mm);
      assert Alias(n) !in DumpSubjectsUpdate(Get(u.subjects));
    }
  }

  /** Updating only Physics of a stored marks object replaces that mark
      and keeps the other four. */
  lemma PartialSubjectsExample(d: Doc)
    requires d.subjects == Set(Value(map[
      "Mathematics" := Value(80), "Physics" := Value(70), "Computer Science" := Value(90),
      "English" := Value(60), "Chemistry" := Value(75)]))
    ensures var u := NoChange.(subjects := Set(Value(SubjectsUpdate(Unset, Set(Value(95)), Unset, Unset, Unset))));
            Merge(d, u).Success?
            && Merge(d, u).value.subjects == Set(Value(map[
                 "Mathematics" := Value(80), "Physics" := Value(95), "Computer Science" := Value(90),
                 "English" := Value(60), "Chemistry" := Value(75)]))
  {
    var su := SubjectsUpdate(Unset, Set(Value(95)), Unset, Unset, Unset);
    var m := Get(d.subjects);
    var u := NoChange.(subjects := Set(Value(su)));
    assert DumpSubjectsUpdate(su) == map["Physics" := Value(95)];
    assert MergeSubjects(d.subjects, u.subjects) == Success(Set(Value(m + map["Physics" := Value(95)])));
    assert Merge(d, u).value.subjects == Set(Value(m + map["Physics" := Value(95)]));
    assert m + map["Physics" := Value(95)] == m["Physics" := Value(95)];
    assert "Physics" != "Mathematics" && "Physics" != "Computer Science";
    assert "Physics" != "English" && "Physics" != "Chemistry";
    var merged := map[
      "Mathematics" := Value(80), "Physics" := Value(95), "Computer Science" := Value(90),
      "English" := Value(60), "Chemistry" := Value(75)];
    assert m["Physics" := Value(95)].Keys == merged.Keys;
    assert m["Physics" := Value(95)] == merged;
  }
}
