/** The validated student record: its field constraints, the two computed
    marks, reading a JSON body back into a record and writing one out. */
module Schema {
  import opened Outcomes
  import opened Documents

  datatype Gender = Male | Female

  /** The five subjects of a marks sheet. */
  datatype SubjectName = Mathematics | Physics | ComputerScience | English | Chemistry

  const AllSubjects: seq<SubjectName> := [Mathematics, Physics, ComputerScience, English, Chemistry]

  /** All five marks; every one is required. */
  datatype Subjects = Subjects(
    mathematics: int,
    physics: int,
    computerScience: int,
    english: int,
    chemistry: int)

  /** A student as the schema accepts it. `attendance` is a real number
      here; the service keeps it as a float. */
  datatype Student = Student(
    id: string,
    name: string,
    age: int,
    gender: Gender,
    rollNumber: string,
    subjects: Subjects,
    attendance: real)

  function Mark(s: Subjects, n: SubjectName): int {
    match n
    case Mathematics => s.mathematics
    case Physics => s.physics
    case ComputerScience => s.computerScience
    case English => s.english
    case Chemistry => s.chemistry
  }

  /** The JSON key of a subject when written by alias. Reading a marks
      object into `Subjects` accepts only these keys. */
  function Alias(n: SubjectName): string {
    match n
    case Mathematics => "Mathematics"
    case Physics => "Physics"
    case ComputerScience => "Computer Science"
    case English => "English"
    case Chemistry => "Chemistry"
  }

  /** The JSON key of a subject when written by field name. */
  function FieldName(n: SubjectName): string {
    match n
    case Mathematics => "Mathematics"
    case Physics => "Physics"
    case ComputerScience => "computer_science"
    case English => "English"
    case Chemistry => "Chemistry"
  }

  function SubjectKey(n: SubjectName, byAlias: bool): string {
    if byAlias then Alias(n) else FieldName(n)
  }

  const AliasKeys: set<string> := {"Mathematics", "Physics", "Computer Science", "English", "Chemistry"}

  predicate ValidAge(age: int) {
    0 < age < 25
  }

  predicate IsGenderName(s: string) {
    s == "Male" || s == "Female"
  }

  /** The one constraint the types do not already carry. */
  predicate Valid(st: Student) {
    ValidAge(st.age)
  }

  function ParseGender(s: string): (r: Option<Gender>)
    ensures r.Some? <==> IsGenderName(s)
  {
    if s == "Male" then Some(Male)
    else if s == "Female" then Some(Female)
    else None
  }

  function GenderName(g: Gender): (r: string)
    ensures IsGenderName(r)
    ensures ParseGender(r) == Some(g)
  {
    match g
    case Male => "Male"
    case Female => "Female"
  }

  /** Sum of the marks of the listed subjects: the reference definition of
      the total. */
  function SumOfMarks(names: seq<SubjectName>, s: Subjects): int {
    if |names| == 0 then 0 else Mark(s, names[0]) + SumOfMarks(names[1..], s)
  }

  /** The computed `total_marks`: the five marks added up, which is the sum
      over the list of all subjects. */
  function TotalMarks(s: Subjects): (r: int)
    ensures r == SumOfMarks(AllSubjects, s)
  {
    TotalIsSumOfAllSubjects(s);
    s.mathematics + s.physics + s.computerScience + s.english + s.chemistry
  }

  /** The computed `average_marks`, an exact quotient here. */
  function AverageMarks(s: Subjects): (r: real)
    ensures r * 5.0 == TotalMarks(s) as real
  {
    TotalMarks(s) as real / 5.0
  }

  /** The five named marks added up are the sum over `AllSubjects`. */
  lemma {:induction false} TotalIsSumOfAllSubjects(s: Subjects)
    ensures s.mathematics + s.physics + s.computerScience + s.english + s.chemistry
         == SumOfMarks(AllSubjects, s)
  {
    var t1 := AllSubjects[1..];
    var t2 := t1[1..];
    var t3 := t2[1..];
    var t4 := t3[1..];
    assert t1 == [Physics, ComputerScience, English, Chemistry];
    assert t2 == [ComputerScience, English, Chemistry];
    assert t3 == [English, Chemistry];
    assert t4 == [Chemistry];
    assert t4[1..] == [];
    assert SumOfMarks(t4, s) == s.chemistry + SumOfMarks(t4[1..], s);
    assert SumOfMarks(t3, s) == s.english + SumOfMarks(t4, s);
    assert SumOfMarks(t2, s) == s.computerScience + SumOfMarks(t3, s);
    assert SumOfMarks(t1, s) == s.physics + SumOfMarks(t2, s);
    assert SumOfMarks(AllSubjects, s) == s.mathematics + SumOfMarks(t1, s);
  }

  /** The marks object holds a non-null mark under `key`. */
  predicate HasMark(m: SubjectsDoc, key: string) {
    key in m && m[key].Value?
  }

  predicate AllMarks(m: SubjectsDoc) {
    forall n: SubjectName :: HasMark(m, Alias(n))
  }

  lemma AllMarksByName(m: SubjectsDoc)
    ensures AllMarks(m) <==>
      && HasMark(m, "Mathematics") && HasMark(m, "Physics") && HasMark(m, "Computer Science")
      && HasMark(m, "English") && HasMark(m, "Chemistry")
  {
    if AllMarks(m) {
      assert HasMark(m, Alias(Mathematics)) && HasMark(m, Alias(Physics));
      assert HasMark(m, Alias(ComputerScience)) && HasMark(m, Alias(English));
      assert HasMark(m, Alias(Chemistry));
    }
    if HasMark(m, "Mathematics") && HasMark(m, "Physics") && HasMark(m, "Computer Science")
      && HasMark(m, "English") && HasMark(m, "Chemistry")
    {
      forall n: SubjectName ensures HasMark(m, Alias(n)) {
        match n
        case Mathematics =>
        case Physics =>
        case ComputerScience =>
        case English =>
        case Chemistry =>
      }
    }
  }

  /** The marks of `s` are the non-null marks `m` holds under the aliases. */
  predicate MarksFrom(s: Subjects, m: SubjectsDoc)
    requires AllMarks(m)
  {
    forall n: SubjectName :: Mark(s, n) == m[Alias(n)].v
  }

  lemma MarksFromByName(s: Subjects, m: SubjectsDoc)
    requires AllMarks(m)
    ensures MarksFrom(s, m) <==>
      s == Subjects(m[Alias(Mathematics)].v, m[Alias(Physics)].v, m[Alias(ComputerScience)].v,
                    m[Alias(English)].v, m[Alias(Chemistry)].v)
  {
    assert HasMark(m, Alias(Mathematics)) && HasMark(m, Alias(ComputerScience));
    assert HasMark(m, Alias(Physics)) && HasMark(m, Alias(English)) && HasMark(m, Alias(Chemistry));
    if s == Subjects(m["Mathematics"].v, m["Physics"].v, m["Computer Science"].v,
                     m["English"].v, m["Chemistry"].v)
    {
      forall n: SubjectName ensures Mark(s, n) == m[Alias(n)].v {
        match n
        case Mathematics =>
        case Physics =>
        case ComputerScience =>
        case English =>
        case Chemistry =>
      }
    }
  }

  /** Reads a marks object into `Subjects`, by alias only: every subject
      must be present and non-null; other keys are ignored. */
  function ReadSubjects(m: SubjectsDoc): (r: Option<Subjects>)
    ensures r.Some? <==> AllMarks(m)
    ensures r.Some? ==> MarksFrom(r.value, m)
  {
    AllMarksByName(m);
    if HasMark(m, "Mathematics") && HasMark(m, "Physics") && HasMark(m, "Computer Science")
      && HasMark(m, "English") && HasMark(m, "Chemistry")
    then
      var s := Subjects(m["Mathematics"].v, m["Physics"].v, m["Computer Science"].v,
                        m["English"].v, m["Chemistry"].v);
      MarksFromByName(s, m);
      Some(s)
    else
      None
  }

  /** Writes the five marks as a marks object, keyed by alias or by field
      name. */
  function DumpSubjects(s: Subjects, byAlias: bool): (m: SubjectsDoc)
    ensures forall n: SubjectName ::
      SubjectKey(n, byAlias) in m && m[SubjectKey(n, byAlias)] == Value(Mark(s, n))
    ensures m.Keys == {SubjectKey(Mathematics, byAlias), SubjectKey(Physics, byAlias),
                       SubjectKey(ComputerScience, byAlias), SubjectKey(English, byAlias),
                       SubjectKey(Chemistry, byAlias)}
  {
    var m := map[
      SubjectKey(Mathematics, byAlias) := Value(s.mathematics),
      SubjectKey(Physics, byAlias) := Value(s.physics),
      SubjectKey(ComputerScience, byAlias) := Value(s.computerScience),
      SubjectKey(English, byAlias) := Value(s.english),
      SubjectKey(Chemistry, byAlias) := Value(s.chemistry)];
    DumpSubjectsHoldsMarks(s, byAlias, m);
    m
  }

  lemma DumpSubjectsHoldsMarks(s: Subjects, byAlias: bool, m: SubjectsDoc)
    requires m == map[
      SubjectKey(Mathematics, byAlias) := Value(s.mathematics),
      SubjectKey(Physics, byAlias) := Value(s.physics),
      SubjectKey(ComputerScience, byAlias) := Value(s.computerScience),
      SubjectKey(English, byAlias) := Value(s.english),
      SubjectKey(Chemistry, byAlias) := Value(s.chemistry)]
    ensures forall n: SubjectName ::
      SubjectKey(n, byAlias) in m && m[SubjectKey(n, byAlias)] == Value(Mark(s, n))
  {
    forall n: SubjectName
      ensures SubjectKey(n, byAlias) in m && m[SubjectKey(n, byAlias)] == Value(Mark(s, n))
    {
      match n
      case Mathematics =>
      case Physics =>
      case ComputerScience =>
      case English =>
      case Chemistry =>
    }
  }

  /** Marks written by alias read back as the same marks. */
  lemma ReadDumpedSubjects(s: Subjects)
    ensures ReadSubjects(DumpSubjects(s, true)) == Some(s)
  {
    var m := DumpSubjects(s, true);
    assert SubjectKey(Mathematics, true) == "Mathematics";
    assert SubjectKey(ComputerScience, true) == "Computer Science";
    assert SubjectKey(Physics, true) == "Physics" && SubjectKey(English, true) == "English";
    assert SubjectKey(Chemistry, true) == "Chemistry";
    AllMarksByName(m);
    MarksFromByName(s, m);
  }

  /** Marks written by field name lack the "Computer Science" key, so they
      never read back. */
  lemma {:induction false} FieldNameDumpUnreadable(s: Subjects)
    ensures !HasMark(DumpSubjects(s, false), Alias(ComputerScience))
    ensures ReadSubjects(DumpSubjects(s, false)) == None
  {
    var m := DumpSubjects(s, false);
    assert m == map[
      "Mathematics" := Value(s.mathematics),
      "Physics" := Value(s.physics),
      "computer_science" := Value(s.computerScience),
      "English" := Value(s.english),
      "Chemistry" := Value(s.chemistry)];
    assert "Computer Science"[0] != "computer_science"[0];
    assert "Computer Science" != "Mathematics" && "Computer Science" != "Physics";
    assert "Computer Science" != "English" && "Computer Science" != "Chemistry";
    assert !HasMark(m, "Computer Science");
    AllMarksByName(m);
  }

  /** Every key the schema requires is present and non-null, the age lies
      strictly between 0 and 25, the gender is Male or Female, and the
      marks object holds all five marks under their aliases. */
  predicate Admissible(d: Doc) {
    && Given(d.id) && Given(d.name) && Given(d.age) && Given(d.gender)
    && Given(d.rollNumber) && Given(d.subjects) && Given(d.attendance)
    && ValidAge(Get(d.age))
    && IsGenderName(Get(d.gender))
    && AllMarks(Get(d.subjects))
  }

  /** Builds a `Student` from a full document or rejects it. The stored
      computed marks are ignored: they are never read back. */
  function Validate(d: Doc): (r: Result<Student>)
    ensures r.Success? <==> Admissible(d)
    ensures r.Failure? ==> r.error == ValidationError
    ensures r.Success? ==> Valid(r.value)
    ensures r.Success? ==>
      && r.value.id == Get(d.id)
      && r.value.name == Get(d.name)
      && r.value.age == Get(d.age)
      && GenderName(r.value.gender) == Get(d.gender)
      && r.value.rollNumber == Get(d.rollNumber)
      && r.value.attendance == Get(d.attendance)
      && MarksFrom(r.value.subjects, Get(d.subjects))
  {
    if !(Given(d.id) && Given(d.name) && Given(d.age) && Given(d.gender)
         && Given(d.rollNumber) && Given(d.subjects) && Given(d.attendance))
    then Failure(ValidationError)
    else if !ValidAge(Get(d.age)) then Failure(ValidationError)
    else
      match ParseGender(Get(d.gender))
      case None => Failure(ValidationError)
      case Some(g) =>
        match ReadSubjects(Get(d.subjects))
        case None => Failure(ValidationError)
        case Some(subjects) =>
          Success(Student(Get(d.id), Get(d.name), Get(d.age), g, Get(d.rollNumber),
                          subjects, Get(d.attendance)))
  }

  /** The body written for a student: every field but `id`, plus the two
      computed marks, with subject keys by alias or by field name. */
  function Dump(st: Student, byAlias: bool): (r: Doc)
    ensures r.id.Unset?
    ensures r.name == Set(Value(st.name)) && r.age == Set(Value(st.age))
    ensures r.gender == Set(Value(GenderName(st.gender)))
    ensures r.rollNumber == Set(Value(st.rollNumber)) && r.attendance == Set(Value(st.attendance))
    ensures r.subjects == Set(Value(DumpSubjects(st.subjects, byAlias)))
    ensures Valid(st) && byAlias ==> Validate(WithId(r, st.id)) == Success(st)
    ensures !byAlias ==> forall id: string :: Validate(WithId(r, id)).Failure?
    ensures Given(r.totalMarks) && Get(r.totalMarks) == SumOfMarks(AllSubjects, st.subjects)
    ensures Given(r.averageMarks) && Get(r.averageMarks) * 5.0 == Get(r.totalMarks) as real
  {
    ReadDumpedSubjects(st.subjects);
    FieldNameDumpUnreadable(st.subjects);
    Doc(
      id := Unset,
      name := Set(Value(st.name)),
      age := Set(Value(st.age)),
      gender := Set(Value(GenderName(st.gender))),
      rollNumber := Set(Value(st.rollNumber)),
      subjects := Set(Value(DumpSubjects(st.subjects, byAlias))),
      attendance := Set(Value(st.attendance)),
      totalMarks := Set(Value(TotalMarks(st.subjects))),
      averageMarks := Set(Value(AverageMarks(st.subjects))))
  }
}
