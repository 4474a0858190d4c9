# Student records: a Dafny model

This project models the record logic of a small FastAPI student-management
service (`main.py`). The service keeps a JSON file that maps student IDs to
student bodies. It offers view, create, delete, a partial update, and a sort
on one column. The model treats that file as a `map<string, Doc>` value that
each operation takes and returns. Loading and saving the file are not
modelled.

Modules, leaf to root:

- `Outcomes` (`outcomes.dfy`): the error kinds, `Option`, `Result` and `Status`.
- `Documents` (`documents.dfy`): JSON-shaped documents. Every key of a `Doc`
  is a `Field`: absent (`Unset`), present and `null`, or present with a
  value. This keeps "left out of the update" apart from "explicitly `null`".
  A marks object is a map from JSON key to a mark that may be `null`.
- `Schema` (`schema.dfy`): the validated `Student` and its five-mark
  `Subjects`. It holds the age and gender constraints, the computed
  `total_marks` and `average_marks`, and `Validate`, which reads a full
  document into a `Student`. It also holds `Dump`, which writes a `Student`
  out as a body, with subject keys either by alias or by field name.
- `Updates` (`updates.dfy`): the optional update shapes, the checks an
  update must pass on its own, and `Merge`. The merge copies only the keys
  an update sets onto a stored body. For `subjects` it goes one level
  deeper, key by key.
- `Registry` (`registry.dfy`): the keyed store. It has `View`, `Create`,
  `Delete` and `Update`, which merges, puts the `id` back, re-validates in
  full, and only then writes. It also has the lemmas that relate these
  operations.
- `Sorting` (`sorting.dfy`): the sort endpoint. The direction is checked
  first, then the column. The key is read from each body, with 0 for a
  missing key. The rows are then sorted by a stable insertion sort.

Where the code behaves differently from what its documentation suggests,
the model follows the code. The one exception is create.
`Registry.CreateAsWritten` models the code. `Registry.Create` is the
corrected create that the rest of the model uses (see "## Findings").
Other differences:

- The bodies written by create and update include the computed
  `total_marks` and `average_marks`, because `model_dump` writes computed
  fields. The sort on `total_marks` reads that stored value.
  Create and update store exactly the body `Schema.Dump` writes.
  `Sorting.CreateWritesComputedTotal` and `Sorting.UpdateWritesComputedTotal`
  show that in every body they store, this value is the sum of the five
  marks.
- An update that gives an age outside 0 < age < 25 is refused while the
  update document itself is parsed (`main.py:51`). That happens before the
  ID is looked up, not after the merge. So such an update is refused even
  for an unknown ID.
- A merged candidate that fails validation raises an uncaught pydantic
  error. The model reports it as `ValidationError`, and nothing is written.
- The service never catches a JSON `null` in a sort column, or in a stored
  `subjects` that an update writes into. Both become runtime type errors.
  The model reports them as `TypeError`.

## Model

| member | source | states |
|---|---|---|
| Schema.ParseGender | main.py:22 | exactly the strings "Male" and "Female" are accepted as a gender |
| Schema.GenderName | main.py:22 | the written gender name is one of the two accepted strings and parses back to the same gender |
| Schema.TotalMarks | main.py:29-31 | `total_marks` equals the sum of the marks over the list of all five subjects |
| Schema.TotalIsSumOfAllSubjects | main.py:31 | the five named marks added up equal the sum over the list of all five subjects |
| Schema.AverageMarks | main.py:34-37 | `average_marks` times 5 equals `total_marks` |
| Schema.ReadSubjects | main.py:11-16 | a marks object reads as `Subjects` exactly when all five marks are present and non-null under their aliases ("Computer Science" for computer_science), and each read mark is the object's mark |
| Schema.DumpSubjects | main.py:11-16 | the written marks object holds each of the five marks under its alias or its field name, and no other key |
| Schema.ReadDumpedSubjects | main.py:14 | marks written by alias read back as the same marks |
| Schema.FieldNameDumpUnreadable | main.py:14 | marks written by field name never read back, because the "Computer Science" key is missing |
| Schema.Validate | main.py:18-25 | a full document is accepted exactly when every required field is present and non-null, 0 < age < 25, the gender is Male or Female, and all five marks are present. The result is a valid student whose fields are the document's values. A refusal is a validation error |
| Schema.Dump | main.py:121 | the body has no `id`. It holds the student's name, age, gender name, roll number and attendance, and the marks object written by alias or by field name. A valid student written by alias validates back as the same student under its ID. A student written by field name validates under no ID. The stored total is the sum of the marks, and the stored average times 5 is the total |
| Updates.DumpSubjectsUpdate | main.py:143 | the written marks of an update hold a subject's alias exactly when the update sets that mark, with the value it sets, and no other keys |
| Updates.MergeSubjects | main.py:146-151 | an unset `subjects` keeps the stored one. A `null` one overwrites it with `null`. An object overwrites only the marks it sets and keeps every other stored key. An absent stored object starts empty. Writing a mark into a stored `null` fails with a type error, and nothing else fails. An object that sets no mark leaves a stored `null` as `null` |
| Updates.Merge | main.py:143-153 | each unset field keeps its stored value. Each set field, including an explicit `null`, is overwritten wholesale. `subjects` merges key by key. The `id` and stored computed marks are untouched. The merge fails only when marks are written into a stored `null`. A stored `null` `subjects` stays `null` in every successful merge |
| Updates.MergeNoChange | main.py:143-153 | merging the update that sets nothing returns the body unchanged |
| Updates.MergeKeepsOtherMarks | main.py:146-151 | after a merge, a mark the update leaves unset keeps its stored value and presence, and a mark it sets takes the update's value |
| Updates.PartialSubjectsExample | main.py:146-151 | stored marks 80/70/90/60/75 updated with Physics 95 become 80/95/90/60/75 |
| Registry.View | main.py:98-102 | a view succeeds exactly when the ID is stored and returns its body. Otherwise it fails with not-found |
| Registry.Create | main.py:115-123 | the corrected create (see "## Findings"): it writes the body by alias, where main.py:121 writes it by field name. An invalid document is refused. An ID that is already stored is refused. A refusal leaves the store unchanged. On success exactly the new ID is added, its body is the student written by alias, it reads back as the created student, and every other entry is unchanged. If every stored body validates beforehand, every one does afterwards |
| Registry.CreateAsWritten | main.py:115-123 | the create the service performs. An invalid document is a validation error. An ID already stored is refused as already existing. A refusal leaves the store unchanged. On success exactly the new ID is added and every other entry is unchanged. The new body is the student written by field name, and it does not validate under that ID |
| Registry.Delete | main.py:125-133 | a delete succeeds exactly when the ID is stored. A failure is not-found and leaves the store unchanged. On success exactly that key is removed and every other entry is unchanged |
| Registry.Update | main.py:135-161 | an update that fails its own checks is a validation error. An unknown ID is not-found. Writing marks into a stored `null` `subjects` is a type error. A merged candidate that fails validation is a validation error. Any failure leaves the store unchanged. The update succeeds exactly when the merged candidate validates. On success the keys stay the same and only the updated entry changes. It becomes the validated candidate written by alias, without `id` and with freshly computed marks, and it reads back as the merged candidate. If every stored body validates beforehand, every one does afterwards |
| Registry.UpdateChangesOnlyWhatIsSet | main.py:143-159 | for a stored body that validates, after a successful update, every field and every mark the update gives takes the update's value, and everything else keeps the student's previous value |
| Updates.ValidCandidatePassesRequestCheck | main.py:49-55 | the request check (a given age in 0 < age < 25, a given gender Male or Female) refuses no update whose merged candidate validates |
| Registry.UpdateRejectsAgeOutOfRange | main.py:51 | an update giving an age outside 0 < age < 25 is a validation error, and the store is unchanged |
| Registry.UpdateRejectsNullRequiredField | main.py:153-157 | an update of a stored ID that leaves `subjects` unset or sets it to `null`, and sets a required field to `null`, is a validation error, and the store is unchanged |
| Registry.UpdateNoChangeKeepsStudent | main.py:141-159 | for a stored body that validates, the update that sets nothing succeeds, and the student reads back unchanged |
| Registry.DeleteThenView | main.py:128-132 | after a successful delete, viewing the same ID fails with not-found |
| Registry.CreateThenView | main.py:118-122 | after a successful corrected create (`Registry.Create`, see "## Findings"), viewing the ID returns a body that reads back as the created student. The service's own create stores a body that does not read back |
| Registry.CreateAsWrittenBlocksUpdate | main.py:121 | after a create as written, every update of that ID that leaves the Computer Science mark unset fails validation |
| Sorting.ParseDirection | main.py:107-108 | exactly "asc" and "desc" are accepted as a direction, and "desc" is the descending one |
| Sorting.ParseColumn | main.py:109 | exactly "attendance_percentage" and "total_marks" are accepted as a column |
| Sorting.ColumnValue | main.py:110 | a row's sort value is the column's stored value, 0 when the key is absent, and no number when it is `null` |
| Sorting.SortKey | main.py:110 | a row is ordered by its column value whenever that value is a number |
| Sorting.InsertionSort | main.py:110 | the result is a permutation of the rows, ordered by key in the direction, with rows of equal key in their original order |
| Sorting.StableIsPermutation | main.py:110 | two sequences whose rows of each key appear in the same order are permutations of each other |
| Sorting.StableSortUnique | main.py:110 | two sequences, both ordered, whose rows of each key appear in the same order, are equal. So order and stability fix the sort's output |
| Sorting.SortIsAnyStableOrdering | main.py:110 | any ordered sequence that keeps the rows of each key in their original order is the sort's result |
| Sorting.SortStudents | main.py:104-113 | an omitted direction is read as "asc". A bad direction is refused whatever the column. A good direction with a bad column is refused. With valid arguments the sort fails only when there are two or more rows and one holds `null` in the column. Otherwise it returns the stored bodies as an ordered, stable permutation |
| Sorting.SortByDefaultsToAscending | main.py:105 | omitting the direction gives the same result as "asc": an ascending sort with the same failures |
| Sorting.StoredKeysAreComputed | main.py:121 | a body written for a student holds its attendance and, as `total_marks`, the sum of its five marks |
| Sorting.CreateWritesComputedTotal | main.py:121 | the body a successful create stores, as written or corrected, sorts on `total_marks` by the sum of the student's five marks |
| Sorting.UpdateWritesComputedTotal | main.py:158 | the body a successful update stores sorts on `total_marks` by the sum of the updated student's five marks |
| Sorting.SortFourExample | main.py:110 | rows keyed 90, 70, 90, 50 sort ascending as the 4th, 2nd, 1st, 3rd |
| Sorting.SortExample | main.py:104-113 | attendances 90, 70, 90, 50 stored under S1..S4 sort ascending as S4, S2, S1, S3 |

## Left out

- HTTP routing, status codes, `HTTPException`/`JSONResponse` and the static `/` and `/about` pages. Each error is a kind; its HTTP status is transport.
- Reading and writing `students.json` (`load_data`/`save_data`). The store is a value passed in and returned. A storage failure is not modelled.
- `view_students_page`. It only returns the whole file. As written it calls `os.path.exists` without importing `os`.
- The `print` of the merged candidate and the pydantic field metadata (descriptions, examples). Neither has behaviour.
- Floating point. Attendance and the average are real numbers and the average is an exact quotient.
- Pydantic's type coercion, and stored values of the wrong JSON type. A `Doc` is typed, so a value is present, `null`, or of its field's type.
- The choice between the alias and the field name in an update request body (`populate_by_name`). An update is modelled after parsing.
- The iteration order of the stored mapping. A Dafny map has none, so the sort takes it as the parameter `order`.
- Concurrent requests. Each operation is one step from one store value to the next.
- Schema.Validate: reports only the error kind, not the list of failing fields that pydantic reports.
- Registry.CreateAsWritten: assumes `model_dump(exclude=['id'])` drops `id` and returns. Pydantic types `exclude` as a set or a mapping, and the code passes a list. If the library refuses a list, create raises before anything is stored. The library is not part of this model.
- Registry.Update: assumes `model_dump(exclude='id', by_alias=True)` drops `id` and returns. The code passes a string where pydantic expects a set or a mapping. If the library refuses it, every update that passes validation raises before anything is stored.
- Sorting.SortStudents: a `null` key fails whenever there are two or more rows. This rests on the fact that a comparison sort compares every row at least once; the model does not prove that fact.

## Findings

| source | as written | input that shows it | evidently intended | confidence | as-written member | corrected member |
|---|---|---|---|---|---|---|
| main.py:121 | create stores the body with `model_dump(exclude=['id'])`, which writes the subject keys by field name (`computer_science`). `Subjects` reads only the alias "Computer Science" (main.py:14), and it does so again when an update re-validates the merged body (main.py:157) | create any valid student, then update it with any change that does not set "Computer Science" (for example only `name`). Validation fails and the update is impossible (`Registry.CreateAsWrittenBlocksUpdate`) | write the body by alias, as the update already does (main.py:158), so that every stored body re-validates | medium: it holds if the dump call at main.py:121 returns (see "## Left out"); not executed | Registry.CreateAsWritten | Registry.Create |
