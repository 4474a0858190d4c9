/** Sorting the stored bodies on one column: the argument checks, the
    per-body sort key, and a stable insertion sort. */
module Sorting {
  import opened Outcomes
  import opened Documents
  import opened Schema
  import opened Registry
  import opened Updates

  datatype Direction = Ascending | Descending

  /** The two columns a sort may use. */
  datatype Column = AttendancePercentage | TotalMarksColumn

  function ParseDirection(s: string): (r: Option<Direction>)
    ensures r.Some? <==> s == "asc" || s == "desc"
    ensures r == Some(Descending) <==> s == "desc"
  {
    if s == "asc" then Some(Ascending)
    else if s == "desc" then Some(Descending)
    else None
  }

  function ParseColumn(s: string): (r: Option<Column>)
    ensures r.Some? <==> s == "attendance_percentage" || s == "total_marks"
    ensures r == Some(TotalMarksColumn) <==> s == "total_marks"
  {
    if s == "attendance_percentage" then Some(AttendancePercentage)
    else if s == "total_marks" then Some(TotalMarksColumn)
    else None
  }

  /** The column as a body holds it: 0 when the key is absent, None when
      it is JSON `null`. */
  function ColumnValue(d: Doc, c: Column): (r: Option<real>)
    ensures c == AttendancePercentage ==>
      && (d.attendance.Unset? ==> r == Some(0.0))
      && (r.None? <==> d.attendance == Set(Null))
      && (Given(d.attendance) ==> r == Some(Get(d.attendance)))
    ensures c == TotalMarksColumn ==>
      && (d.totalMarks.Unset? ==> r == Some(0.0))
      && (r.None? <==> d.totalMarks == Set(Null))
      && (Given(d.totalMarks) ==> r == Some(Get(d.totalMarks) as real))
  {
    match c
    case AttendancePercentage =>
      (match d.attendance
       case Unset => Some(0.0)
       case Set(Null) => None
       case Set(Value(v)) => Some(v))
    case TotalMarksColumn =>
      (match d.totalMarks
       case Unset => Some(0.0)
       case Set(Null) => None
       case Set(Value(v)) => Some(v as real))
  }

  /** Some row holds `null` in the column. With two rows or more the sort
      then has to compare `null` with a number, which fails. */
  predicate HasNullKey(rows: seq<Doc>, c: Column) {
    exists i :: 0 <= i < |rows| && ColumnValue(rows[i], c).None?
  }

  /** The value a row is ordered by. A `null` column only reaches a sort of
      a single row, where its value plays no part; it is read as 0 there. */
  function SortKey(d: Doc, c: Column): (k: real)
    ensures ColumnValue(d, c).Some? ==> k == ColumnValue(d, c).value
  {
    match ColumnValue(d, c)
    case Some(v) => v
    case None => 0.0
  }

  /** `a` may come before `b` in the given direction. */
  predicate InOrder(a: real, b: real, dir: Direction) {
    if dir == Ascending then a <= b else a >= b
  }

  predicate Ordered(rows: seq<Doc>, c: Column, dir: Direction) {
    forall i, j :: 0 <= i < j < |rows| ==> InOrder(SortKey(rows[i], c), SortKey(rows[j], c), dir)
  }

  /** The rows whose key is `v`, in their order. */
  function Ties(rows: seq<Doc>, c: Column, v: real): seq<Doc> {
    if |rows| == 0 then []
    else (if SortKey(rows[0], c) == v then [rows[0]] else []) + Ties(rows[1..], c, v)
  }

  /** Rows with equal keys appear in `out` in the order they have in
      `rows`. */
  ghost predicate Stable(out: seq<Doc>, rows: seq<Doc>, c: Column) {
    forall v: real :: Ties(out, c, v) == Ties(rows, c, v)
  }

  lemma {:induction false} TiesConcat(a: seq<Doc>, b: seq<Doc>, c: Column, v: real)
    ensures Ties(a + b, c, v) == Ties(a, c, v) + Ties(b, c, v)
    decreases |a|
  {
    if |a| == 0 {
      assert a + b == b;
    } else {
      var head := if SortKey(a[0], c) == v then [a[0]] else [];
      assert (a + b)[0] == a[0];
      assert (a + b)[1..] == a[1..] + b;
      TiesConcat(a[1..], b, c, v);
      TiesFirst(a + b, c, v);
      TiesFirst(a, c, v);
      Regroup(Ties(a + b, c, v), head, Ties(a[1..] + b, c, v), Ties(a[1..], c, v), Ties(b, c, v),
              Ties(a, c, v));
    }
  }

  /** No row of `t` has key `v`. */
  lemma {:induction false} NoTies(t: seq<Doc>, c: Column, v: real)
    requires forall i :: 0 <= i < |t| ==> SortKey(t[i], c) != v
    ensures Ties(t, c, v) == []
    decreases |t|
  {
    if |t| > 0 {
      NoTies(t[1..], c, v);
    }
  }

  /** Inserts `x` into the ordered `t` after every row it does not strictly
      precede, so after all rows with its own key. */
  function Insert(x: Doc, t: seq<Doc>, c: Column, dir: Direction): (r: seq<Doc>)
    ensures multiset(r) == multiset(t) + multiset{x}
    decreases |t|
  {
    if |t| == 0 then [x]
    else if !InOrder(SortKey(t[0], c), SortKey(x, c), dir) then [x] + t
    else
      assert t == [t[0]] + t[1..];
      [t[0]] + Insert(x, t[1..], c, dir)
  }

  /** A row that may precede every row of an ordered sequence may lead it. */
  lemma OrderedCons(a: Doc, t: seq<Doc>, c: Column, dir: Direction)
    requires Ordered(t, c, dir)
    requires forall j :: 0 <= j < |t| ==> InOrder(SortKey(a, c), SortKey(t[j], c), dir)
    ensures Ordered([a] + t, c, dir)
  {
    var r := [a] + t;
    forall i, j | 0 <= i < j < |r|
      ensures InOrder(SortKey(r[i], c), SortKey(r[j], c), dir)
    {
      assert r[j] == t[j - 1];
      if i > 0 {
        assert r[i] == t[i - 1];
      }
    }
  }

  /** The first row of an ordered `t` may precede every row of `x`
      inserted into the rest, when it may precede `x`. */
  lemma FirstLeadsInsert(x: Doc, t: seq<Doc>, c: Column, dir: Direction)
    requires Ordered(t, c, dir) && |t| > 0
    requires InOrder(SortKey(t[0], c), SortKey(x, c), dir)
    ensures forall j :: 0 <= j < |Insert(x, t[1..], c, dir)| ==>
      InOrder(SortKey(t[0], c), SortKey(Insert(x, t[1..], c, dir)[j], c), dir)
  {
    var tail := t[1..];
    var rest := Insert(x, tail, c, dir);
    forall j | 0 <= j < |rest|
      ensures InOrder(SortKey(t[0], c), SortKey(rest[j], c), dir)
    {
      assert rest[j] in multiset(rest);
      if rest[j] != x {
        assert rest[j] in multiset(tail);
        var i :| 0 <= i < |tail| && tail[i] == rest[j];
        assert t[i + 1] == rest[j];
      }
    }
  }

  lemma {:induction false} InsertOrdered(x: Doc, t: seq<Doc>, c: Column, dir: Direction)
    requires Ordered(t, c, dir)
    ensures Ordered(Insert(x, t, c, dir), c, dir)
    decreases |t|
  {
    if |t| > 0 && InOrder(SortKey(t[0], c), SortKey(x, c), dir) {
      assert Ordered(t[1..], c, dir);
      InsertOrdered(x, t[1..], c, dir);
      FirstLeadsInsert(x, t, c, dir);
      OrderedCons(t[0], Insert(x, t[1..], c, dir), c, dir);
      InsertAfterFirst(x, t, c, dir);
    }
  }

  lemma TiesCons(x: Doc, t: seq<Doc>, c: Column, v: real)
    ensures Ties([x] + t, c, v) == (if SortKey(x, c) == v then [x] else []) + Ties(t, c, v)
  {
    assert ([x] + t)[0] == x && ([x] + t)[1..] == t;
  }

  /** A row that strictly precedes the first row of an ordered sequence
      shares its key with no row of it. */
  lemma KeysAfter(x: Doc, t: seq<Doc>, c: Column, dir: Direction)
    requires Ordered(t, c, dir) && |t| > 0
    requires !InOrder(SortKey(t[0], c), SortKey(x, c), dir)
    ensures forall i :: 0 <= i < |t| ==> SortKey(t[i], c) != SortKey(x, c)
  {
    forall i | 0 < i < |t| ensures SortKey(t[i], c) != SortKey(x, c) {
      assert InOrder(SortKey(t[0], c), SortKey(t[i], c), dir);
    }
  }

  /** `x` goes in front of `t`: no row of `t` shares its key. */
  lemma InsertTiesFront(x: Doc, t: seq<Doc>, c: Column, dir: Direction, v: real)
    requires Ordered(t, c, dir) && |t| > 0
    requires !InOrder(SortKey(t[0], c), SortKey(x, c), dir)
    ensures Ties(Insert(x, t, c, dir), c, v)
         == Ties(t, c, v) + (if SortKey(x, c) == v then [x] else [])
  {
    assert Insert(x, t, c, dir) == [x] + t;
    TiesCons(x, t, c, v);
    if SortKey(x, c) == v {
      KeysAfter(x, t, c, dir);
      NoTies(t, c, v);
    }
  }

  /** Unfolds `Ties` at the first row. */
  lemma TiesFirst(t: seq<Doc>, c: Column, v: real)
    requires |t| > 0
    ensures Ties(t, c, v) == (if SortKey(t[0], c) == v then [t[0]] else []) + Ties(t[1..], c, v)
  {
  }

  /** Unfolds `Insert` when `x` goes after the first row. */
  lemma InsertAfterFirst(x: Doc, t: seq<Doc>, c: Column, dir: Direction)
    requires |t| > 0 && InOrder(SortKey(t[0], c), SortKey(x, c), dir)
    ensures Insert(x, t, c, dir) == [t[0]] + Insert(x, t[1..], c, dir)
  {
  }

  /** `x` goes after the first row of `t`: the ties of the rest carry over. */
  lemma InsertTiesSkip(x: Doc, t: seq<Doc>, c: Column, dir: Direction, v: real)
    requires |t| > 0 && InOrder(SortKey(t[0], c), SortKey(x, c), dir)
    requires Ties(Insert(x, t[1..], c, dir), c, v)
          == Ties(t[1..], c, v) + (if SortKey(x, c) == v then [x] else [])
    ensures Ties(Insert(x, t, c, dir), c, v)
         == Ties(t, c, v) + (if SortKey(x, c) == v then [x] else [])
  {
    var rest := Insert(x, t[1..], c, dir);
    InsertAfterFirst(x, t, c, dir);
    TiesCons(t[0], rest, c, v);
    TiesFirst(t, c, v);
    Regroup(Ties(Insert(x, t, c, dir), c, v), if SortKey(t[0], c) == v then [t[0]] else [],
            Ties(rest, c, v), Ties(t[1..], c, v), if SortKey(x, c) == v then [x] else [],
            Ties(t, c, v));
  }

  /** Re-brackets a concatenation of four pieces. */
  lemma Regroup(whole: seq<Doc>, first: seq<Doc>, rest: seq<Doc>, tail: seq<Doc>, own: seq<Doc>, prefix: seq<Doc>)
    requires whole == first + rest && rest == tail + own && prefix == first + tail
    ensures whole == prefix + own
  {
  }

  lemma {:induction false} InsertTies(x: Doc, t: seq<Doc>, c: Column, dir: Direction, v: real)
    requires Ordered(t, c, dir)
    ensures Ties(Insert(x, t, c, dir), c, v)
         == Ties(t, c, v) + (if SortKey(x, c) == v then [x] else [])
    decreases |t|
  {
    if |t| == 0 {
      TiesCons(x, [], c, v);
      assert [x] + [] == [x];
    } else if !InOrder(SortKey(t[0], c), SortKey(x, c), dir) {
      InsertTiesFront(x, t, c, dir, v);
    } else {
      assert Ordered(t[1..], c, dir);
      InsertTies(x, t[1..], c, dir, v);
      InsertTiesSkip(x, t, c, dir, v);
    }
  }

  /** Inserting the next row keeps the result a stable arrangement of the
      rows seen so far. */
  lemma InsertStable(init: seq<Doc>, last: Doc, t: seq<Doc>, c: Column, dir: Direction)
    requires Ordered(t, c, dir) && Stable(t, init, c)
    ensures Stable(Insert(last, t, c, dir), init + [last], c)
  {
    forall v: real
      ensures Ties(Insert(last, t, c, dir), c, v) == Ties(init + [last], c, v)
    {
      InsertTies(last, t, c, dir, v);
      TiesConcat(init, [last], c, v);
      assert [last][1..] == [];
    }
  }

  /** Inserting the last row into a sorted arrangement of the others
      sorts all of them. */
  lemma InsertLast(rows: seq<Doc>, t: seq<Doc>, c: Column, dir: Direction)
    requires |rows| > 0
    requires multiset(t) == multiset(rows[..|rows| - 1])
    requires Ordered(t, c, dir) && Stable(t, rows[..|rows| - 1], c)
    ensures multiset(Insert(rows[|rows| - 1], t, c, dir)) == multiset(rows)
    ensures Ordered(Insert(rows[|rows| - 1], t, c, dir), c, dir)
    ensures Stable(Insert(rows[|rows| - 1], t, c, dir), rows, c)
  {
    var init := rows[..|rows| - 1];
    var last := rows[|rows| - 1];
    assert init + [last] == rows;
    InsertOrdered(last, t, c, dir);
    InsertStable(init, last, t, c, dir);
  }

  /** Insertion sort: a permutation of `rows`, ordered on the column in the
      direction, with rows of equal key in their original order. */
  function InsertionSort(rows: seq<Doc>, c: Column, dir: Direction): (r: seq<Doc>)
    ensures multiset(r) == multiset(rows)
    ensures Ordered(r, c, dir)
    ensures Stable(r, rows, c)
    decreases |rows|
  {
    if |rows| == 0 then []
    else
      var t := InsertionSort(rows[..|rows| - 1], c, dir);
      InsertLast(rows, t, c, dir);
      Insert(rows[|rows| - 1], t, c, dir)
  }

  /** Two ordered permutations of each other start with the same key. */
  lemma FirstKeysAgree(a: seq<Doc>, b: seq<Doc>, c: Column, dir: Direction)
    requires multiset(a) == multiset(b) && |a| > 0
    requires Ordered(a, c, dir) && Ordered(b, c, dir)
    ensures |b| > 0 && SortKey(a[0], c) == SortKey(b[0], c)
  {
    assert a[0] in multiset(b);
    var j :| 0 <= j < |b| && b[j] == a[0];
    assert InOrder(SortKey(b[0], c), SortKey(a[0], c), dir) by {
      if j > 0 { assert InOrder(SortKey(b[0], c), SortKey(b[j], c), dir); }
    }
    assert b[0] in multiset(a);
    var i :| 0 <= i < |a| && a[i] == b[0];
    assert InOrder(SortKey(a[0], c), SortKey(b[0], c), dir) by {
      if i > 0 { assert InOrder(SortKey(a[0], c), SortKey(a[i], c), dir); }
    }
  }

  /** A row occurs in `rows` as often as among the rows sharing its key. */
  lemma {:induction false} CountInTies(rows: seq<Doc>, c: Column, x: Doc)
    ensures multiset(rows)[x] == multiset(Ties(rows, c, SortKey(x, c)))[x]
    decreases |rows|
  {
    if |rows| > 0 {
      var k := SortKey(x, c);
      CountInTies(rows[1..], c, x);
      assert rows == [rows[0]] + rows[1..];
      TiesCons(rows[0], rows[1..], c, k);
    }
  }

  /** Sequences with the same ties under every key are permutations of each
      other: stability alone makes the sort's output a permutation. */
  lemma StableIsPermutation(out: seq<Doc>, rows: seq<Doc>, c: Column)
    requires Stable(out, rows, c)
    ensures multiset(out) == multiset(rows)
  {
    forall x: Doc ensures multiset(out)[x] == multiset(rows)[x] {
      CountInTies(out, c, x);
      CountInTies(rows, c, x);
      assert Ties(out, c, SortKey(x, c)) == Ties(rows, c, SortKey(x, c));
    }
  }

  /** Sequences with the same ties whose first keys agree start with the
      same row, and their tails have the same ties. */
  lemma TiesFix(a: seq<Doc>, b: seq<Doc>, c: Column)
    requires |a| > 0 && |b| > 0 && SortKey(a[0], c) == SortKey(b[0], c)
    requires Stable(a, b, c)
    ensures a[0] == b[0]
    ensures Stable(a[1..], b[1..], c)
  {
    var k := SortKey(a[0], c);
    TiesCons(a[0], a[1..], c, k);
    TiesCons(b[0], b[1..], c, k);
    assert a == [a[0]] + a[1..] && b == [b[0]] + b[1..];
    assert Ties(a, c, k) == Ties(b, c, k);
    assert Ties(a, c, k)[0] == a[0] && Ties(b, c, k)[0] == b[0];
    forall v: real ensures Ties(a[1..], c, v) == Ties(b[1..], c, v) {
      TiesCons(a[0], a[1..], c, v);
      TiesCons(b[0], b[1..], c, v);
      assert Ties(a, c, v) == Ties(b, c, v);
      if v == k {
        assert Ties(a[1..], c, v) == Ties(a, c, v)[1..];
        assert Ties(b[1..], c, v) == Ties(b, c, v)[1..];
      } else {
        assert Ties(a[1..], c, v) == Ties(a, c, v);
        assert Ties(b[1..], c, v) == Ties(b, c, v);
      }
    }
  }

  /** An ordered, stable permutation is unique: any two agree. So the
      three properties of `InsertionSort` determine its output completely. */
  lemma {:induction false} StableSortUnique(a: seq<Doc>, b: seq<Doc>, c: Column, dir: Direction)
    requires Ordered(a, c, dir) && Ordered(b, c, dir)
    requires Stable(a, b, c)
    ensures a == b
    decreases |a|
  {
    StableIsPermutation(a, b, c);
    assert |a| == |multiset(a)| == |multiset(b)| == |b|;
    if |a| > 0 {
      FirstKeysAgree(a, b, c, dir);
      TiesFix(a, b, c);
      assert a == [a[0]] + a[1..] && b == [b[0]] + b[1..];
      assert Ordered(a[1..], c, dir) && Ordered(b[1..], c, dir);
      StableSortUnique(a[1..], b[1..], c, dir);
    }
  }

  /** `order` lists every key of the store once: the store's iteration
      order, which the map itself does not record. */
  predicate IsOrderOf(order: seq<string>, s: Store) {
    && (forall i, j :: 0 <= i < j < |order| ==> order[i] != order[j])
    && (forall k :: k in s ==> k in order)
    && (forall i :: 0 <= i < |order| ==> order[i] in s)
  }

  /** The stored bodies in iteration order. */
  function Rows(s: Store, order: seq<string>): (rows: seq<Doc>)
    requires IsOrderOf(order, s)
    ensures |rows| == |order|
    ensures forall i :: 0 <= i < |order| ==> rows[i] == s[order[i]]
  {
    seq(|order|, i requires 0 <= i < |order| => s[order[i]])
  }

  /** The `sort_by` argument as the endpoint reads it: "asc" when it is
      omitted. */
  function DirectionArg(sortBy: Option<string>): string {
    if sortBy.Some? then sortBy.value else "asc"
  }

  /** The sort endpoint: the direction is checked first, then the column;
      the stored bodies are then sorted stably on the column. An omitted
      direction is ascending. */
  function SortStudents(s: Store, order: seq<string>, sortOn: string, sortBy: Option<string>): (r: Result<seq<Doc>>)
    requires IsOrderOf(order, s)
    ensures ParseDirection(DirectionArg(sortBy)).None? ==> r == Failure(BadSortDirection)
    ensures ParseDirection(DirectionArg(sortBy)).Some? && ParseColumn(sortOn).None? ==> r == Failure(BadSortColumn)
    ensures r.Success? <==>
      && ParseDirection(DirectionArg(sortBy)).Some? && ParseColumn(sortOn).Some?
      && !(|order| >= 2 && HasNullKey(Rows(s, order), ParseColumn(sortOn).value))
    ensures r.Failure? && ParseDirection(DirectionArg(sortBy)).Some? && ParseColumn(sortOn).Some? ==> r.error == TypeError
    ensures r.Success? ==>
      var c := ParseColumn(sortOn).value;
      var dir := ParseDirection(DirectionArg(sortBy)).value;
      && multiset(r.value) == multiset(Rows(s, order))
      && Ordered(r.value, c, dir)
      && Stable(r.value, Rows(s, order), c)
  {
    match ParseDirection(DirectionArg(sortBy))
    case None => Failure(BadSortDirection)
    case Some(dir) =>
      match ParseColumn(sortOn)
      case None => Failure(BadSortColumn)
      case Some(c) =>
        var rows := Rows(s, order);
        if |rows| >= 2 && HasNullKey(rows, c) then Failure(TypeError)
        else Success(InsertionSort(rows, c, dir))
  }

  /** Omitting the direction sorts exactly as asking for "asc" does: in
      ascending order, with the same failures. */
  lemma SortByDefaultsToAscending(s: Store, order: seq<string>, sortOn: string)
    requires IsOrderOf(order, s)
    ensures SortStudents(s, order, sortOn, None) == SortStudents(s, order, sortOn, Some("asc"))
    ensures SortStudents(s, order, sortOn, None).Success? ==>
      Ordered(SortStudents(s, order, sortOn, None).value, ParseColumn(sortOn).value, Ascending)
  {
  }

  /** A body written for a student holds both sort columns, and the stored
      total is the sum of the five marks. */
  lemma StoredKeysAreComputed(st: Student, byAlias: bool)
    ensures ColumnValue(Dump(st, byAlias), AttendancePercentage) == Some(st.attendance)
    ensures ColumnValue(Dump(st, byAlias), TotalMarksColumn)
         == Some(SumOfMarks(AllSubjects, st.subjects) as real)
  {
  }

  /** The body a successful create stores, as written or corrected, sorts
      on `total_marks` by the sum of the created student's five marks. */
  lemma CreateWritesComputedTotal(s: Store, doc: Doc, byAlias: bool)
    requires (if byAlias then Create(s, doc) else CreateAsWritten(s, doc)).status == Ok
    ensures var st := Validate(doc).value;
            var r := if byAlias then Create(s, doc) else CreateAsWritten(s, doc);
            st.id in r.store
            && ColumnValue(r.store[st.id], TotalMarksColumn)
               == Some(SumOfMarks(AllSubjects, st.subjects) as real)
  {
    StoredKeysAreComputed(Validate(doc).value, byAlias);
  }

  /** The body a successful update stores sorts on `total_marks` by the sum
      of the updated student's five marks, not by the stale stored total. */
  lemma UpdateWritesComputedTotal(s: Store, id: string, u: StudentUpdate)
    requires Update(s, id, u).status == Ok
    ensures var after := Update(s, id, u).store;
            id in after && Validate(WithId(after[id], id)).Success?
            && ColumnValue(after[id], TotalMarksColumn)
               == Some(SumOfMarks(AllSubjects, StudentAt(after, id).subjects) as real)
  {
    var st := Validate(WithId(Merge(s[id], u).value, id)).value;
    StoredKeysAreComputed(st, true);
  }

  /** The ties of four rows are the ties of each row, concatenated. */
  lemma TiesOfFour(p: Doc, q: Doc, r: Doc, t: Doc, c: Column, v: real)
    ensures Ties([p, q, r, t], c, v)
         == Ties([p], c, v) + Ties([q], c, v) + Ties([r], c, v) + Ties([t], c, v)
  {
    assert [p, q, r, t] == [p] + [q] + [r] + [t];
    TiesConcat([p] + [q] + [r], [t], c, v);
    TiesConcat([p] + [q], [r], c, v);
    TiesConcat([p], [q], c, v);
  }

  /** A body holding only a name and an attendance. */
  function AttendanceRow(name: string, attendance: real): (d: Doc)
    ensures SortKey(d, AttendancePercentage) == attendance
  {
    Doc(Unset, Set(Value(name)), Unset, Unset, Unset, Unset, Set(Value(attendance)), Unset, Unset)
  }

  /** Whatever ordered, stable permutation of the rows one exhibits is the
      result of the insertion sort. */
  lemma SortIsAnyStableOrdering(rows: seq<Doc>, expected: seq<Doc>, c: Column, dir: Direction)
    requires Ordered(expected, c, dir) && Stable(expected, rows, c)
    ensures InsertionSort(rows, c, dir) == expected
  {
    var out := InsertionSort(rows, c, dir);
    forall v: real ensures Ties(out, c, v) == Ties(expected, c, v) {
      assert Ties(out, c, v) == Ties(rows, c, v);
      assert Ties(expected, c, v) == Ties(rows, c, v);
    }
    StableSortUnique(out, expected, c, dir);
  }

  lemma FourExampleStable(p: Doc, q: Doc, r: Doc, t: Doc, c: Column)
    requires SortKey(p, c) == 90.0 && SortKey(q, c) == 70.0
    requires SortKey(r, c) == 90.0 && SortKey(t, c) == 50.0
    ensures Stable([t, q, p, r], [p, q, r, t], c)
  {
    forall v: real ensures Ties([t, q, p, r], c, v) == Ties([p, q, r, t], c, v) {
      TiesOfFour(p, q, r, t, c, v);
      TiesOfFour(t, q, p, r, c, v);
      TiesCons(p, [], c, v);
      TiesCons(q, [], c, v);
      TiesCons(r, [], c, v);
      TiesCons(t, [], c, v);
      assert [p] + [] == [p] && [q] + [] == [q] && [r] + [] == [r] && [t] + [] == [t];
    }
  }

  lemma FourExampleOrdered(p: Doc, q: Doc, r: Doc, t: Doc, c: Column)
    requires SortKey(p, c) == 90.0 && SortKey(q, c) == 70.0
    requires SortKey(r, c) == 90.0 && SortKey(t, c) == 50.0
    ensures Ordered([t, q, p, r], c, Ascending)
  {
    var e := [t, q, p, r];
    forall i, j | 0 <= i < j < |e|
      ensures InOrder(SortKey(e[i], c), SortKey(e[j], c), Ascending)
    {
    }
  }

  /** Four rows keyed 90, 70, 90, 50 sort ascending as the fourth, the
      second, then the first before the third. */
  lemma SortFourExample(p: Doc, q: Doc, r: Doc, t: Doc, c: Column)
    requires SortKey(p, c) == 90.0 && SortKey(q, c) == 70.0
    requires SortKey(r, c) == 90.0 && SortKey(t, c) == 50.0
    ensures InsertionSort([p, q, r, t], c, Ascending) == [t, q, p, r]
  {
    FourExampleOrdered(p, q, r, t, c);
    FourExampleStable(p, q, r, t, c);
    SortIsAnyStableOrdering([p, q, r, t], [t, q, p, r], c, Ascending);
  }

  /** Attendances 90, 70, 90, 50 stored under S1..S4 sort ascending as S4,
      S2, then S1 before S3: the two rows with 90 keep their stored order. */
  lemma SortExample()
    ensures var s1 := AttendanceRow("S1", 90.0);
            var s2 := AttendanceRow("S2", 70.0);
            var s3 := AttendanceRow("S3", 90.0);
            var s4 := AttendanceRow("S4", 50.0);
            var store := map["S1" := s1, "S2" := s2, "S3" := s3, "S4" := s4];
            IsOrderOf(["S1", "S2", "S3", "S4"], store)
            && SortStudents(store, ["S1", "S2", "S3", "S4"], "attendance_percentage", Some("asc"))
               == Success([s4, s2, s1, s3])
  {
    var s1 := AttendanceRow("S1", 90.0);
    var s2 := AttendanceRow("S2", 70.0);
    var s3 := AttendanceRow("S3", 90.0);
    var s4 := AttendanceRow("S4", 50.0);
    var store := map["S1" := s1, "S2" := s2, "S3" := s3, "S4" := s4];
    var order := ["S1", "S2", "S3", "S4"];
    assert IsOrderOf(order, store);
    var rows := Rows(store, order);
    assert rows == [s1, s2, s3, s4];
    assert !HasNullKey(rows, AttendancePercentage);
    SortFourExample(s1, s2, s3, s4, AttendancePercentage);
  }
}
