/**
  A university's student table and the queries over it.

  The table is the insertion-ordered sequence of rows of `students_df`.
  A CGPA is held in hundredths (3.85 is 385), so comparisons, ordering and
  the highest/lowest statistics are exact.  Each query is a function of the
  table; the rows it returns keep the table's order.
 */
module Records {
  import opened Wrappers
  import opened Text

  /** One row of the table. */
  datatype Student = Student(
    studentId: string,
    name: string,
    university: string,
    degree: string,
    cgpa: int,
    graduationYear: int,
    enrollmentDate: string)

  /**
    A value handed to the store before conversion: a Python int, a float
    (in hundredths), a string, or None (also standing for a missing key).
   */
  datatype Raw = IntValue(i: int) | RealValue(cents: int) | TextValue(text: string) | NoneValue

  /** One dictionary of the list given to a bulk add. */
  datatype BulkEntry = BulkEntry(studentId: string, name: string, degree: string, cgpa: Raw, graduationYear: Raw)

  // ---------------------------------------------------------------------
  // Conversions float(...) and int(...)
  // ---------------------------------------------------------------------

  /** `int(x)` of a float given in hundredths: truncation toward zero. */
  function TruncateCents(c: int): (r: int)
    ensures c >= 0 ==> 0 <= r && 100 * r <= c < 100 * r + 100
    ensures c < 0 ==> r <= 0 && 100 * r - 100 < c <= 100 * r
  {
    if c >= 0 then c / 100 else -((-c) / 100)
  }

  /**
    `float(v)`, in hundredths; None when Python raises: an int is scaled,
    a float kept, text read as a decimal number, and None refused.
   */
  function AsCgpa(v: Raw): (r: Option<int>)
    ensures v.IntValue? ==> r == Some(100 * v.i)
    ensures v.RealValue? ==> r == Some(v.cents)
    ensures v.TextValue? ==> r == ParseCents(v.text)
    ensures v.NoneValue? ==> r.None?
    ensures v.TextValue? && r.Some? ==> ParseCents(ShowCents(r.value)) == r
  {
    match v
    case IntValue(i) => Some(100 * i)
    case RealValue(c) => Some(c)
    case TextValue(s) =>
      var r := ParseCents(s);
      if r.Some? then ParseShowCents(r.value); r else r
    case NoneValue => None
  }

  /**
    `int(v)`; None when Python raises: an int is kept, a float truncated
    toward zero, text read as a decimal integer, and None refused.
   */
  function AsYear(v: Raw): (r: Option<int>)
    ensures v.IntValue? ==> r == Some(v.i)
    ensures v.RealValue? ==> r.Some? && -100 < v.cents - 100 * r.value < 100
    ensures v.RealValue? && v.cents >= 0 ==> r.Some? && 0 <= v.cents - 100 * r.value
    ensures v.RealValue? && v.cents < 0 ==> r.Some? && v.cents - 100 * r.value <= 0
    ensures v.TextValue? ==> r == ParseInt(v.text)
    ensures v.NoneValue? ==> r.None?
    ensures v.TextValue? && r.Some? ==> ParseInt(ShowInt(r.value)) == r
  {
    match v
    case IntValue(i) => Some(i)
    case RealValue(c) => Some(TruncateCents(c))
    case TextValue(s) =>
      var r := ParseInt(s);
      if r.Some? then ParseShowInt(r.value); r else r
    case NoneValue => None
  }

  /** A number written as text converts exactly as the number itself does. */
  lemma TextCoercesLikeNumber(n: int, c: int)
    ensures AsCgpa(TextValue(ShowInt(n))) == AsCgpa(IntValue(n))
    ensures AsYear(TextValue(ShowInt(n))) == AsYear(IntValue(n))
    ensures AsCgpa(TextValue(ShowCents(c))) == AsCgpa(RealValue(c))
  {
    ParseCentsShowInt(n);
    ParseShowInt(n);
    ParseShowCents(c);
  }

  /**
    The row `add_student` builds: the store's own name as university, the
    CGPA and year converted, the other fields as given.  None when a
    conversion raises.
   */
  function NewRecord(university: string, studentId: string, name: string, degree: string,
                     cgpa: Raw, graduationYear: Raw, today: string): (r: Option<Student>)
    ensures r.Some? <==> AsCgpa(cgpa).Some? && AsYear(graduationYear).Some?
    ensures r.Some? ==>
      && r.value.studentId == studentId && r.value.name == name && r.value.degree == degree
      && r.value.university == university && r.value.enrollmentDate == today
      && AsCgpa(cgpa) == Some(r.value.cgpa) && AsYear(graduationYear) == Some(r.value.graduationYear)
  {
    match (AsCgpa(cgpa), AsYear(graduationYear))
    case (Some(c), Some(y)) => Some(Student(studentId, name, university, degree, c, y, today))
    case _ => None
  }

  function EntryRecord(university: string, e: BulkEntry, today: string): Option<Student> {
    NewRecord(university, e.studentId, e.name, e.degree, e.cgpa, e.graduationYear, today)
  }

  /** Converts every entry, in order, or fails as a whole. */
  function ConvertEntries(university: string, entries: seq<BulkEntry>, today: string): (r: Option<seq<Student>>)
    ensures r.Some? <==> forall i :: 0 <= i < |entries| ==> EntryRecord(university, entries[i], today).Some?
    ensures r.Some? ==> |r.value| == |entries|
    ensures r.Some? ==> forall i :: 0 <= i < |entries| ==> EntryRecord(university, entries[i], today) == Some(r.value[i])
  {
    if entries == [] then Some([])
    else
      match (EntryRecord(university, entries[0], today), ConvertEntries(university, entries[1..], today))
      case (Some(row), Some(rows)) =>
        assert forall i :: 1 <= i < |entries| ==> entries[i] == entries[1..][i - 1];
        Some([row] + rows)
      case (_, _) =>
        assert forall i :: 0 <= i < |entries[1..]| ==> entries[1..][i] == entries[i + 1];
        None
  }

  /**
    The rows `add_students_bulk` appends, or None when it fails: every
    entry must convert, and an empty list fails too (its frame has no
    'cgpa' column to convert).
   */
  function BulkRecords(university: string, entries: seq<BulkEntry>, today: string): (r: Option<seq<Student>>)
    ensures r.Some? <==> entries != [] && forall i :: 0 <= i < |entries| ==> EntryRecord(university, entries[i], today).Some?
    ensures r.Some? ==> |r.value| == |entries|
    ensures r.Some? ==> forall i :: 0 <= i < |entries| ==> EntryRecord(university, entries[i], today) == Some(r.value[i])
    ensures r.Some? ==> forall s :: s in r.value ==> s.university == university && s.enrollmentDate == today
  {
    if entries == [] then None else ConvertEntries(university, entries, today)
  }

  // ---------------------------------------------------------------------
  // Selecting rows in table order
  // ---------------------------------------------------------------------

  /** `a` is `b` with some rows left out (greedy matching decides it). */
  predicate IsSubsequence(a: seq<Student>, b: seq<Student>)
    decreases |b|
  {
    if a == [] then true
    else if b == [] then false
    else if a[0] == b[0] then IsSubsequence(a[1..], b[1..])
    else IsSubsequence(a, b[1..])
  }

  /** The rows of `t` that satisfy `p`, in table order: a boolean-mask selection. */
  function Filter(t: seq<Student>, p: Student -> bool): seq<Student> {
    if t == [] then []
    else if p(t[0]) then [t[0]] + Filter(t[1..], p)
    else Filter(t[1..], p)
  }

  /**
    `Filter` keeps exactly the rows satisfying `p`: each such row as often
    as the table has it, no other row, and in table order.
   */
  lemma {:induction false} FilterSelects(t: seq<Student>, p: Student -> bool)
    ensures IsSubsequence(Filter(t, p), t)
    ensures forall s :: multiset(Filter(t, p))[s] == if p(s) then multiset(t)[s] else 0
    ensures forall s :: s in Filter(t, p) <==> s in t && p(s)
  {
    if t != [] {
      FilterSelects(t[1..], p);
      var rest := Filter(t[1..], p);
      assert t == [t[0]] + t[1..];
      if !p(t[0]) && rest != [] {
        assert rest[0] in rest;
      }
    }
  }

  /** `Filter` keeps every row exactly when every row satisfies `p`. */
  lemma {:induction false} FilterKeepsAll(t: seq<Student>, p: Student -> bool)
    ensures |Filter(t, p)| <= |t|
    ensures |Filter(t, p)| == |t| <==> forall i :: 0 <= i < |t| ==> p(t[i])
  {
    if t != [] {
      FilterKeepsAll(t[1..], p);
      assert forall i :: 1 <= i < |t| ==> t[i] == t[1..][i - 1];
    }
  }

  /** A selection distributes over concatenation of tables. */
  lemma {:induction false} FilterAppend(a: seq<Student>, b: seq<Student>, p: Student -> bool)
    ensures Filter(a + b, p) == Filter(a, p) + Filter(b, p)
  {
    if a != [] {
      assert (a + b)[0] == a[0];
      assert (a + b)[1..] == a[1..] + b;
      FilterAppend(a[1..], b, p);
      if p(a[0]) {
        assert Filter(a + b, p) == [a[0]] + (Filter(a[1..], p) + Filter(b, p));
      }
    } else {
      assert a + b == b;
    }
  }

  /** A weaker condition selects a superset, in the same order. */
  lemma {:induction false} FilterMonotone(t: seq<Student>, p: Student -> bool, q: Student -> bool)
    requires forall s :: p(s) ==> q(s)
    ensures IsSubsequence(Filter(t, p), Filter(t, q))
  {
    if t != [] {
      FilterMonotone(t[1..], p, q);
      var fp := Filter(t[1..], p);
      if !p(t[0]) && q(t[0]) && fp != [] {
        FilterSelects(t[1..], p);
        assert fp[0] in fp && p(fp[0]);
      }
    }
  }

  /** The condition of `search_by_name`. */
  predicate NameMatches(s: Student, query: string, exactMatch: bool) {
    if exactMatch then s.name == query else ContainsIgnoringCase(s.name, query)
  }

  /** `search_by_name`: exact equality, or case-insensitive containment. */
  function SearchByName(t: seq<Student>, query: string, exactMatch: bool := false): (r: seq<Student>)
    ensures IsSubsequence(r, t)
    ensures forall s :: multiset(r)[s] == if NameMatches(s, query, exactMatch) then multiset(t)[s] else 0
    ensures forall s :: s in r <==> s in t && NameMatches(s, query, exactMatch)
  {
    FilterSelects(t, (s: Student) => NameMatches(s, query, exactMatch));
    Filter(t, (s: Student) => NameMatches(s, query, exactMatch))
  }

  /** Every exact match is a partial match, and the two keep the same order. */
  lemma ExactSearchWithinPartial(t: seq<Student>, query: string)
    ensures IsSubsequence(SearchByName(t, query, true), SearchByName(t, query, false))
  {
    forall s | NameMatches(s, query, true)
      ensures NameMatches(s, query, false)
    {
      ContainsItself(query);
    }
    FilterMonotone(t, (s: Student) => NameMatches(s, query, true), (s: Student) => NameMatches(s, query, false));
  }

  /** `search_by_degree`: case-insensitive containment in the degree. */
  function SearchByDegree(t: seq<Student>, query: string): (r: seq<Student>)
    ensures IsSubsequence(r, t)
    ensures forall s :: multiset(r)[s] == if ContainsIgnoringCase(s.degree, query) then multiset(t)[s] else 0
    ensures forall s :: s in r <==> s in t && ContainsIgnoringCase(s.degree, query)
  {
    FilterSelects(t, (s: Student) => ContainsIgnoringCase(s.degree, query));
    Filter(t, (s: Student) => ContainsIgnoringCase(s.degree, query))
  }

  /** `get_students_by_cgpa_range`: both bounds inclusive. */
  function StudentsByCgpaRange(t: seq<Student>, minCgpa: int, maxCgpa: int): (r: seq<Student>)
    ensures IsSubsequence(r, t)
    ensures forall s :: multiset(r)[s] == if minCgpa <= s.cgpa <= maxCgpa then multiset(t)[s] else 0
    ensures forall s :: s in r <==> s in t && minCgpa <= s.cgpa <= maxCgpa
  {
    FilterSelects(t, (s: Student) => minCgpa <= s.cgpa <= maxCgpa);
    Filter(t, (s: Student) => minCgpa <= s.cgpa <= maxCgpa)
  }

  /** Default year of `get_recent_graduates`, and the threshold of `get_statistics`. */
  const RecentYear := 2024

  /** `get_recent_graduates`: graduated in or after `year`. */
  function RecentGraduates(t: seq<Student>, year: int): (r: seq<Student>)
    ensures IsSubsequence(r, t)
    ensures forall s :: multiset(r)[s] == if s.graduationYear >= year then multiset(t)[s] else 0
    ensures forall s :: s in r <==> s in t && s.graduationYear >= year
    ensures |r| <= |t|
    ensures |r| == |t| <==> forall i :: 0 <= i < |t| ==> t[i].graduationYear >= year
  {
    FilterSelects(t, (s: Student) => s.graduationYear >= year);
    FilterKeepsAll(t, (s: Student) => s.graduationYear >= year);
    Filter(t, (s: Student) => s.graduationYear >= year)
  }

  // ---------------------------------------------------------------------
  // Point lookup
  // ---------------------------------------------------------------------

  /** Row `i` is the only row of `t` whose id is `id`. */
  predicate OnlyRowWithId(t: seq<Student>, id: string, i: int) {
    0 <= i < |t| && t[i].studentId == id && forall j :: 0 <= j < |t| && j != i ==> t[j].studentId != id
  }

  /**
    `verify_student`: the row when exactly one row carries the id, None
    otherwise.  An absent id gives None; so does a duplicated one, because
    the lookup then yields several rows and the conversion of the year to
    int raises inside the catch-all.
   */
  function VerifyStudent(t: seq<Student>, id: string): (r: Option<Student>)
    ensures r.Some? <==> exists i :: OnlyRowWithId(t, id, i)
    ensures forall i :: OnlyRowWithId(t, id, i) ==> r == Some(t[i])
  {
    if t == [] then None
    else
      var tail := t[1..];
      assert forall j :: 1 <= j < |t| ==> t[j] == tail[j - 1];
      if t[0].studentId == id then
        if forall s :: s in tail ==> s.studentId != id then
          assert OnlyRowWithId(t, id, 0);
          Some(t[0])
        else
          assert forall i :: !OnlyRowWithId(t, id, i) by {
            var s :| s in tail && s.studentId == id;
            var k :| 0 <= k < |tail| && tail[k] == s;
            assert t[k + 1].studentId == id;
          }
          None
      else
        assert forall i :: OnlyRowWithId(t, id, i) ==> i >= 1 && OnlyRowWithId(tail, id, i - 1);
        assert forall i :: OnlyRowWithId(tail, id, i) ==> OnlyRowWithId(t, id, i + 1);
        VerifyStudent(tail, id)
  }

  /** An id no row carries is not found. */
  lemma VerifyAbsent(t: seq<Student>, id: string)
    requires forall s :: s in t ==> s.studentId != id
    ensures VerifyStudent(t, id) == None
  {
    forall i | 0 <= i < |t| ensures !OnlyRowWithId(t, id, i) {
      assert t[i] in t;
    }
  }

  /** After adding a row with a new id, the lookup returns that row. */
  lemma VerifyAfterAdd(t: seq<Student>, row: Student)
    requires forall s :: s in t ==> s.studentId != row.studentId
    ensures VerifyStudent(t + [row], row.studentId) == Some(row)
  {
    var u := t + [row];
    assert OnlyRowWithId(u, row.studentId, |t|) by {
      forall j | 0 <= j < |u| && j != |t| ensures u[j].studentId != row.studentId {
        assert u[j] == t[j];
      }
    }
  }

  /** Adding a second row with an id already present hides the student from the lookup. */
  lemma VerifyAfterDuplicateAdd(t: seq<Student>, row: Student)
    requires exists s :: s in t && s.studentId == row.studentId
    ensures VerifyStudent(t + [row], row.studentId) == None
  {
    var u := t + [row];
    var s :| s in t && s.studentId == row.studentId;
    var k :| 0 <= k < |t| && t[k] == s;
    assert u[k] == s && u[|t|] == row;
    assert forall i :: !OnlyRowWithId(u, row.studentId, i);
  }

  // ---------------------------------------------------------------------
  // Top students by CGPA
  // ---------------------------------------------------------------------

  predicate NonIncreasing(r: seq<Student>) {
    forall i, j :: 0 <= i < j < |r| ==> r[i].cgpa >= r[j].cgpa
  }

  /** The rows with CGPA exactly `v`, in order. */
  function WithCgpa(t: seq<Student>, v: int): seq<Student> {
    Filter(t, CgpaIs(v))
  }

  function CgpaIs(v: int): Student -> bool {
    (s: Student) => s.cgpa == v
  }

  /** Places `x` before the first row whose CGPA is not above its own. */
  function InsertByCgpa(x: Student, r: seq<Student>): seq<Student> {
    if r == [] || r[0].cgpa <= x.cgpa then [x] + r else [r[0]] + InsertByCgpa(x, r[1..])
  }

  /** Stable sort by CGPA, highest first. */
  function SortByCgpa(t: seq<Student>): seq<Student> {
    if t == [] then [] else InsertByCgpa(t[0], SortByCgpa(t[1..]))
  }

  lemma {:induction false} InsertByCgpaPermutes(x: Student, r: seq<Student>)
    ensures multiset(InsertByCgpa(x, r)) == multiset(r) + multiset{x}
  {
    if r != [] && r[0].cgpa > x.cgpa {
      InsertByCgpaPermutes(x, r[1..]);
      assert r == [r[0]] + r[1..];
    }
  }

  /** Every row of the insertion is bounded by a bound on `x` and on `r`. */
  lemma InsertByCgpaBelow(x: Student, r: seq<Student>, b: int)
    requires x.cgpa <= b && forall s :: s in r ==> s.cgpa <= b
    ensures forall s :: s in InsertByCgpa(x, r) ==> s.cgpa <= b
  {
    InsertByCgpaPermutes(x, r);
    forall s | s in InsertByCgpa(x, r) ensures s.cgpa <= b {
      assert s in multiset(InsertByCgpa(x, r));
    }
  }

  /** A row at the front of a sorted sequence whose rows it bounds keeps it sorted. */
  lemma ConsNonIncreasing(h: Student, rest: seq<Student>)
    requires NonIncreasing(rest)
    requires forall s :: s in rest ==> s.cgpa <= h.cgpa
    ensures NonIncreasing([h] + rest)
  {
    var u := [h] + rest;
    forall i, j | 0 <= i < j < |u| ensures u[i].cgpa >= u[j].cgpa {
      assert u[j] == rest[j - 1] && rest[j - 1] in rest;
      if i > 0 {
        assert u[i] == rest[i - 1];
      }
    }
  }

  lemma {:induction false} InsertByCgpaSorted(x: Student, r: seq<Student>)
    requires NonIncreasing(r)
    ensures NonIncreasing(InsertByCgpa(x, r))
  {
    if r == [] || r[0].cgpa <= x.cgpa {
      forall s | s in r ensures s.cgpa <= x.cgpa {
        var k :| 0 <= k < |r| && r[k] == s;
        assert r[0].cgpa >= r[k].cgpa;
      }
      ConsNonIncreasing(x, r);
    } else {
      var tail := r[1..];
      assert NonIncreasing(tail) by {
        forall i, j | 0 <= i < j < |tail| ensures tail[i].cgpa >= tail[j].cgpa {
          assert tail[i] == r[i + 1] && tail[j] == r[j + 1];
        }
      }
      InsertByCgpaSorted(x, tail);
      forall s | s in tail ensures s.cgpa <= r[0].cgpa {
        var k :| 0 <= k < |tail| && tail[k] == s;
        assert r[k + 1] == s;
      }
      InsertByCgpaBelow(x, tail, r[0].cgpa);
      ConsNonIncreasing(r[0], InsertByCgpa(x, tail));
    }
  }

  /** Inserting `x` puts it first among the rows of equal CGPA. */
  lemma {:induction false} InsertByCgpaStable(x: Student, r: seq<Student>, v: int)
    ensures WithCgpa(InsertByCgpa(x, r), v) == (if x.cgpa == v then [x] else []) + WithCgpa(r, v)
  {
    if r == [] || r[0].cgpa <= x.cgpa {
      FilterAppend([x], r, CgpaIs(v));
    } else {
      InsertByCgpaStable(x, r[1..], v);
      FilterAppend([r[0]], InsertByCgpa(x, r[1..]), CgpaIs(v));
      FilterAppend([r[0]], r[1..], CgpaIs(v));
      assert r == [r[0]] + r[1..];
    }
  }

  lemma {:induction false} SortByCgpaProperties(t: seq<Student>)
    ensures NonIncreasing(SortByCgpa(t))
    ensures multiset(SortByCgpa(t)) == multiset(t)
    ensures forall v :: WithCgpa(SortByCgpa(t), v) == WithCgpa(t, v)
  {
    if t != [] {
      SortByCgpaProperties(t[1..]);
      InsertByCgpaSorted(t[0], SortByCgpa(t[1..]));
      InsertByCgpaPermutes(t[0], SortByCgpa(t[1..]));
      assert t == [t[0]] + t[1..];
      forall v ensures WithCgpa(SortByCgpa(t), v) == WithCgpa(t, v) {
        InsertByCgpaStable(t[0], SortByCgpa(t[1..]), v);
        FilterAppend([t[0]], t[1..], CgpaIs(v));
      }
    }
  }

  /** The default `n` of `get_top_students`. */
  const DefaultTopCount := 5

  /**
    `get_top_students(n)`, which is `nlargest(n, 'cgpa')`.  On an empty
    table it raises: a store created empty has an object-typed `cgpa`
    column, which `nlargest` refuses whatever `n` is.  Otherwise min(n,
    size) rows (none when n <= 0), highest CGPA first; no row left out has
    a higher CGPA than a row returned; among equal CGPAs the rows returned
    are the first ones in table order, in that order (`keep='first'`).
   */
  function TopStudents(t: seq<Student>, n: int := DefaultTopCount): (r: Option<seq<Student>>)
    ensures r.None? <==> t == []
    ensures r.Some? ==> |r.value| == if n <= 0 then 0 else if n < |t| then n else |t|
    ensures r.Some? ==> NonIncreasing(r.value)
    ensures r.Some? ==> multiset(r.value) <= multiset(t)
    ensures r.Some? ==> forall s, x :: s in multiset(t) - multiset(r.value) && x in r.value ==> s.cgpa <= x.cgpa
    ensures r.Some? ==> forall v :: WithCgpa(r.value, v) <= WithCgpa(t, v)
  {
    if t == [] then None
    else
      var k := if n <= 0 then 0 else if n < |t| then n else |t|;
      TopOfSorted(t, k);
      Some(SortByCgpa(t)[..k])
  }

  /** The first `k` rows of the stable sort, for any `k` up to the table's size. */
  lemma TopOfSorted(t: seq<Student>, k: nat)
    requires k <= |t|
    ensures |SortByCgpa(t)| == |t|
    ensures var r := SortByCgpa(t)[..k];
      && NonIncreasing(r)
      && multiset(r) <= multiset(t)
      && (forall s, x :: s in multiset(t) - multiset(r) && x in r ==> s.cgpa <= x.cgpa)
      && (forall v :: WithCgpa(r, v) <= WithCgpa(t, v))
  {
    var sorted := SortByCgpa(t);
    SortByCgpaProperties(t);
    assert |sorted| == |t| by {
      assert |multiset(sorted)| == |multiset(t)|;
    }
    TopPrefix(sorted, k);
    assert multiset(t) - multiset(sorted[..k]) == multiset(sorted[k..]);
  }

  /** What taking the first `k` rows of a sorted table keeps and leaves. */
  lemma TopPrefix(sorted: seq<Student>, k: nat)
    requires NonIncreasing(sorted) && k <= |sorted|
    ensures multiset(sorted) == multiset(sorted[..k]) + multiset(sorted[k..])
    ensures forall s, x :: s in sorted[k..] && x in sorted[..k] ==> s.cgpa <= x.cgpa
    ensures forall v :: WithCgpa(sorted[..k], v) <= WithCgpa(sorted, v)
  {
    assert sorted == sorted[..k] + sorted[k..];
    forall v ensures WithCgpa(sorted[..k], v) <= WithCgpa(sorted, v) {
      FilterAppend(sorted[..k], sorted[k..], CgpaIs(v));
    }
  }

  // ---------------------------------------------------------------------
  // Statistics
  // ---------------------------------------------------------------------

  /**
    The integer part of `get_statistics`: row count, highest and lowest
    CGPA (exact in hundredths), number of distinct degrees and number of
    rows graduating in or after 2024.
   */
  datatype Statistics = Statistics(
    totalStudents: nat,
    highestCgpa: int,
    lowestCgpa: int,
    degreesOffered: nat,
    recentGraduates: nat)

  function MaxCgpa(t: seq<Student>): (m: int)
    requires t != []
    ensures forall s :: s in t ==> s.cgpa <= m
    ensures exists s :: s in t && s.cgpa == m
  {
    if |t| == 1 then t[0].cgpa
    else
      var rest := MaxCgpa(t[1..]);
      assert forall s :: s in t[1..] ==> s in t;
      if t[0].cgpa >= rest then t[0].cgpa else rest
  }

  function MinCgpa(t: seq<Student>): (m: int)
    requires t != []
    ensures forall s :: s in t ==> m <= s.cgpa
    ensures exists s :: s in t && s.cgpa == m
  {
    if |t| == 1 then t[0].cgpa
    else
      var rest := MinCgpa(t[1..]);
      assert forall s :: s in t[1..] ==> s in t;
      if t[0].cgpa <= rest then t[0].cgpa else rest
  }

  /** Number of distinct values in `ds`, counting each at its first occurrence. */
  function DistinctCount(ds: seq<string>): (n: nat)
    ensures n <= |ds|
    ensures ds != [] ==> n >= 1
  {
    if ds == [] then 0
    else DistinctCount(ds[..|ds| - 1]) + (if ds[|ds| - 1] in ds[..|ds| - 1] then 0 else 1)
  }

  lemma {:induction false} DistinctCountIsSetSize(ds: seq<string>)
    ensures DistinctCount(ds) == |set d | d in ds|
  {
    if ds != [] {
      var init := ds[..|ds| - 1];
      var last := ds[|ds| - 1];
      DistinctCountIsSetSize(init);
      var before := set d | d in init;
      var after := set d | d in ds;
      assert after == before + {last} by {
        assert ds == init + [last];
        forall d | d in after ensures d in before || d == last {
          var i :| 0 <= i < |ds| && ds[i] == d;
          if i < |init| {
            assert init[i] == d;
          }
        }
      }
      if last in init {
        assert after == before;
      } else {
        assert last !in before;
        assert |after| == |before| + 1;
      }
    }
  }

  function Degrees(t: seq<Student>): (ds: seq<string>)
    ensures |ds| == |t| && forall i :: 0 <= i < |t| ==> ds[i] == t[i].degree
  {
    if t == [] then [] else [t[0].degree] + Degrees(t[1..])
  }

  /** `nunique()` of the degree column. */
  function DegreesOffered(t: seq<Student>): (n: nat)
    ensures n == |set s | s in t :: s.degree|
    ensures n <= |t| && (t != [] ==> n >= 1)
  {
    var ds := Degrees(t);
    DistinctCountIsSetSize(ds);
    assert (set d | d in ds) == (set s | s in t :: s.degree) by {
      forall d | d in ds ensures d in (set s | s in t :: s.degree) {
        var i :| 0 <= i < |ds| && ds[i] == d;
        assert t[i] in t;
      }
      forall s | s in t ensures s.degree in ds {
        var i :| 0 <= i < |t| && t[i] == s;
        assert ds[i] == s.degree;
      }
    }
    DistinctCount(ds)
  }

  /** `get_statistics`: every count zero on an empty table. */
  function GetStatistics(t: seq<Student>): (r: Statistics)
    ensures t == [] ==> r == Statistics(0, 0, 0, 0, 0)
    ensures t != [] ==> r.totalStudents == |t|
    ensures t != [] ==> r.degreesOffered == |set s | s in t :: s.degree| && 1 <= r.degreesOffered <= |t|
    ensures t != [] ==> forall s :: s in t ==> r.lowestCgpa <= s.cgpa <= r.highestCgpa
    ensures t != [] ==> (exists s :: s in t && s.cgpa == r.highestCgpa) && (exists s :: s in t && s.cgpa == r.lowestCgpa)
    ensures r.recentGraduates == |RecentGraduates(t, RecentYear)| <= |t|
    ensures r.recentGraduates == |t| <==> forall s :: s in t ==> s.graduationYear >= RecentYear
  {
    if t == [] then Statistics(0, 0, 0, 0, 0)
    else
      var recent := RecentGraduates(t, RecentYear);
      Statistics(|t|, MaxCgpa(t), MinCgpa(t), DegreesOffered(t), |recent|)
  }
}
