# University credential validation, modelled in Dafny

This project models the core of `Credential_System.py`. That file describes a network of universities, each holding a student table. A central validation system checks student ids against them.

**`University`** holds the table `students_df` and supports these operations:

- add one student (`add_student`);
- add a batch of students, all or none (`add_students_bulk`);
- look a student up by id (`verify_student`);
- filter by name, degree, CGPA range and graduation year;
- take the top-N students by CGPA;
- compute the integer statistics.

**`ValidationSystem`** holds the registered universities (their order is the search order), a FIFO queue of `(student_id, requester)` requests, the counters `total_requests` and `successful_validations`, and an append-only validation history. `process_validations` drains the queue. For each request it asks the universities in registration order, stops at the first one that finds the student, and logs one history row.

The project has five modules:

| module | file | contents |
|---|---|---|
| `Wrappers` | `wrappers.dfy` | `Option` |
| `Text` | `text.dfy` | ASCII case folding and substring search (`str.contains(case=False)` read literally); `int(text)` and `float(text)` for plain decimal text, with round-trip lemmas against the decimal renderings |
| `Records` | `records.dfy` | the student row and the raw values handed to the add operations; the pure queries over the table as functions of a `seq<Student>` |
| `Universities` | `universities.dfy` | `class University`; the two add methods replace its `students` sequence |
| `Validation` | `validation.dfy` | `class ValidationSystem` with the invariant `Valid()`; the specification functions `FirstHolder`, `Resolve` and `Outcomes` that its methods are proved against |

CGPA is held as an integer number of hundredths (3.85 is 385). Comparisons, sorting and the highest/lowest statistics are therefore exact.

The clock is a parameter `clock: int -> Stamp`, indexed by request id. It gives each request's history timestamp and processing time. The enrolment date is a parameter `today`. Loading the table from CSV is replaced by the `University` constructor's `initial` argument.

Three behaviours of the code are easy to misread. The model follows the code in each:

- **Duplicate id in `verify_student`.** One might expect a lookup of a duplicated id to return one of the matching records. The code returns `None`: `.loc` yields several rows, and `int(...)` of the year column (line 126) raises inside the catch-all. `Records.VerifyStudent` returns a row only when exactly one row carries the id, and `Records.VerifyAfterDuplicateAdd` proves that adding a duplicate hides the student.
- **Empty list in `add_students_bulk`.** An empty list fails, because the empty frame has no `cgpa` column.
- **Search loop and counter.** The university search of `process_validations` (lines 303-310) is modelled as its own method, `SearchUniversities`. The success counter is raised after the search, when the logged row is a 'Success', which happens exactly when the search found a university. The source raises it inside the loop just before its `break`; the observable effect is the same.

## Model

| member | source | states |
|---|---|---|
| `Text.Contains` | Credential_System.py:141-145 | substring test: true exactly when the query occurs at some position of the value |
| `Text.ParseShowInt` | Credential_System.py:80 | `int()` reads back the decimal rendering of every integer, negative ones included |
| `Text.ParseCentsShowInt` | Credential_System.py:79 | `float()` of an integer's text is that integer, in hundredths |
| `Text.ParseShowCents` | Credential_System.py:79 | `float()` reads back the two-decimal rendering of every hundredths value |
| `Records.AsCgpa` | Credential_System.py:79 | `float()`: an int gives itself in hundredths, a float its own value, text its decimal reading (and a value read from text is read back from its two-decimal rendering); `None` or a missing value fails |
| `Records.AsYear` | Credential_System.py:80 | `int()`: an int gives itself, a float is truncated toward zero (less than one away, never beyond the value), text its integer reading (read back from its rendering); `None` or a missing value fails |
| `Records.TruncateCents` | Credential_System.py:80 | `int()` of a float truncates toward zero: the bounds on either sign |
| `Records.TextCoercesLikeNumber` | Credential_System.py:79-80 | a number given as text converts to the same CGPA and year as the number itself |
| `Records.NewRecord` | Credential_System.py:74-83 | a row exists exactly when both conversions succeed; it carries the store's name, today's date, the given id/name/degree and the converted CGPA and year |
| `Records.BulkRecords` | Credential_System.py:92-105 | rows exist exactly when the list is non-empty and every entry converts; one row per entry, in list order, each with the store's name and today's date |
| `Records.FilterSelects` | Credential_System.py:134-168 | a boolean-mask selection is a subsequence of the table, keeps each satisfying row as often as the table has it, and keeps no other row |
| `Records.SearchByName` | Credential_System.py:134-145 | rows whose name equals the query (exact) or contains it ignoring case (partial), in table order, with multiplicities |
| `Records.ExactSearchWithinPartial` | Credential_System.py:134-145 | the exact-match result is a subsequence of the partial-match result |
| `Records.SearchByDegree` | Credential_System.py:147-152 | rows whose degree contains the query ignoring case, in table order, with multiplicities |
| `Records.StudentsByCgpaRange` | Credential_System.py:154-160 | rows with min ≤ CGPA ≤ max, both ends inclusive, in table order, with multiplicities |
| `Records.RecentGraduates` | Credential_System.py:166-168 | rows graduating in or after the year, in table order; all rows exactly when every row qualifies |
| `Records.VerifyStudent` | Credential_System.py:112-132 | a row is returned exactly when one row alone carries the id, and it is that row; otherwise `None` |
| `Records.VerifyAbsent` | Credential_System.py:117-129 | an id no row carries gives `None` |
| `Records.VerifyAfterAdd` | Credential_System.py:71-132 | after appending a row with a new id, looking that id up returns the row |
| `Records.VerifyAfterDuplicateAdd` | Credential_System.py:117-132 | after appending a row whose id is already present, looking that id up gives `None` |
| `Records.SortByCgpaProperties` | Credential_System.py:162-164 | the sort is non-increasing in CGPA, a permutation, and keeps the table order among equal CGPAs |
| `Records.TopStudents` | Credential_System.py:162-164 | no result (the error) exactly on an empty table, whose `cgpa` column is object-typed as created at lines 61-64; otherwise `min(n, size)` rows, 5 by default (none for n ≤ 0); non-increasing CGPA; drawn from the table; no row left out beats a returned one; among equal CGPAs the returned rows are the first ones, in table order |
| `Records.DegreesOffered` | Credential_System.py:193 | the number of distinct degrees in the table |
| `Records.GetStatistics` | Credential_System.py:170-198 | all zeros on an empty table; otherwise row count, exact highest and lowest CGPA (attained and bounding), distinct degrees, and rows graduating in or after 2024 |
| `Universities.University.constructor` | Credential_System.py:49-69 | the store has the given name and initial table |
| `Universities.University.AddStudent` | Credential_System.py:71-90 | True and exactly one row appended, or False and the table unchanged; every row still names this university |
| `Universities.University.AddStudentsBulk` | Credential_System.py:92-110 | True and all converted rows appended in list order, or False and the table unchanged |
| `Validation.FirstHolderMeaning` | Credential_System.py:303-310 | the first university, in registration order, whose lookup finds the id; the ones before it do not find it; `None` when none does |
| `Validation.FirstHolderAt` | Credential_System.py:303-310 | the first university that finds the id is the one the search stops at |
| `Validation.FirstHolderAfterRegister` | Credential_System.py:257-260 | registering another university changes no earlier resolution; the newcomer answers only ids no earlier university finds |
| `Validation.ResolveMeaning` | Credential_System.py:320-331 | a history row carries the request's id, student and requester and the clock's reading; 'Success' naming the first finder exactly when some university finds the id, else 'Not Found' with 'N/A' |
| `Validation.OutcomesAt` | Credential_System.py:295-336 | the k-th row of a batch is the row of the k-th dequeued request, with id `first + k` |
| `Validation.SuccessCountOfOutcomes` | Credential_System.py:304-310 | a batch logs as many 'Success' rows as it has requests that some university resolves |
| `Validation.LogRow` | Credential_System.py:296-336 | dequeuing one request and logging its row keeps the counters, queue and history consistent |
| `Validation.CountersBound` | Credential_System.py:340-347 | successes ≤ history length ≤ total requests; anything queued or logged means total ≥ 1; the last row's id is the history length |
| `Validation.SuccessRate` | Credential_System.py:514-515 | the rate is successful/total × 100 when total > 0 (the guard shared with the printed summary at lines 401-403), and 0 otherwise, as the exported summary records it; at most 100 when successes ≤ total |
| `Validation.ValidationSystem.constructor` | Credential_System.py:241-255 | no universities, empty queue and history, both counters 0 |
| `Validation.ValidationSystem.RegisterUniversity` | Credential_System.py:257-260 | the university goes to the end of the search order; nothing else changes |
| `Validation.ValidationSystem.RequestValidation` | Credential_System.py:262-270 | one request at the back of the queue, with `System` as the default requester; total requests + 1 |
| `Validation.ValidationSystem.RequestValidationsBulk` | Credential_System.py:272-277 | one request per id, in list order, behind the old queue; total requests + the number of ids |
| `Validation.ValidationSystem.SearchUniversities` | Credential_System.py:303-310 | the search returns the first university that finds the id, or `None` |
| `Validation.ValidationSystem.ResolveRequest` | Credential_System.py:303-331 | the row built for one request is the one `Resolve` specifies over the registered universities' current tables |
| `Validation.ValidationSystem.ProcessNext` | Credential_System.py:295-336 | the front request leaves the queue, and its row, with id `total_requests - len(queue)`, is appended |
| `Validation.ValidationSystem.ProcessValidations` | Credential_System.py:279-336 | queue drained FIFO; history extended by one resolved row per request, ids continuing from the history; successes raised by the requests resolved; an empty queue changes nothing; the last id equals total requests |
| `Validation.SingleStudentScenario` | Credential_System.py:241-336 | one student at "X" and one request from "Acme" give one 'Success' row naming "X", both counters 1, and a 100% rate |

## Left out

- CSV loading and saving, the Excel exports, `os.makedirs` and file-path derivation: file I/O. The constructor takes the initial table instead.
- `time.time()` and `datetime.now()`: clocks. The processing time, the history timestamp and the enrolment date are parameters. The batch summary's elapsed time, average time and throughput are left out with them.
- The floating-point statistics: mean, median and standard deviation of CGPA, the percentage formatting and the rounding of the exported rate to two decimals, and the processing-time analysis of `get_analytics`. `Validation.SuccessRate` keeps the rate as an exact fraction.
- All printing: `_display_credential`, the console parts of `process_validations` and `get_analytics`, `search_student_by_name`, `export_comprehensive_report` and `main()`. These are console output and reports only.
- `get_degree_distribution` and `get_graduation_year_distribution`: thin counting wrappers over pandas.
- The unused `Credential` class and its `verified` flag.
- The total-students sum of `get_analytics`: it is part of the printed report only.
- Records.SearchByName and Records.SearchByDegree: the query is read literally, not as a regular expression. Case folding covers the ASCII letters only.
- Records.AsCgpa and Records.AsYear: only plain decimal text is parsed: an optional sign, digits and, for `float`, a point with at most two digits. Whitespace, exponents, underscores, `inf`/`nan`, a leading point and a longer fraction are read as failures. A float value is given in hundredths.
- Records.BulkRecords: an entry whose CGPA is `None`, or lacks the `cgpa` key while at least one other entry has it, rejects the batch here. Pandas instead stores NaN for it and succeeds. When no entry has the key, line 101 raises `KeyError` and the call returns False, as in the model. Entries missing the id, name or degree key are not modelled; each entry carries all three.
- Records.TopStudents: rows with a NaN CGPA cannot arise in this model. `nlargest` does not drop them: it places them last and returns them when n exceeds the number of other rows.
- Records.TopStudents: the order among equal CGPAs is stated as `keep='first'` intends: table order. For n at least the table size, pandas instead sorts with `sort_values` and an unstable quicksort, then takes the head. On tables of more than 16 rows, equal CGPAs may then come out in another order.
- Records.TopStudents: only the empty table is an error. A table grown from an empty store may keep an object-typed `cgpa` column, depending on the pandas version; that case is not modelled.
- Validation.ValidationSystem.ProcessValidations: the early return on an empty queue is the loop running zero times. The model states the same outcome: nothing changes.
