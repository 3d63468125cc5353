/**
  The validation pipeline: registered universities searched in
  registration order, a FIFO queue of (student id, requester) requests,
  the counters `total_requests` and `successful_validations`, and the
  append-only history of outcomes.

  Wall-clock readings (the per-request processing time and the history
  timestamp) come from a `clock` parameter indexed by request id.
 */
module Validation {
  import opened Wrappers
  import opened Records
  import opened Universities

  datatype Request = Request(studentId: string, requester: string)

  /** 'Success' or 'Not Found'. */
  datatype Status = Success | NotFound

  /** What the clock says about one request. */
  datatype Stamp = Stamp(timestamp: string, processingTime: nat)

  /** One row of the validation history. */
  datatype Outcome = Outcome(
    requestId: int,
    timestamp: string,
    studentId: string,
    status: Status,
    university: string,
    processingTime: nat,
    requester: string)

  /** A university as the search sees it: its name and its current table. */
  datatype Listing = Listing(name: string, students: seq<Student>)

  /** The university recorded for a request that no university resolves. */
  const NoUniversity := "N/A"

  /** The default requester of a validation request. */
  const DefaultRequester := "System"

  function Snapshot(us: seq<University>): (d: seq<Listing>)
    reads us
    ensures |d| == |us|
  {
    if us == [] then [] else [Listing(us[0].name, us[0].students)] + Snapshot(us[1..])
  }

  /** The j-th listing of a snapshot is the j-th university's name and table. */
  lemma {:induction false} SnapshotAt(us: seq<University>, j: int)
    requires 0 <= j < |us|
    ensures Snapshot(us)[j] == Listing(us[j].name, us[j].students)
  {
    if j > 0 {
      SnapshotAt(us[1..], j - 1);
    }
  }

  /**
    The first university, in registration order, whose lookup finds the
    student; the ones after it are never asked.
   */
  function FirstHolder(dir: seq<Listing>, id: string): (r: Option<nat>)
    ensures r.Some? ==> r.value < |dir|
  {
    if dir == [] then None
    else if VerifyStudent(dir[0].students, id).Some? then Some(0)
    else
      match FirstHolder(dir[1..], id)
      case Some(k) => Some(k + 1)
      case None => None
  }

  /**
    `FirstHolder` names a university that finds the student, and none
    before it does; it gives None only when no university finds it.
   */
  lemma {:induction false} FirstHolderMeaning(dir: seq<Listing>, id: string)
    ensures var r := FirstHolder(dir, id);
      && (r.Some? ==> r.value < |dir| && VerifyStudent(dir[r.value].students, id).Some?)
      && (r.Some? ==> forall j :: 0 <= j < r.value ==> VerifyStudent(dir[j].students, id).None?)
      && (r.None? ==> forall j :: 0 <= j < |dir| ==> VerifyStudent(dir[j].students, id).None?)
  {
    if dir != [] && VerifyStudent(dir[0].students, id).None? {
      var tail := dir[1..];
      FirstHolderMeaning(tail, id);
      assert forall j :: 0 < j < |dir| ==> dir[j] == tail[j - 1];
    }
  }

  /** The first university that finds the student is the one `FirstHolder` names. */
  lemma {:induction false} FirstHolderAt(dir: seq<Listing>, id: string, j: nat)
    requires j < |dir| && VerifyStudent(dir[j].students, id).Some?
    requires forall i :: 0 <= i < j ==> VerifyStudent(dir[i].students, id).None?
    ensures FirstHolder(dir, id) == Some(j)
  {
    if j > 0 {
      assert VerifyStudent(dir[0].students, id).None?;
      var tail := dir[1..];
      assert tail[j - 1] == dir[j];
      assert forall i :: 0 <= i < j - 1 ==> tail[i] == dir[i + 1];
      FirstHolderAt(tail, id, j - 1);
    }
  }

  /**
    Registering one more university never changes who resolves an id some
    earlier university already finds; the newcomer is asked only when no
    earlier one finds it.
   */
  lemma {:induction false} FirstHolderAfterRegister(dir: seq<Listing>, l: Listing, id: string)
    ensures FirstHolder(dir + [l], id)
         == if FirstHolder(dir, id).Some? then FirstHolder(dir, id)
            else if VerifyStudent(l.students, id).Some? then Some(|dir|)
            else None
  {
    if dir == [] {
      assert [] + [l] == [l];
      assert [l][1..] == [];
    } else {
      assert (dir + [l])[0] == dir[0];
      assert (dir + [l])[1..] == dir[1..] + [l];
      FirstHolderAfterRegister(dir[1..], l, id);
    }
  }

  /** The history row for one request. */
  function Resolve(dir: seq<Listing>, req: Request, requestId: int, stamp: Stamp): Outcome {
    match FirstHolder(dir, req.studentId)
    case Some(k) =>
      Outcome(requestId, stamp.timestamp, req.studentId, Success, dir[k].name, stamp.processingTime, req.requester)
    case None =>
      Outcome(requestId, stamp.timestamp, req.studentId, NotFound, NoUniversity, stamp.processingTime, req.requester)
  }

  /**
    A request's row carries its id, student, requester and clock reading;
    it is a 'Success' naming the first university that finds the student
    when there is one, and 'Not Found' with university 'N/A' otherwise.
   */
  lemma ResolveMeaning(dir: seq<Listing>, req: Request, requestId: int, stamp: Stamp)
    ensures var o := Resolve(dir, req, requestId, stamp);
      && o.requestId == requestId && o.studentId == req.studentId && o.requester == req.requester
      && o.timestamp == stamp.timestamp && o.processingTime == stamp.processingTime
      && (o.status == Success <==> exists k :: 0 <= k < |dir| && VerifyStudent(dir[k].students, req.studentId).Some?)
      && (o.status == NotFound ==> o.university == NoUniversity)
    ensures var o := Resolve(dir, req, requestId, stamp);
      o.status == Success ==>
        exists k ::
          && 0 <= k < |dir| && o.university == dir[k].name
          && VerifyStudent(dir[k].students, req.studentId).Some?
          && (forall j :: 0 <= j < k ==> VerifyStudent(dir[j].students, req.studentId).None?)
  {
    var h := FirstHolder(dir, req.studentId);
    FirstHolderMeaning(dir, req.studentId);
    if h.Some? {
      assert 0 <= h.value < |dir|;
    }
  }

  /** The history rows for a batch of requests, ids counting up from `firstId`. */
  function Outcomes(dir: seq<Listing>, reqs: seq<Request>, firstId: int, clock: int -> Stamp): (r: seq<Outcome>)
    ensures |r| == |reqs|
  {
    if reqs == [] then []
    else
      var n := |reqs| - 1;
      Outcomes(dir, reqs[..n], firstId, clock) + [Resolve(dir, reqs[n], firstId + n, clock(firstId + n))]
  }

  /** The k-th row of a batch is the row of its k-th request, with id `firstId + k`. */
  lemma {:induction false} OutcomesAt(dir: seq<Listing>, reqs: seq<Request>, firstId: int, clock: int -> Stamp, k: nat)
    requires k < |reqs|
    ensures Outcomes(dir, reqs, firstId, clock)[k] == Resolve(dir, reqs[k], firstId + k, clock(firstId + k))
  {
    var n := |reqs| - 1;
    if k < n {
      OutcomesAt(dir, reqs[..n], firstId, clock, k);
    }
  }

  /** Processing one more request of a batch appends its row. */
  lemma OutcomesStep(dir: seq<Listing>, reqs: seq<Request>, done: nat, firstId: int, clock: int -> Stamp)
    requires done < |reqs|
    ensures Outcomes(dir, reqs[..done + 1], firstId, clock)
         == Outcomes(dir, reqs[..done], firstId, clock) + [Resolve(dir, reqs[done], firstId + done, clock(firstId + done))]
  {
    assert reqs[..done + 1][..done] == reqs[..done];
  }

  /** The row `Resolve` builds once the search result is known. */
  lemma ResolveWith(dir: seq<Listing>, req: Request, requestId: int, stamp: Stamp, holder: Option<nat>, university: string)
    requires holder == FirstHolder(dir, req.studentId)
    requires holder.Some? ==> university == dir[holder.value].name
    ensures Resolve(dir, req, requestId, stamp)
         == Outcome(requestId, stamp.timestamp, req.studentId, if holder.Some? then Success else NotFound,
                    if holder.Some? then university else NoUniversity, stamp.processingTime, req.requester)
  {
  }

  /** Number of 'Success' rows. */
  function SuccessCount(h: seq<Outcome>): (n: nat)
    ensures n <= |h|
  {
    if h == [] then 0
    else SuccessCount(h[..|h| - 1]) + (if h[|h| - 1].status == Success then 1 else 0)
  }

  lemma {:induction false} SuccessCountAppend(a: seq<Outcome>, b: seq<Outcome>)
    ensures SuccessCount(a + b) == SuccessCount(a) + SuccessCount(b)
    decreases |b|
  {
    if b == [] {
      assert a + b == a;
    } else {
      var n := |b| - 1;
      assert (a + b)[..|a + b| - 1] == a + b[..n];
      SuccessCountAppend(a, b[..n]);
    }
  }

  /** Number of requests some registered university resolves. */
  function FoundCount(dir: seq<Listing>, reqs: seq<Request>): (n: nat)
    ensures n <= |reqs|
  {
    if reqs == [] then 0
    else FoundCount(dir, reqs[..|reqs| - 1]) + (if FirstHolder(dir, reqs[|reqs| - 1].studentId).Some? then 1 else 0)
  }

  /** A batch adds one success per request that some university resolves. */
  lemma {:induction false} SuccessCountOfOutcomes(dir: seq<Listing>, reqs: seq<Request>, firstId: int, clock: int -> Stamp)
    ensures SuccessCount(Outcomes(dir, reqs, firstId, clock)) == FoundCount(dir, reqs)
  {
    if reqs != [] {
      var n := |reqs| - 1;
      SuccessCountOfOutcomes(dir, reqs[..n], firstId, clock);
      var h := Outcomes(dir, reqs, firstId, clock);
      assert h[..|h| - 1] == Outcomes(dir, reqs[..n], firstId, clock);
    }
  }

  /** Logging a batch adds one success per request that some university resolves. */
  lemma BatchCounted(h: seq<Outcome>, dir: seq<Listing>, reqs: seq<Request>, firstId: int, clock: int -> Stamp)
    ensures SuccessCount(h + Outcomes(dir, reqs, firstId, clock)) == SuccessCount(h) + FoundCount(dir, reqs)
  {
    SuccessCountOfOutcomes(dir, reqs, firstId, clock);
    SuccessCountAppend(h, Outcomes(dir, reqs, firstId, clock));
  }

  /**
    What ties the counters, the queue and the history together: every
    request counted is either still queued or logged, the success counter
    counts the 'Success' rows, and the logged ids are 1, 2, 3, ...
   */
  predicate Consistent(history: seq<Outcome>, queue: seq<Request>, totalRequests: nat, successfulValidations: nat) {
    && |history| + |queue| == totalRequests
    && successfulValidations == SuccessCount(history)
    && forall i :: 0 <= i < |history| ==> history[i].requestId == i + 1
  }

  /** Logging the row of the request at the front of the queue keeps the counters consistent. */
  lemma LogRow(history: seq<Outcome>, queue: seq<Request>, totalRequests: nat, successfulValidations: nat, row: Outcome)
    requires Consistent(history, queue, totalRequests, successfulValidations)
    requires queue != [] && row.requestId == |history| + 1
    ensures Consistent(history + [row], queue[1..], totalRequests,
                       successfulValidations + (if row.status == Success then 1 else 0))
  {
    SuccessCountAppend(history, [row]);
    assert [row][..0] == [];
  }

  /**
    The success counter never exceeds the request counter, so a rate over
    `total_requests` is at most 100%, and anything queued or logged means
    the counter is at least 1, so dividing by it is safe.
   */
  lemma CountersBound(history: seq<Outcome>, queue: seq<Request>, totalRequests: nat, successfulValidations: nat)
    requires Consistent(history, queue, totalRequests, successfulValidations)
    ensures successfulValidations <= |history| <= totalRequests
    ensures queue != [] || history != [] ==> totalRequests >= 1
    ensures history != [] ==> history[|history| - 1].requestId == |history|
  {
  }

  /** An exact percentage, numerator / denominator. */
  datatype Percentage = Percentage(numerator: nat, denominator: nat)

  /**
    The success rate of the system summary: successful / total * 100, or 0
    when no request was ever made.
   */
  function SuccessRate(successfulValidations: nat, totalRequests: nat): (r: Percentage)
    ensures r.denominator > 0
    ensures totalRequests == 0 ==> r.numerator == 0
    ensures totalRequests > 0 ==> r.numerator * totalRequests == 100 * successfulValidations * r.denominator
    ensures successfulValidations <= totalRequests ==> r.numerator <= 100 * r.denominator
  {
    if totalRequests == 0 then Percentage(0, 1) else Percentage(100 * successfulValidations, totalRequests)
  }

  class ValidationSystem {
    var universities: seq<University>
    var queue: seq<Request>
    var totalRequests: nat
    var successfulValidations: nat
    var history: seq<Outcome>

    ghost predicate Valid()
      reads this
    {
      Consistent(history, queue, totalRequests, successfulValidations)
    }

    constructor ()
      ensures Valid()
      ensures universities == [] && queue == [] && history == []
      ensures totalRequests == 0 && successfulValidations == 0
    {
      universities := [];
      queue := [];
      totalRequests := 0;
      successfulValidations := 0;
      history := [];
    }

    /** `register_university`: the new university is searched after all earlier ones. */
    method RegisterUniversity(university: University)
      requires Valid()
      modifies this
      ensures Valid()
      ensures universities == old(universities) + [university]
      ensures queue == old(queue) && history == old(history)
      ensures totalRequests == old(totalRequests) && successfulValidations == old(successfulValidations)
    {
      universities := universities + [university];
    }

    /** `request_validation`: one request at the back of the queue, counted at once. */
    method RequestValidation(studentId: string, requester: string := DefaultRequester)
      requires Valid()
      modifies this
      ensures Valid()
      ensures queue == old(queue) + [Request(studentId, requester)]
      ensures totalRequests == old(totalRequests) + 1
      ensures universities == old(universities) && history == old(history)
      ensures successfulValidations == old(successfulValidations)
    {
      queue := queue + [Request(studentId, requester)];
      totalRequests := totalRequests + 1;
    }

    /** `request_validations_bulk`: one request per id, in list order. */
    method RequestValidationsBulk(studentIds: seq<string>, requester: string := DefaultRequester)
      requires Valid()
      modifies this
      ensures Valid()
      ensures |queue| == |old(queue)| + |studentIds| && queue[..|old(queue)|] == old(queue)
      ensures forall k :: 0 <= k < |studentIds| ==> queue[|old(queue)| + k] == Request(studentIds[k], requester)
      ensures totalRequests == old(totalRequests) + |studentIds|
      ensures universities == old(universities) && history == old(history)
      ensures successfulValidations == old(successfulValidations)
    {
      for i := 0 to |studentIds|
        invariant Valid()
        invariant |queue| == |old(queue)| + i && queue[..|old(queue)|] == old(queue)
        invariant forall k :: 0 <= k < i ==> queue[|old(queue)| + k] == Request(studentIds[k], requester)
        invariant totalRequests == old(totalRequests) + i
        invariant universities == old(universities) && history == old(history)
        invariant successfulValidations == old(successfulValidations)
      {
        queue := queue + [Request(studentIds[i], requester)];
        totalRequests := totalRequests + 1;
      }
    }

    /**
      The search of `process_validations` for one student id: ask each
      registered university in turn and stop at the first that finds it.
     */
    method SearchUniversities(studentId: string) returns (holder: Option<nat>)
      ensures holder == FirstHolder(Snapshot(universities), studentId)
    {
      ghost var dir := Snapshot(universities);
      var j := 0;
      while j < |universities|
        invariant 0 <= j <= |universities|
        invariant forall i :: 0 <= i < j ==> VerifyStudent(dir[i].students, studentId).None?
      {
        SnapshotAt(universities, j);
        if VerifyStudent(universities[j].students, studentId).Some? {
          FirstHolderAt(dir, studentId, j);
          return Some(j);
        }
        j := j + 1;
      }
      FirstHolderMeaning(dir, studentId);
      return None;
    }

    /**
      One pass of the loop of `process_validations`: the request at the
      front of the queue leaves it and gets the next history row, with id
      `total_requests - len(queue)`, resolved by the first registered
      university that finds the student.
     */
    /** The history row of one request: the search of lines 303-310 and the row of lines 320-331. */
    method ResolveRequest(req: Request, requestId: int, stamp: Stamp) returns (row: Outcome)
      ensures row == Resolve(Snapshot(universities), req, requestId, stamp)
    {
      ghost var dir := Snapshot(universities);
      var holder := SearchUniversities(req.studentId);
      var found := false;
      var foundUniversity := "";
      if holder.Some? {
        found := true;
        foundUniversity := universities[holder.value].name;
        SnapshotAt(universities, holder.value);
      }
      row := Outcome(requestId, stamp.timestamp, req.studentId, if found then Success else NotFound,
                     if found then foundUniversity else NoUniversity, stamp.processingTime, req.requester);
      ResolveWith(dir, req, requestId, stamp, holder, foundUniversity);
    }

    /** One pass of the loop of `process_validations`: dequeue, resolve, log. */
    method ProcessNext(clock: int -> Stamp)
      requires Valid() && queue != []
      modifies this
      ensures Valid()
      ensures queue == old(queue)[1..]
      ensures universities == old(universities) && totalRequests == old(totalRequests)
      ensures history == old(history) + [Resolve(old(Snapshot(universities)), old(queue)[0], |old(history)| + 1, clock(|old(history)| + 1))]
    {
      ghost var dir := Snapshot(universities);
      var req := queue[0];
      var requestId := totalRequests - (|queue| - 1);
      var row := ResolveRequest(req, requestId, clock(requestId));
      assert row == Resolve(dir, req, requestId, clock(requestId));
      LogRow(history, queue, totalRequests, successfulValidations, row);
      queue := queue[1..];
      if row.status == Success {
        successfulValidations := successfulValidations + 1;
      }
      history := history + [row];
    }

    /**
      `process_validations`: drains the queue in FIFO order; each request
      gets one history row, and the ids continue from the history's length.
      With an empty queue nothing changes.
     */
    method ProcessValidations(clock: int -> Stamp)
      requires Valid()
      modifies this
      ensures Valid()
      ensures queue == []
      ensures universities == old(universities) && totalRequests == old(totalRequests)
      ensures history == old(history) + Outcomes(Snapshot(universities), old(queue), |old(history)| + 1, clock)
      ensures successfulValidations == old(successfulValidations) + FoundCount(Snapshot(universities), old(queue))
      ensures old(queue) == [] ==> history == old(history) && successfulValidations == old(successfulValidations)
      ensures old(queue) != [] ==> totalRequests >= 1 && history[|history| - 1].requestId == totalRequests
    {
      ghost var dir := Snapshot(universities);
      ghost var pending := queue;
      ghost var firstId := |history| + 1;
      ghost var done := 0;
      while queue != []
        invariant Valid()
        invariant universities == old(universities) && totalRequests == old(totalRequests)
        invariant Snapshot(universities) == dir
        invariant 0 <= done <= |pending| && queue == pending[done..]
        invariant history == old(history) + Outcomes(dir, pending[..done], firstId, clock)
        decreases |queue|
      {
        ProcessNext(clock);
        OutcomesStep(dir, pending, done, firstId, clock);
        done := done + 1;
      }
      assert pending[..done] == pending;
      BatchCounted(old(history), dir, pending, firstId, clock);
      CountersBound(history, queue, totalRequests, successfulValidations);
    }
  }

  /**
    The single-student walk-through: university "X" holds S1 (CGPA 3.5,
    class of 2023); one request for S1 from "Acme" is processed; the
    history holds one 'Success' row naming "X", and both counters are 1.
   */
  method SingleStudentScenario(clock: int -> Stamp, today: string) returns (system: ValidationSystem)
    ensures system.Valid()
    ensures system.totalRequests == 1 && system.successfulValidations == 1 && system.queue == []
    ensures |system.history| == 1
    ensures system.history[0].requestId == 1 && system.history[0].studentId == "S1"
    ensures system.history[0].status == Success && system.history[0].university == "X"
    ensures system.history[0].requester == "Acme"
    ensures SuccessRate(system.successfulValidations, system.totalRequests) == Percentage(100, 1)
  {
    var x := new University("X", []);
    var added := x.AddStudent("S1", "Student One", "BSc", RealValue(350), IntValue(2023), today);
    assert added;
    var row := x.students[0];
    assert x.students == [row];
    system := new ValidationSystem();
    system.RegisterUniversity(x);
    system.RequestValidation("S1", "Acme");
    system.ProcessValidations(clock);
    var dir := Snapshot(system.universities);
    assert dir == [Listing("X", [row])];
    assert OnlyRowWithId([row], "S1", 0);
    assert FirstHolder(dir, "S1") == Some(0);
    var reqs := [Request("S1", "Acme")];
    OutcomesAt(dir, reqs, 1, clock, 0);
    ResolveMeaning(dir, reqs[0], 1, clock(1));
  }
}
