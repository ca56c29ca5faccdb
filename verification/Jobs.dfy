/** Unpack jobs: the record each worker and reader shares, the table of started
    jobs, and the worker threads that run them, all interleaved. */
module Jobs {
  const MAX_LIVE: nat := 64

  datatype State = Queued | Running | Succeeded | Cancelled | FailedJob

  /** `detail` stands for the paths, messages and timings. */
  datatype Result = Result(ok: bool, cancelled: bool, detail: string)

  const NO_RESULT := Result(false, false, "")

  datatype Record = Record(request: string, state: State, result: Result)

  function Outcome(r: Result): State {
    if r.ok then Succeeded else if r.cancelled then Cancelled else FailedJob
  }

  function Fresh(request: string): Record {
    Record(request, Queued, NO_RESULT)
  }

  function Begin(r: Record): Record {
    r.(state := Running)
  }

  /** The result and the state are stored under one lock. */
  function Complete(r: Record, result: Result): Record {
    r.(state := Outcome(result), result := result)
  }

  class JobRecord {
    const request: string
    var state: State
    var result: Result

    ghost function Value(): Record
      reads this
    {
      Record(request, state, result)
    }

    constructor (request: string)
      ensures Value() == Fresh(request)
    {
      this.request, state, result := request, Queued, NO_RESULT;
    }

    method MarkRunning()
      modifies this
      ensures Value() == Begin(old(Value()))
    {
      state := Running;
    }

    method Finish(r: Result)
      modifies this
      ensures Value() == Complete(old(Value()), r)
    {
      result := r;
      state := if result.ok then Succeeded else if result.cancelled then Cancelled else FailedJob;
    }
  }

  /** The started jobs by number; none is ever removed. */
  class JobTable {
    var records: map<nat, JobRecord>

    constructor ()
      ensures records == map[]
    {
      records := map[];
    }

    method Insert(id: nat, record: JobRecord)
      modifies this
      ensures records == old(records)[id := record]
    {
      records := records[id := record];
    }

    method GetJob(id: nat) returns (found: bool, job: Record)
      ensures found <==> id in records
      ensures found ==> job == records[id].Value()
    {
      if id !in records {
        return false, Fresh("");
      }
      var record := records[id];
      return true, Record(record.request, record.state, record.result);
    }
  }

  // ----- the interleaved system

  /** How far a worker thread is. */
  datatype Phase = Created | Entered | Working | Stored | Done

  /** The record, the state the job system shows, the worker's phase, and whether
      its cancellation was requested. */
  datatype Job = Job(record: Record, shown: State, phase: Phase, stop: bool)

  datatype Snapshot = Snapshot(id: nat, record: Record)

  /** Every job submitted so far, the next number, the table, the numbers callers
      were given, what each reader looked up but has not read yet, and every
      snapshot in the order it was taken. */
  datatype Sys = Sys(
    jobs: map<nat, Job>, next: nat, table: set<nat>, given: set<nat>,
    readers: map<nat, nat>, seen: seq<Snapshot>)

  const INITIAL := Sys(map[], 1, {}, {}, map[], [])

  /** Jobs of other owners share the limit and the numbers: at a submission
      `others` of them are live, and `gap` numbers went to them since the last. */
  datatype Op =
    | Submit(request: string, others: nat, gap: nat)
    | Insert(id: nat)
    | Give(id: nat)
    | Cancel(id: nat)
    | Enter(id: nat)
    | Start(id: nat)
    | Store(id: nat, result: Result)
    | Leave(id: nat)
    | Lookup(reader: nat, id: nat)
    | Read(reader: nat)

  predicate Live(j: Job) {
    j.shown.Queued? || j.shown.Running?
  }

  function LiveJobs(jobs: map<nat, Job>): set<nat> {
    set id | id in jobs && Live(jobs[id])
  }

  /** Running a job reports a cancellation only if one was requested. */
  predicate CanReport(j: Job, r: Result) {
    r.cancelled ==> !r.ok && j.stop
  }

  predicate Enabled(s: Sys, op: Op) {
    match op
    case Submit(_, _, _) => true
    case Insert(id) => id in s.jobs && id !in s.table
    case Give(id) => id in s.table
    case Cancel(id) => id in s.jobs
    case Enter(id) => id in s.jobs && s.jobs[id].phase == Created
    case Start(id) => id in s.jobs && s.jobs[id].phase == Entered
    case Store(id, r) => id in s.jobs && s.jobs[id].phase == Working && CanReport(s.jobs[id], r)
    case Leave(id) => id in s.jobs && s.jobs[id].phase == Stored
    case Lookup(_, _) => true
    case Read(reader) => reader in s.readers && s.readers[reader] in s.jobs
  }

  /** What storing a result does: the job system is told of failures only. */
  function Stores(j: Job, r: Result): Job {
    j.(record := Complete(j.record, r), phase := Stored,
       shown := if Outcome(r).FailedJob? then FailedJob else j.shown)
  }

  /** How the job system ends a job that is still shown as running. */
  function Leaves(j: Job): Job {
    j.(phase := Done, shown := if !j.shown.Running? then j.shown else if j.stop then Cancelled else Succeeded)
  }

  function Do(s: Sys, op: Op): Sys
    requires Enabled(s, op)
  {
    match op
    case Submit(request, others, gap) =>
      if |LiveJobs(s.jobs)| + others >= MAX_LIVE then s
      else
        var id := s.next + gap;
        s.(jobs := s.jobs[id := Job(Fresh(request), Queued, Created, false)], next := id + 1)
    case Insert(id) => s.(table := s.table + {id})
    case Give(id) => s.(given := s.given + {id})
    case Cancel(id) => s.(jobs := s.jobs[id := s.jobs[id].(stop := true)])
    case Enter(id) => s.(jobs := s.jobs[id := s.jobs[id].(shown := Running, phase := Entered)])
    case Start(id) =>
      s.(jobs := s.jobs[id := s.jobs[id].(record := Begin(s.jobs[id].record), phase := Working)])
    case Store(id, r) => s.(jobs := s.jobs[id := Stores(s.jobs[id], r)])
    case Leave(id) => s.(jobs := s.jobs[id := Leaves(s.jobs[id])])
    case Lookup(reader, id) => if id in s.table then s.(readers := s.readers[reader := id]) else s
    case Read(reader) =>
      var id := s.readers[reader];
      s.(readers := s.readers - {reader}, seen := s.seen + [Snapshot(id, s.jobs[id].record)])
  }

  predicate IsRun(s: Sys, ops: seq<Op>)
    decreases |ops|
  {
    ops == [] || (Enabled(s, ops[0]) && IsRun(Do(s, ops[0]), ops[1..]))
  }

  function Run(s: Sys, ops: seq<Op>): Sys
    requires IsRun(s, ops)
    decreases |ops|
  {
    if ops == [] then s else Run(Do(s, ops[0]), ops[1..])
  }

  // ----- what holds in every reachable state

  function Rank(s: State): nat {
    match s
    case Queued => 0
    case Running => 1
    case _ => 2
  }

  /** A record that can be followed by another: same request, never backwards,
      and nothing changes once it has ended. */
  predicate Before(a: Record, b: Record) {
    a.request == b.request && Rank(a.state) <= Rank(b.state) && (Rank(a.state) == 2 ==> a == b)
  }

  /** State and result agree: no result before the end, and the final state is
      the outcome of the final result. */
  predicate Coherent(r: Record) {
    && (r.state.Succeeded? <==> r.result.ok)
    && if Rank(r.state) < 2 then r.result == NO_RESULT else r.state == Outcome(r.result)
  }

  predicate JobInv(j: Job) {
    && Coherent(j.record)
    && match j.phase
       case Created => j.record.state == Queued && j.shown == Queued
       case Entered => j.record.state == Queued && j.shown == Running
       case Working => j.record.state == Running && j.shown == Running
       case Stored => Rank(j.record.state) == 2 && CanReport(j, j.record.result)
                      && j.shown == if j.record.state.FailedJob? then FailedJob else Running
       case Done => Rank(j.record.state) == 2 && Rank(j.shown) == 2
                    && (j.shown.FailedJob? <==> j.record.state.FailedJob?)
                    && (j.record.state.Cancelled? ==> j.shown.Cancelled?)
  }

  ghost predicate Inv(s: Sys) {
    && s.given <= s.table <= s.jobs.Keys
    && (forall id <- s.jobs :: id < s.next && JobInv(s.jobs[id]))
    && |LiveJobs(s.jobs)| <= MAX_LIVE
    && (forall reader <- s.readers :: s.readers[reader] in s.table)
    && (forall x <- s.seen :: x.id in s.jobs && Coherent(x.record) && Before(x.record, s.jobs[x.id].record))
    && (forall i, k | 0 <= i < k < |s.seen| && s.seen[i].id == s.seen[k].id ::
          Before(s.seen[i].record, s.seen[k].record))
  }

  lemma BeforeTrans(a: Record, b: Record, c: Record)
    requires Before(a, b) && Before(b, c)
    ensures Before(a, c)
  {
  }

  /** Changing one job that stays live or ends keeps the bound. */
  lemma LiveShrinks(jobs: map<nat, Job>, id: nat, j: Job)
    requires id in jobs && (Live(j) ==> Live(jobs[id]))
    ensures |LiveJobs(jobs[id := j])| <= |LiveJobs(jobs)|
  {
    var a, b := LiveJobs(jobs[id := j]), LiveJobs(jobs);
    assert a <= b;
    Subset(a, b);
  }

  lemma {:induction false} Subset(a: set<nat>, b: set<nat>)
    requires a <= b
    ensures |a| <= |b|
  {
    assert b == a + (b - a);
    assert |b| == |a| + |b - a|;
  }

  lemma LiveGrows(jobs: map<nat, Job>, id: nat, j: Job)
    requires id !in jobs
    ensures |LiveJobs(jobs[id := j])| <= |LiveJobs(jobs)| + 1
  {
    var a, b := LiveJobs(jobs[id := j]), LiveJobs(jobs) + {id};
    assert a <= b;
    Subset(a, b);
  }

  /** A worker step, or a cancellation, on one job. */
  lemma WorkKeeps(s: Sys, id: nat, j: Job)
    requires Inv(s) && id in s.jobs && JobInv(j)
    requires Before(s.jobs[id].record, j.record) && (Live(j) ==> Live(s.jobs[id]))
    ensures Inv(s.(jobs := s.jobs[id := j]))
  {
    hide JobInv, Coherent, Live, LiveJobs;
    LiveShrinks(s.jobs, id, j);
    var t := s.(jobs := s.jobs[id := j]);
    forall x | x in s.seen ensures Before(x.record, t.jobs[x.id].record) {
      if x.id == id { BeforeTrans(x.record, s.jobs[id].record, j.record); }
    }
  }

  lemma SubmitKeeps(s: Sys, request: string, others: nat, gap: nat)
    requires Inv(s)
    ensures Inv(Do(s, Submit(request, others, gap)))
  {
    hide LiveJobs;
    LiveGrows(s.jobs, s.next + gap, Job(Fresh(request), Queued, Created, false));
  }

  lemma ReadKeeps(s: Sys, reader: nat)
    requires Inv(s) && Enabled(s, Read(reader))
    ensures Inv(Do(s, Read(reader)))
  {
    hide LiveJobs;
    var id := s.readers[reader];
    assert JobInv(s.jobs[id]);
  }

  lemma StepKeeps(s: Sys, op: Op)
    requires Inv(s) && Enabled(s, op)
    ensures Inv(Do(s, op))
  {
    hide LiveJobs;
    match op
    case Submit(request, others, gap) => SubmitKeeps(s, request, others, gap);
    case Cancel(id) => WorkKeeps(s, id, s.jobs[id].(stop := true));
    case Enter(id) => WorkKeeps(s, id, s.jobs[id].(shown := Running, phase := Entered));
    case Start(id) => WorkKeeps(s, id, s.jobs[id].(record := Begin(s.jobs[id].record), phase := Working));
    case Store(id, r) => WorkKeeps(s, id, Stores(s.jobs[id], r));
    case Leave(id) => WorkKeeps(s, id, Leaves(s.jobs[id]));
    case Read(reader) => ReadKeeps(s, reader);
    case _ =>
  }

  lemma {:induction false} RunKeeps(s: Sys, ops: seq<Op>)
    requires Inv(s) && IsRun(s, ops)
    ensures Inv(Run(s, ops))
    decreases |ops|
  {
    hide Inv, Do, Enabled;
    if ops != [] {
      StepKeeps(s, ops[0]);
      RunKeeps(Do(s, ops[0]), ops[1..]);
    }
  }

  /** Main result, for every interleaving of callers, workers and readers: a
      number a caller was given is in the table from then on; snapshots of one job
      never go backwards and never change once it has ended; each pairs success
      with a good result and an end with its final result; at most 64 jobs are
      live at a time. */
  lemma RunSafe(ops: seq<Op>)
    requires IsRun(INITIAL, ops)
    ensures var s := Run(INITIAL, ops);
            && s.given <= s.table
            && (forall i, k | 0 <= i < k < |s.seen| && s.seen[i].id == s.seen[k].id ::
                  Before(s.seen[i].record, s.seen[k].record))
            && (forall x <- s.seen :: Coherent(x.record))
            && |LiveJobs(s.jobs)| <= 64
  {
    hide Before, Coherent, Run, Do;
    assert LiveJobs(map[]) == {};
    RunKeeps(INITIAL, ops);
  }

  lemma {:induction false} GivenStays(s: Sys, ops: seq<Op>, id: nat)
    requires Inv(s) && IsRun(s, ops) && id in s.given
    ensures id in Run(s, ops).table
    decreases |ops|
  {
    hide LiveJobs, Before, JobInv;
    if ops != [] {
      StepKeeps(s, ops[0]);
      GivenStays(Do(s, ops[0]), ops[1..], id);
    }
  }

  /** A submission is turned away exactly when it would make more than 64 live
      jobs; otherwise it gets a number never used before, and starts queued,
      without a result and without a requested cancellation. */
  lemma SubmitIff(s: Sys, request: string, others: nat, gap: nat)
    requires Inv(s)
    ensures var t := Do(s, Submit(request, others, gap));
            && (t == s <==> |LiveJobs(s.jobs)| + others + 1 > 64)
            && (t != s ==> exists id :: id !in s.jobs && s.next <= id && t.jobs.Keys == s.jobs.Keys + {id}
                                        && t.jobs[id].record == Record(request, Queued, Result(false, false, ""))
                                        && t.jobs[id].shown == Queued && !t.jobs[id].stop
                                        && (forall k <- s.jobs :: t.jobs[k] == s.jobs[k]))
  {
    hide LiveJobs;
    var id := s.next + gap;
    if |LiveJobs(s.jobs)| + others < 64 { assert id !in s.jobs && id in Do(s, Submit(request, others, gap)).jobs; }
  }

  /** What a reader that looks up a given number at any later point sees is the
      record of that job. */
  lemma LookupFinds(s: Sys, ops: seq<Op>, id: nat, reader: nat)
    requires Inv(s) && IsRun(s, ops) && id in s.given
    ensures var later := Run(s, ops);
            var found := Do(later, Lookup(reader, id));
            reader in found.readers && found.readers[reader] == id && Enabled(found, Read(reader))
  {
    GivenStays(s, ops, id);
    RunKeeps(s, ops);
  }

  /** Main result on one job's end: what the record and the job system show once
      the worker has stored its result and left, for every result it can report. */
  lemma EndsAs(s: Sys, id: nat, result: Result)
    requires Inv(s) && Enabled(s, Store(id, result))
    ensures var stored := Do(s, Store(id, result));
            Enabled(stored, Leave(id)) &&
            var j := Do(stored, Leave(id)).jobs[id];
            && j.record.result == result
            && (result.ok && !s.jobs[id].stop ==> j.record.state == Succeeded && j.shown == Succeeded)
            && (result.ok && s.jobs[id].stop ==> j.record.state == Succeeded && j.shown == Cancelled)
            && (result.cancelled ==> j.record.state == Cancelled && j.shown == Cancelled)
            && (!result.ok && !result.cancelled ==> j.record.state == FailedJob && j.shown == FailedJob)
  {
    assert JobInv(s.jobs[id]);
  }

  /** When a worker leaves, the record and the job system agree on how the job
      ended exactly when it did not succeed under a requested cancellation. */
  lemma EndsAgreeIff(s: Sys, id: nat)
    requires Inv(s) && Enabled(s, Leave(id))
    ensures var j := Do(s, Leave(id)).jobs[id];
            j.record.state == j.shown <==> !(s.jobs[id].record.state.Succeeded? && s.jobs[id].stop)
  {
    assert JobInv(s.jobs[id]);
  }
}
