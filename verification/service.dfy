/** `JobProcessingService` as a sequential abstraction. Scheduling registers
    a job under a fresh id and reports Queued; each job then waits for one
    of four slots, runs the processor for its kind, and gives the slot back
    whatever happened. The asynchronous steps are separate transitions
    (`Acquire`, `CancelWait`, `RunJob`) that the environment interleaves as
    it likes; each one is atomic here. */
module Service {
  import opened Common
  import opened Clock
  import opened Exceptions
  import opened Jobs
  import opened Processor

  /** The initial and maximum count of the semaphore. */
  const Slots: int := 4

  /** A registered job. The program keeps the caller's progress sink and
      cancellation token; the model keeps whether there is a sink. */
  datatype Job = Job(id: JobId, model: JobModel, hasSink: bool)

  /** Where the processing of a job is: waiting for a slot, holding one, or over. */
  datatype Stage = Waiting | Holding | Done

  /** The registry, the stage of every job, the free slots and the next fresh id. */
  datatype Service = Service(jobs: map<JobId, Job>, stages: map<JobId, Stage>, available: int, nextId: nat)

  const Initial: Service := Service(map[], map[], Slots, 0)

  /** The jobs that hold a slot. */
  function Holders(s: Service): set<JobId>
  {
    set id | id in s.stages && s.stages[id] == Holding
  }

  /** Every registered job has a stage and an id below the counter, and the
      free slots and the held ones add up to the semaphore's size. */
  predicate Valid(s: Service)
  {
    && s.jobs.Keys == s.stages.Keys
    && (forall id :: id in s.jobs ==> id.value < s.nextId && s.jobs[id].id == id)
    && 0 <= s.available
    && s.available + |Holders(s)| == Slots
  }

  lemma InitialValid()
    ensures Valid(Initial) && Initial.available == Slots
  {
    assert Holders(Initial) == {};
  }

  // ------------------------------------------------------------ scheduling

  function QueuedReport(): JobProgress
  {
    JobProgress(0.0, Zero, Zero, Queued, "Queued")
  }

  /** The sink's view of some reports: a job without a sink sees nothing. */
  function Delivered(hasSink: bool, reports: seq<JobProgress>): seq<JobProgress>
  {
    if hasSink then reports else []
  }

  datatype Scheduled = Scheduled(service: Service, id: JobId, reports: seq<JobProgress>)

  /** `ScheduleJob`: registers the job under a fresh id, starts its
      processing (it waits for a slot) and reports Queued to the sink. */
  function ScheduleJob(s: Service, model: JobModel, hasSink: bool): (r: Scheduled)
    requires Valid(s)
    ensures Valid(r.service)
    ensures r.id !in s.jobs
    ensures r.service.jobs == s.jobs[r.id := Job(r.id, model, hasSink)]
    ensures r.service.jobs.Keys == s.jobs.Keys + {r.id}
    ensures r.service.stages[r.id] == Waiting
    ensures r.service.available == s.available && Holders(r.service) == Holders(s)
    ensures hasSink ==> r.reports == [JobProgress(0.0, Zero, Zero, Queued, "Queued")]
    ensures !hasSink ==> r.reports == []
  {
    var id := JobId(s.nextId);
    var s' := Service(s.jobs[id := Job(id, model, hasSink)], s.stages[id := Waiting], s.available, s.nextId + 1);
    assert Holders(s') == Holders(s);
    Scheduled(s', id, Delivered(hasSink, [QueuedReport()]))
  }

  /** Two jobs scheduled one after the other get different ids, and the
      first stays registered. */
  lemma DistinctIds(s: Service, m1: JobModel, k1: bool, m2: JobModel, k2: bool)
    requires Valid(s)
    ensures var r1 := ScheduleJob(s, m1, k1);
            var r2 := ScheduleJob(r1.service, m2, k2);
            r1.id != r2.id && r1.id in r2.service.jobs && r2.service.jobs[r1.id].model == m1
  {
  }

  // ------------------------------------------------------------ processing

  /** `WaitAsync` returns: the job takes a free slot. */
  function Acquire(s: Service, id: JobId): (r: Option<Service>)
    requires Valid(s)
    ensures r.Some? <==> id in s.stages && s.stages[id] == Waiting && s.available > 0
    ensures r.Some? ==> Valid(r.value) && r.value.jobs == s.jobs
    ensures r.Some? ==> r.value.available == s.available - 1 && Holders(r.value) == Holders(s) + {id}
  {
    if id in s.stages && s.stages[id] == Waiting && s.available > 0 then
      var s' := s.(stages := s.stages[id := Holding], available := s.available - 1);
      assert Holders(s') == Holders(s) + {id};
      Some(s')
    else None
  }

  /** `WaitAsync` throws because the token was cancelled first: the
      exception leaves before the `try`, so no slot is given back. */
  function CancelWait(s: Service, id: JobId): (r: Option<Service>)
    requires Valid(s)
    ensures r.Some? <==> id in s.stages && s.stages[id] == Waiting
    ensures r.Some? ==> Valid(r.value) && r.value.jobs == s.jobs
    ensures r.Some? ==> r.value.available == s.available && Holders(r.value) == Holders(s)
  {
    if id in s.stages && s.stages[id] == Waiting then
      var s' := s.(stages := s.stages[id := Done]);
      assert Holders(s') == Holders(s);
      Some(s')
    else None
  }

  /** What the process of a job does, as seen by the processor. */
  datatype RunInputs = RunInputs(spawn: Spawn, lines: seq<string>, exitCode: int, cancel: Cancel)

  /** The switch on the job's kind: a cut, a GIF with the default frame
      rate and width, or an `ArgumentOutOfRangeException` for anything else.
      No progress sink is passed to the processor. */
  function Dispatch(model: JobModel, run: RunInputs): (o: Outcome)
    ensures model.OtherJob? ==> o == Outcome([], Some(ArgumentOutOfRange("")))
    ensures model.CutVideoJob? && model.range.None? ==> o == Outcome([], Some(NullReference))
    ensures model.CutVideoJob? && model.range.Some? ==>
              (forall i :: 0 <= i < |o.reports| ==> o.reports[i].total == CutTotal(model.range.value))
              && (HasState(o.reports, Failed)
                  <==> run.spawn == NotStarted
                       || (run.spawn == Started && run.cancel == NoCancel && run.exitCode != 0
                           && ReadAll(CutTotal(model.range.value), run.lines).fault.None?))
              && (HasState(o.reports, Canceled) ==> run.cancel != NoCancel)
    ensures model.GenerateGifJob? ==> o.reports == []
    ensures model.GenerateGifJob? ==>
              (o.fault.None? <==> ValidateGif(model.range, model.filePath, model.outputFilePath, 12, 480).Success?
                                  && (run.spawn == NotStarted
                                      || (run.spawn == Started && (run.cancel == NoCancel || run.cancel == AfterExit))))
    ensures model.GenerateGifJob? && ValidateGif(model.range, model.filePath, model.outputFilePath, 12, 480).Failure?
            ==> o.fault.Some? && (o.fault.value.ArgumentNull? || o.fault.value.ArgumentError?)
  {
    match model
    case CutVideoJob(range, _, _) =>
      if range.None? then RunCut(range, run.spawn, run.lines, run.exitCode, run.cancel)
      else
        CutFails(range.value, run.spawn, run.lines, run.exitCode, run.cancel);
        CutCanceled(range.value, run.spawn, run.lines, run.exitCode, run.cancel);
        RunCut(range, run.spawn, run.lines, run.exitCode, run.cancel)
    case GenerateGifJob(range, input, output) =>
      WrapperValidation(range, input, output);
      RunGif(range, input, output, DefaultFps, DefaultMaxWidth, run.spawn, run.cancel)
    case OtherJob => Outcome([], Some(ArgumentOutOfRange("")))
  }

  /** A finished job: the service afterwards, what the processor ended with
      (an exception is caught and logged), and what the caller's sink saw. */
  datatype Finished = Finished(service: Service, outcome: Outcome, delivered: seq<JobProgress>)

  /** The `try`/`catch`/`finally` of `ProcessJobAsync` for a job holding a
      slot: the processor runs, any exception is caught, and the slot is
      released. */
  function RunJob(s: Service, id: JobId, run: RunInputs): (r: Option<Finished>)
    requires Valid(s)
    ensures r.Some? <==> id in s.stages && s.stages[id] == Holding
    ensures r.Some? ==> Valid(r.value.service) && r.value.service.jobs == s.jobs
    ensures r.Some? ==> r.value.service.available == s.available + 1
                        && Holders(r.value.service) == Holders(s) - {id}
    ensures r.Some? ==> r.value.delivered == []
    ensures r.Some? && s.jobs[id].model.OtherJob? ==> r.value.outcome.fault == Some(ArgumentOutOfRange(""))
  {
    if id in s.stages && s.stages[id] == Holding then
      var outcome := Dispatch(s.jobs[id].model, run);
      var s' := s.(stages := s.stages[id := Done], available := s.available + 1);
      assert Holders(s') == Holders(s) - {id};
      Some(Finished(s', outcome, Delivered(false, outcome.reports)))
    else None
  }

  /** A slot is given back once: after a job has run, it can neither run
      again nor take another slot. */
  lemma ReleasedOnce(s: Service, id: JobId, run: RunInputs, again: RunInputs)
    requires Valid(s) && RunJob(s, id, run).Some?
    ensures var s' := RunJob(s, id, run).value.service;
            RunJob(s', id, again).None? && Acquire(s', id).None? && CancelWait(s', id).None?
  {
  }

  /** A job whose wait was cancelled never holds a slot. */
  lemma CancelledNeverHolds(s: Service, id: JobId, run: RunInputs)
    requires Valid(s) && CancelWait(s, id).Some?
    ensures var s' := CancelWait(s, id).value;
            id !in Holders(s') && Acquire(s', id).None? && RunJob(s', id, run).None?
  {
  }

  // ------------------------------------------------------------ any interleaving

  datatype Step =
    | ScheduleStep(model: JobModel, hasSink: bool)
    | AcquireStep(id: JobId)
    | CancelStep(id: JobId)
    | RunStep(id: JobId, run: RunInputs)

  /** One step; a step that is not enabled changes nothing. */
  function Apply(s: Service, step: Step): (r: Service)
    requires Valid(s)
    ensures Valid(r)
    ensures s.jobs.Keys <= r.jobs.Keys
    ensures forall id :: id in s.jobs ==> r.jobs[id] == s.jobs[id]
  {
    match step
    case ScheduleStep(m, k) => ScheduleJob(s, m, k).service
    case AcquireStep(id) => (match Acquire(s, id) case Some(s') => s' case None => s)
    case CancelStep(id) => (match CancelWait(s, id) case Some(s') => s' case None => s)
    case RunStep(id, run) => (match RunJob(s, id, run) case Some(f) => f.service case None => s)
  }

  /** Steps in order. */
  function ApplyAll(s: Service, steps: seq<Step>): (r: Service)
    requires Valid(s)
    ensures Valid(r)
    ensures s.jobs.Keys <= r.jobs.Keys
    ensures forall id :: id in s.jobs ==> r.jobs[id] == s.jobs[id]
    decreases |steps|
  {
    if steps == [] then s else ApplyAll(Apply(s, steps[0]), steps[1..])
  }

  /** Whatever the interleaving, at most four jobs hold a slot, the free
      count never goes negative, and no registered job is ever removed or
      changed. */
  lemma AnyInterleaving(steps: seq<Step>)
    ensures var s := ApplyAll(Initial, steps);
            |Holders(s)| <= Slots && 0 <= s.available <= Slots
  {
    InitialValid();
  }
}
