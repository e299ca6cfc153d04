/**
 * The worker thread: `worker_loop` takes the queued jobs one at a time, runs
 * each on the machine and logs the failures.
 */
module WorkerThread {
  import opened Wrappers
  import opened Host
  import opened Queue
  import opened Worker

  /**
   * One turn of `worker_loop`: take the oldest job, convert it, and log a
   * warning if it failed; the trace of the jobs done so far grows by this job.
   */
  method ProcessNext(m: Machine, converterBin: string, rx: Channel<Job>, log: seq<string>, ghost done: seq<Job>,
                     ghost states: seq<HostState>, ghost results: seq<Result<(), ConversionError>>)
    returns (job: Job, ghost r: Result<(), ConversionError>, log': seq<string>)
    requires rx.Valid() && rx.buffer != []
    requires Progress(m.world, converterBin, done, states, results, log) && states[|done|] == m.State()
    modifies m, rx
    ensures rx.Valid() && old(rx.buffer) == [job] + rx.buffer
    ensures Progress(m.world, converterBin, done + [job], states + [m.State()], results + [r], log')
    ensures r.Ok? ==> log' == log
    ensures r.Err? ==> log' == log + [FailureLogPrefix + Fmt(r.error)]
  {
    job := rx.Recv();
    var result := Convert(m, converterBin, job.src, job.dest);
    r := result;
    WarningsAppend(results, [r]);
    match result {
      case Ok(_) =>
        log' := log;
      case Err(e) =>
        log' := log + [FailureLogPrefix + Fmt(e)];
    }
  }

  /**
   * `worker_loop`, draining the jobs queued so far: the jobs run in the order
   * received, each from the state the one before it left, and the log holds
   * one warning per failed job.
   */
  method WorkerLoop(m: Machine, converterBin: string, rx: Channel<Job>)
    returns (log: seq<string>, ghost states: seq<HostState>, ghost results: seq<Result<(), ConversionError>>)
    requires rx.Valid()
    modifies m, rx
    ensures rx.Valid() && rx.buffer == []
    ensures Progress(m.world, converterBin, old(rx.buffer), states, results, log)
    ensures states[0] == old(m.State()) && states[|states| - 1] == m.State()
  {
    log := [];
    ghost var done: seq<Job> := [];
    states, results := [m.State()], [];
    while rx.buffer != []
      invariant rx.Valid()
      invariant old(rx.buffer) == done + rx.buffer
      invariant |states| == |done| + 1
      invariant states[0] == old(m.State()) && states[|done|] == m.State()
      invariant Progress(m.world, converterBin, done, states, results, log)
      decreases |rx.buffer|
    {
      var job; ghost var r;
      job, r, log := ProcessNext(m, converterBin, rx, log, done, states, results);
      done := done + [job];
      states := states + [m.State()];
      results := results + [r];
    }
    assert done == old(rx.buffer);
  }
}
