/**
 * The conversion worker: for each job it skips a ready rendition, obtains an
 * EPUB (the source itself, or the external converter's output), unzips it
 * into the rendition directory and removes the temporary EPUB. The worker
 * takes jobs from the queue in order and only logs a job's failure.
 */
module Worker {
  import opened Wrappers
  import opened Text
  import opened Numbers
  import opened Paths
  import opened Host
  import opened Cache

  /** The five ways a job can fail; three carry the launch error, two the exit status. */
  datatype ConversionError =
    | EpubConversionCommandError(io: IoError)
    | EpubConversionError(status: ExitStatus)
    | EpubDeflationCommandError(io: IoError)
    | EpubDeflationError(status: ExitStatus)
    | CleanUpError(io: IoError)

  /** `Error::cause`: the underlying `io::Error`, for the failures to launch a command. */
  function Cause(e: ConversionError): (r: Option<IoError>)
    ensures r.Some? <==> (e.EpubConversionCommandError? || e.EpubDeflationCommandError? || e.CleanUpError?)
    ensures r.Some? ==> r.value == e.io
  {
    match e
    case EpubConversionCommandError(io) => Some(io)
    case EpubDeflationCommandError(io) => Some(io)
    case CleanUpError(io) => Some(io)
    case _ => None
  }

  /**
   * The `Debug` text of an exit status as the standard library of the time
   * prints it: the raw wait status (exit code times 256, or the signal number).
   */
  function StatusText(s: ExitStatus): string {
    var raw := match s case Code(c) => (c % 256) * 256 case Signal(n) => n;
    "ExitStatus(ExitStatus(" + Decimal(raw) + "))"
  }

  /** The fixed text that opens the message of each kind of failure. */
  function MessagePrefix(e: ConversionError): string {
    match e
    case EpubConversionCommandError(_) => "Failed to launch converter: "
    case EpubConversionError(_) => "Converter exited with an error code: "
    case EpubDeflationCommandError(_) => "Failed to launch unzip: "
    case EpubDeflationError(_) => "Unzipper exited with an error code: "
    case CleanUpError(_) => "Failed to remove temporary epub file: "
  }

  /** What follows the prefix: the launch error, or the exit status. */
  function Detail(e: ConversionError): string {
    match e
    case EpubConversionError(s) => StatusText(s)
    case EpubDeflationError(s) => StatusText(s)
    case _ => e.io.message
  }

  /** `Display::fmt`: the kind of failure, then the launch error or the exit status. */
  function Fmt(e: ConversionError): string {
    MessagePrefix(e) + Detail(e)
  }

  predicate SameKind(e1: ConversionError, e2: ConversionError) {
    match (e1, e2)
    case (EpubConversionCommandError(_), EpubConversionCommandError(_)) => true
    case (EpubConversionError(_), EpubConversionError(_)) => true
    case (EpubDeflationCommandError(_), EpubDeflationCommandError(_)) => true
    case (EpubDeflationError(_), EpubDeflationError(_)) => true
    case (CleanUpError(_), CleanUpError(_)) => true
    case _ => false
  }

  lemma SameKindSamePrefix(e1: ConversionError, e2: ConversionError)
    requires SameKind(e1, e2)
    ensures MessagePrefix(e1) == MessagePrefix(e2)
  {
  }

  /** The opening texts of two different kinds of failure disagree at some position. */
  lemma PrefixesDiffer(e1: ConversionError, e2: ConversionError)
    requires !SameKind(e1, e2)
    ensures exists k :: 0 <= k < |MessagePrefix(e1)| && 0 <= k < |MessagePrefix(e2)|
                        && MessagePrefix(e1)[k] != MessagePrefix(e2)[k]
  {
    var p1, p2 := MessagePrefix(e1), MessagePrefix(e2);
    if p1[0] != p2[0] {
      assert p1[0] != p2[0];
    } else if p1[10] != p2[10] {
      assert p1[10] != p2[10];
    } else {
      assert p1[17] != p2[17];
    }
  }

  /**
   * A logged message tells which stage failed and how: it opens with the
   * prefix of its own kind of failure and with no other kind's, and it ends
   * with the underlying launch error when there is one.
   */
  lemma FmtNamesTheFailure(e1: ConversionError, e2: ConversionError)
    ensures StartsWith(Fmt(e1), MessagePrefix(e2)) <==> SameKind(e1, e2)
    ensures Cause(e1).Some? ==> EndsWith(Fmt(e1), Cause(e1).value.message)
  {
    var p1, p2 := MessagePrefix(e1), MessagePrefix(e2);
    ConcatAffixes(p1, Detail(e1));
    if SameKind(e1, e2) {
      SameKindSamePrefix(e1, e2);
    } else {
      PrefixesDiffer(e1, e2);
      var k :| 0 <= k < |p1| && 0 <= k < |p2| && p1[k] != p2[k];
      DifferAt(p1, Detail(e1), p2, k);
    }
  }

  /** The converter's command line: source, target EPUB and the fixed profile flags. */
  function ConverterInvocation(converterBin: string, src: string, epub: string): Invocation {
    Invocation(converterBin, [src, epub, "--no-default-epub-cover", "--output-profile", "tablet"])
  }

  /** `unzip -d <dest> <archive>` */
  function UnzipInvocation(dest: string, archive: string): Invocation {
    Invocation("unzip", ["-d", dest, archive])
  }

  /** `rm <archive>` */
  function RmInvocation(archive: string): Invocation {
    Invocation("rm", [archive])
  }

  /** Where the converter writes: the destination with its extension set to "epub". */
  function TempArchive(dest: string): string {
    SetExtension(dest, "epub")
  }

  /** The source is used as the archive when its text ends with ".epub", case-sensitively. */
  predicate IsEpubSource(src: string) {
    EndsWith(src, ".epub")
  }

  /** `convert_to_epub` */
  function ConvertToEpubSpec(w: World, st: HostState, converterBin: string, src: string, epub: string)
    : (Result<(), ConversionError>, HostState)
  {
    var (o, st1) := Exec(w, st, ConverterInvocation(converterBin, src, epub));
    match o
    case LaunchFailed(e) => (Err(EpubConversionCommandError(e)), st1)
    case Exited(s) => (if s.Success() then Ok(()) else Err(EpubConversionError(s)), st1)
  }

  /** The unzip step and, for a temporary archive, the clean-up step of `convert`. */
  function DeflateSpec(w: World, st: HostState, dest: string, epub: string, needCleanup: bool)
    : (Result<(), ConversionError>, HostState)
  {
    var (o, st1) := Exec(w, st, UnzipInvocation(dest, epub));
    match o
    case LaunchFailed(e) => (Err(EpubDeflationCommandError(e)), st1)
    case Exited(s) =>
      if !s.Success() then (Err(EpubDeflationError(s)), st1)
      else if !needCleanup then (Ok(()), st1)
      else
        var (o2, st2) := Exec(w, st1, RmInvocation(epub));
        // the exit status of rm is not looked at
        (if o2.LaunchFailed? then Err(CleanUpError(o2.error)) else Ok(()), st2)
  }

  /** `convert`: the result of one job and the host state it leaves. */
  function ConvertSpec(w: World, st: HostState, converterBin: string, src: string, dest: string)
    : (Result<(), ConversionError>, HostState)
  {
    if CheckCacheAvailability(st.fs, dest) then (Ok(()), st)
    else if IsEpubSource(src) then DeflateSpec(w, st, dest, src, false)
    else
      var epub := TempArchive(dest);
      var (r, st1) := ConvertToEpubSpec(w, st, converterBin, src, epub);
      if r.Err? then (r, st1) else DeflateSpec(w, st1, dest, epub, true)
  }

  /** The commands a job that is not cached runs when nothing fails. */
  function Plan(converterBin: string, src: string, dest: string): seq<Invocation> {
    if IsEpubSource(src) then [UnzipInvocation(dest, src)]
    else
      var epub := TempArchive(dest);
      [ConverterInvocation(converterBin, src, epub), UnzipInvocation(dest, epub), RmInvocation(epub)]
  }

  /** The command whose failure an error reports. */
  function FailedProgram(e: ConversionError, converterBin: string): string {
    match e
    case EpubConversionCommandError(_) => converterBin
    case EpubConversionError(_) => converterBin
    case EpubDeflationCommandError(_) => "unzip"
    case EpubDeflationError(_) => "unzip"
    case CleanUpError(_) => "rm"
  }

  /** A ready rendition: `convert` succeeds and launches nothing. */
  lemma CachedJobLaunchesNothing(w: World, st: HostState, converterBin: string, src: string, dest: string)
    requires CheckCacheAvailability(st.fs, dest)
    ensures ConvertSpec(w, st, converterBin, src, dest) == (Ok(()), st)
  {
  }

  /**
   * A job that is not cached runs a non-empty prefix of its plan and stops at
   * the first failing step: it succeeds only after the whole plan, and on
   * failure the last command run is the one the error names. So an EPUB source
   * is unzipped directly and nothing is removed; otherwise the converter runs
   * first, and unzip and rm run only after the steps before them succeeded.
   */
  lemma ConvertFollowsPlan(w: World, st: HostState, converterBin: string, src: string, dest: string)
    requires !CheckCacheAvailability(st.fs, dest)
    ensures var (r, st') := ConvertSpec(w, st, converterBin, src, dest);
            var plan := Plan(converterBin, src, dest);
            var k := |st'.history| - |st.history|;
            && 1 <= k <= |plan| && st'.history == st.history + plan[..k]
            && (r.Ok? ==> k == |plan|)
            && (r.Err? ==> plan[k - 1].program == FailedProgram(r.error, converterBin))
  {
    if IsEpubSource(src) {
      EpubJobFollowsPlan(w, st, converterBin, src, dest);
    } else {
      OtherJobFollowsPlan(w, st, converterBin, src, dest);
    }
  }

  lemma EpubJobFollowsPlan(w: World, st: HostState, converterBin: string, src: string, dest: string)
    requires !CheckCacheAvailability(st.fs, dest) && IsEpubSource(src)
    ensures var (r, st') := ConvertSpec(w, st, converterBin, src, dest);
            && st'.history == st.history + [UnzipInvocation(dest, src)]
            && (r.Err? ==> FailedProgram(r.error, converterBin) == "unzip")
  {
  }

  lemma OtherJobFollowsPlan(w: World, st: HostState, converterBin: string, src: string, dest: string)
    requires !CheckCacheAvailability(st.fs, dest) && !IsEpubSource(src)
    ensures var (r, st') := ConvertSpec(w, st, converterBin, src, dest);
            var plan := Plan(converterBin, src, dest);
            var k := |st'.history| - |st.history|;
            && 1 <= k <= |plan| && st'.history == st.history + plan[..k]
            && (r.Ok? ==> k == |plan|)
            && (r.Err? ==> plan[k - 1].program == FailedProgram(r.error, converterBin))
  {
    var (r, st') := ConvertSpec(w, st, converterBin, src, dest);
    var plan := Plan(converterBin, src, dest);
    var epub := TempArchive(dest);
    var (o, st1) := Exec(w, st, ConverterInvocation(converterBin, src, epub));
    if !(o.Exited? && o.status.Success()) {
      assert st'.history == st.history + plan[..1];
    } else {
      var (o2, st2) := Exec(w, st1, UnzipInvocation(dest, epub));
      if !(o2.Exited? && o2.status.Success()) {
        assert st'.history == st.history + plan[..2];
      } else {
        assert st'.history == st.history + plan[..3];
      }
    }
  }

  /**
   * How the outcome of each command decides the result of a job whose source
   * is not an EPUB: a converter that cannot be launched or exits with an error
   * stops the job after one command, unzip likewise after two; once both
   * succeeded rm runs, and only a failure to launch it is an error, whatever
   * its exit status.
   */
  lemma ConvertOutcomes(w: World, st: HostState, converterBin: string, src: string, dest: string)
    requires !CheckCacheAvailability(st.fs, dest) && !IsEpubSource(src)
    ensures var plan := Plan(converterBin, src, dest);
            var (o1, st1) := Exec(w, st, plan[0]);
            var (o2, st2) := Exec(w, st1, plan[1]);
            var (o3, st3) := Exec(w, st2, plan[2]);
            var (r, st') := ConvertSpec(w, st, converterBin, src, dest);
            && st1.history == st.history + plan[..1]
            && st2.history == st.history + plan[..2]
            && st3.history == st.history + plan
            && (o1.LaunchFailed? ==> r == Err(EpubConversionCommandError(o1.error)) && st' == st1)
            && (o1.Exited? && !o1.status.Success() ==> r == Err(EpubConversionError(o1.status)) && st' == st1)
            && (o1 == Exited(Code(0)) && o2.LaunchFailed? ==>
                  r == Err(EpubDeflationCommandError(o2.error)) && st' == st2)
            && (o1 == Exited(Code(0)) && o2.Exited? && !o2.status.Success() ==>
                  r == Err(EpubDeflationError(o2.status)) && st' == st2)
            && (o1 == Exited(Code(0)) && o2 == Exited(Code(0)) ==>
                  st' == st3 && (r.Ok? <==> o3.Exited?)
                  && (o3.LaunchFailed? ==> r == Err(CleanUpError(o3.error))))
  {
  }

  /**
   * A job whose source is an EPUB launches unzip only: the job fails exactly
   * when unzip cannot be launched or exits with an error, with the matching
   * error.
   */
  lemma EpubConvertOutcomes(w: World, st: HostState, converterBin: string, src: string, dest: string)
    requires !CheckCacheAvailability(st.fs, dest) && IsEpubSource(src)
    ensures var plan := Plan(converterBin, src, dest);
            var (o, st1) := Exec(w, st, plan[0]);
            var (r, st') := ConvertSpec(w, st, converterBin, src, dest);
            && st' == st1 && st1.history == st.history + plan
            && (o.LaunchFailed? ==> r == Err(EpubDeflationCommandError(o.error)))
            && (o.Exited? ==> (r.Ok? <==> o.status.Success()))
            && (o.Exited? && !o.status.Success() ==> r == Err(EpubDeflationError(o.status)))
  {
  }

  /** `convert`, run on the host. */
  method Convert(m: Machine, converterBin: string, src: string, dest: string)
    returns (r: Result<(), ConversionError>)
    modifies m
    ensures (r, m.State()) == ConvertSpec(m.world, old(m.State()), converterBin, src, dest)
  {
    if CheckCacheAvailability(m.fs, dest) {
      return Ok(());
    }
    var epubPath: string;
    var needCleanup: bool;
    if IsEpubSource(src) {
      epubPath, needCleanup := src, false;
    } else {
      epubPath := TempArchive(dest);
      var converted := m.Run(ConverterInvocation(converterBin, src, epubPath));
      match converted {
        case LaunchFailed(e) => return Err(EpubConversionCommandError(e));
        case Exited(s) =>
          if !s.Success() {
            return Err(EpubConversionError(s));
          }
      }
      needCleanup := true;
    }
    var unzipped := m.Run(UnzipInvocation(dest, epubPath));
    match unzipped {
      case LaunchFailed(e) => return Err(EpubDeflationCommandError(e));
      case Exited(s) =>
        if !s.Success() {
          return Err(EpubDeflationError(s));
        }
    }
    if needCleanup {
      var removed := m.Run(RmInvocation(epubPath));
      if removed.LaunchFailed? {
        return Err(CleanUpError(removed.error));
      }
    }
    return Ok(());
  }

  /** A conversion request: the source file and the rendition directory. */
  datatype Job = Job(src: string, dest: string)

  /**
   * The results of `convert` for each job in turn, each started from the
   * state the jobs before it left.
   */
  function RunJobs(w: World, st: HostState, converterBin: string, jobs: seq<Job>)
    : (res: (seq<Result<(), ConversionError>>, HostState))
    ensures |res.0| == |jobs|
    decreases |jobs|
  {
    if jobs == [] then ([], st)
    else
      var n := |jobs| - 1;
      var (rs, st1) := RunJobs(w, st, converterBin, jobs[..n]);
      var (r, st2) := ConvertSpec(w, st1, converterBin, jobs[n].src, jobs[n].dest);
      (rs + [r], st2)
  }

  const FailureLogPrefix: string := "Convertion failed: "

  /** The warnings `worker_loop` logs: one per failed job, in order. */
  function Warnings(results: seq<Result<(), ConversionError>>): seq<string> {
    if results == [] then []
    else
      (if results[0].Err? then [FailureLogPrefix + Fmt(results[0].error)] else [])
      + Warnings(results[1..])
  }

  lemma {:induction false} WarningsAppend(a: seq<Result<(), ConversionError>>, b: seq<Result<(), ConversionError>>)
    ensures Warnings(a + b) == Warnings(a) + Warnings(b)
  {
    if a != [] {
      assert (a + b)[1..] == a[1..] + b;
      WarningsAppend(a[1..], b);
    } else {
      assert a + b == b;
    }
  }

  /** One more job extends the results by that job's. */
  lemma RunJobsStep(w: World, st0: HostState, converterBin: string, done: seq<Job>,
                    results: seq<Result<(), ConversionError>>, before: HostState, job: Job,
                    r: Result<(), ConversionError>, after: HostState)
    requires RunJobs(w, st0, converterBin, done) == (results, before)
    requires (r, after) == ConvertSpec(w, before, converterBin, job.src, job.dest)
    ensures RunJobs(w, st0, converterBin, done + [job]) == (results + [r], after)
  {
    assert (done + [job])[..|done|] == done;
  }

  /** Running two batches of jobs one after the other is running their concatenation. */
  lemma {:induction false} RunJobsAppend(w: World, st: HostState, converterBin: string, js1: seq<Job>, js2: seq<Job>)
    ensures var (rs1, st1) := RunJobs(w, st, converterBin, js1);
            var (rs2, st2) := RunJobs(w, st1, converterBin, js2);
            RunJobs(w, st, converterBin, js1 + js2) == (rs1 + rs2, st2)
    decreases |js2|
  {
    var (rs1, st1) := RunJobs(w, st, converterBin, js1);
    if js2 == [] {
      assert js1 + js2 == js1;
      assert rs1 + [] == rs1;
    } else {
      var n := |js2| - 1;
      RunJobsAppend(w, st, converterBin, js1, js2[..n]);
      var (rs2', st2') := RunJobs(w, st1, converterBin, js2[..n]);
      var (r, st2) := ConvertSpec(w, st2', converterBin, js2[n].src, js2[n].dest);
      RunJobsStep(w, st, converterBin, js1 + js2[..n], rs1 + rs2', st2', js2[n], r, st2);
      assert (js1 + js2[..n]) + [js2[n]] == js1 + js2;
      assert (rs1 + rs2') + [r] == rs1 + (rs2' + [r]);
    }
  }

  /** A batch's first result is that of `convert` on its first job. */
  lemma FirstResult(w: World, st: HostState, converterBin: string, jobs: seq<Job>)
    requires jobs != []
    ensures RunJobs(w, st, converterBin, jobs).0[0] == ConvertSpec(w, st, converterBin, jobs[0].src, jobs[0].dest).0
  {
    RunJobsStep(w, st, converterBin, [], [], st, jobs[0], ConvertSpec(w, st, converterBin, jobs[0].src, jobs[0].dest).0,
                ConvertSpec(w, st, converterBin, jobs[0].src, jobs[0].dest).1);
    RunJobsAppend(w, st, converterBin, [jobs[0]], jobs[1..]);
    assert [jobs[0]] + jobs[1..] == jobs;
  }

  /**
   * Jobs run in the order received, and a failed job does not stop the ones
   * after it: the i-th result is that of `convert` on the i-th job, run from
   * the state the jobs before it left, whatever their results.
   */
  lemma JobsRunInOrder(w: World, st: HostState, converterBin: string, jobs: seq<Job>, i: nat)
    requires i < |jobs|
    ensures var before := RunJobs(w, st, converterBin, jobs[..i]).1;
            RunJobs(w, st, converterBin, jobs).0[i] == ConvertSpec(w, before, converterBin, jobs[i].src, jobs[i].dest).0
  {
    assert jobs == jobs[..i] + jobs[i..];
    RunJobsAppend(w, st, converterBin, jobs[..i], jobs[i..]);
    FirstResult(w, RunJobs(w, st, converterBin, jobs[..i]).1, converterBin, jobs[i..]);
  }

  /**
   * `states` and `results` trace a run of `jobs`: the i-th job's result and
   * the state after it are those of `convert` started from the state before it.
   */
  ghost predicate Trace(w: World, converterBin: string, jobs: seq<Job>,
                        states: seq<HostState>, results: seq<Result<(), ConversionError>>)
  {
    && |states| == |jobs| + 1 && |results| == |jobs|
    && forall i {:trigger ConvertSpec(w, states[i], converterBin, jobs[i].src, jobs[i].dest)} :: 0 <= i < |jobs| ==>
         (results[i], states[i + 1]) == ConvertSpec(w, states[i], converterBin, jobs[i].src, jobs[i].dest)
  }

  /** A trace is the run `RunJobs` describes. */
  lemma {:induction false} TraceIsRunJobs(w: World, converterBin: string, jobs: seq<Job>,
                                          states: seq<HostState>, results: seq<Result<(), ConversionError>>)
    requires Trace(w, converterBin, jobs, states, results)
    ensures RunJobs(w, states[0], converterBin, jobs) == (results, states[|jobs|])
    decreases |jobs|
  {
    if jobs != [] {
      var n := |jobs| - 1;
      TraceIsRunJobs(w, converterBin, jobs[..n], states[..n + 1], results[..n]);
      RunJobsStep(w, states[0], converterBin, jobs[..n], results[..n], states[n], jobs[n], results[n], states[n + 1]);
      assert jobs[..n] + [jobs[n]] == jobs;
      assert results[..n] + [results[n]] == results;
    }
  }

  /** The worker's progress: the jobs done so far form a trace and the log holds their warnings. */
  ghost predicate Progress(w: World, converterBin: string, done: seq<Job>, states: seq<HostState>,
                           results: seq<Result<(), ConversionError>>, log: seq<string>)
  {
    Trace(w, converterBin, done, states, results) && log == Warnings(results)
  }

  /** What the worker loop leaves is what `RunJobs` computes from the queued jobs. */
  lemma WorkerLoopRunsJobs(w: World, converterBin: string, jobs: seq<Job>,
                           states: seq<HostState>, results: seq<Result<(), ConversionError>>, log: seq<string>)
    requires Progress(w, converterBin, jobs, states, results, log)
    ensures var (rs, st) := RunJobs(w, states[0], converterBin, jobs);
            rs == results && st == states[|states| - 1] && log == Warnings(rs)
  {
    TraceIsRunJobs(w, converterBin, jobs, states, results);
  }

  /** Commands the worker's effects are assumed to have: a successful unzip leaves the marker. */
  ghost predicate UnzipCompletesRendition(w: World) {
    forall n, dest, archive, fs ::
      w(n, UnzipInvocation(dest, archive), fs).outcome == Exited(Code(0)) ==>
        CheckCacheAvailability(w(n, UnzipInvocation(dest, archive), fs).fs, dest)
  }

  /** rm changes nothing but the path it is given. */
  ghost predicate RmTouchesOnlyItsArgument(w: World) {
    forall n, p, fs, q :: q in fs && q != p ==>
      q in w(n, RmInvocation(p), fs).fs && w(n, RmInvocation(p), fs).fs[q] == fs[q]
  }

  /** The temporary EPUB is never the marker file. */
  lemma ArchiveIsNotMarker(dest: string)
    ensures TempArchive(dest) != CheckerPath(dest)
  {
    CheckerPathInside(dest);
    var marker := CheckerPath(dest);
    if FileName(dest).Some? {
      SetExtensionResult(dest, "epub");
      assert TempArchive(dest)[|TempArchive(dest)| - 1] == 'b';
      assert marker[|marker| - 1] == 'l';
    } else {
      PushRelative(dest, ReaderCheckerFile);
      assert |marker| > |dest|;
    }
  }

  /**
   * A second job for the same rendition directory, queued behind one that
   * succeeded, finds the marker and launches nothing, provided unzip leaves
   * the marker when it succeeds and rm removes only its argument.
   */
  lemma SecondJobForSameDestinationIsNoOp(w: World, st: HostState, converterBin: string, src1: string, src2: string, dest: string)
    requires UnzipCompletesRendition(w) && RmTouchesOnlyItsArgument(w)
    requires ConvertSpec(w, st, converterBin, src1, dest).0.Ok?
    ensures var st1 := ConvertSpec(w, st, converterBin, src1, dest).1;
            ConvertSpec(w, st1, converterBin, src2, dest) == (Ok(()), st1)
  {
    var st1 := ConvertSpec(w, st, converterBin, src1, dest).1;
    if !CheckCacheAvailability(st.fs, dest) {
      var epub := if IsEpubSource(src1) then src1 else TempArchive(dest);
      var before := if IsEpubSource(src1) then st else ConvertToEpubSpec(w, st, converterBin, src1, epub).1;
      var (o, afterUnzip) := Exec(w, before, UnzipInvocation(dest, epub));
      assert o == Exited(Code(0));
      assert CheckCacheAvailability(afterUnzip.fs, dest);
      if !IsEpubSource(src1) {
        ArchiveIsNotMarker(dest);
        var reply := w(|afterUnzip.history|, RmInvocation(epub), afterUnzip.fs);
        assert CheckerPath(dest) in reply.fs && reply.fs[CheckerPath(dest)] == afterUnzip.fs[CheckerPath(dest)];
      }
    }
  }

  /**
   * A host where every command succeeds: the converter writes its target,
   * unzip writes the rendition's marker and rm deletes its argument.
   */
  function FakeCommands(): World {
    (n: nat, inv: Invocation, fs: FileSystem) =>
      Reply(Exited(Code(0)),
        if inv.program == "unzip" && |inv.args| == 3 then fs[CheckerPath(inv.args[1]) := File([])]
        else if inv.program == "rm" && |inv.args| == 1 then fs - {inv.args[0]}
        else if |inv.args| >= 2 then fs[inv.args[1] := File([])]
        else fs)
  }

  lemma FakeConverter(st: HostState, converterBin: string, src: string, epub: string)
    requires converterBin != "unzip" && converterBin != "rm"
    ensures var inv := ConverterInvocation(converterBin, src, epub);
            Exec(FakeCommands(), st, inv) == (Exited(Code(0)), HostState(st.fs[epub := File([])], st.history + [inv]))
  {
  }

  lemma FakeUnzip(st: HostState, dest: string, archive: string)
    ensures var inv := UnzipInvocation(dest, archive);
            Exec(FakeCommands(), st, inv) == (Exited(Code(0)), HostState(st.fs[CheckerPath(dest) := File([])], st.history + [inv]))
  {
  }

  lemma FakeRm(st: HostState, archive: string)
    ensures var inv := RmInvocation(archive);
            Exec(FakeCommands(), st, inv) == (Exited(Code(0)), HostState(st.fs - {archive}, st.history + [inv]))
  {
  }

  /**
   * On that host a job whose source is not an EPUB runs its whole plan,
   * leaves the rendition ready and no temporary EPUB behind.
   */
  lemma FakeHostRunsWholePlan(st: HostState, converterBin: string, src: string, dest: string)
    requires !CheckCacheAvailability(st.fs, dest) && !IsEpubSource(src)
    requires converterBin != "unzip" && converterBin != "rm"
    ensures var (r, st') := ConvertSpec(FakeCommands(), st, converterBin, src, dest);
            && r == Ok(())
            && st'.history == st.history + Plan(converterBin, src, dest)
            && CheckCacheAvailability(st'.fs, dest)
            && TempArchive(dest) !in st'.fs
  {
    var w, epub := FakeCommands(), TempArchive(dest);
    var marker := CheckerPath(dest);
    ArchiveIsNotMarker(dest);
    var conv := ConverterInvocation(converterBin, src, epub);
    var st1 := HostState(st.fs[epub := File([])], st.history + [conv]);
    FakeConverter(st, converterBin, src, epub);
    var unzip := UnzipInvocation(dest, epub);
    var st2 := HostState(st1.fs[marker := File([])], st1.history + [unzip]);
    FakeUnzip(st1, dest, epub);
    var rm := RmInvocation(epub);
    var st3 := HostState(st2.fs - {epub}, st2.history + [rm]);
    FakeRm(st2, epub);
    assert DeflateSpec(w, st1, dest, epub, true) == (Ok(()), st3);
    assert st3.history == st.history + [conv, unzip, rm];
  }

  lemma ExampleArchive()
    ensures TempArchive("/cache/123") == "/cache/123.epub"
  {
    assert "/cache/" + "123" == "/cache/123";
    LastIndexOfUnique("123", '.', -1);
    SetExtensionAfterSeparator("/cache/", "123", "epub");
  }

  /**
   * The job ("/data/123/book.mobi", "/cache/123") on that host converts to
   * "/cache/123.epub", unzips it into "/cache/123", removes it, and leaves the
   * rendition ready with no temporary EPUB behind.
   */
  lemma MobiJobExample(st: HostState)
    requires !CheckCacheAvailability(st.fs, "/cache/123")
    ensures var (r, st') := ConvertSpec(FakeCommands(), st, "ebook-convert", "/data/123/book.mobi", "/cache/123");
            && r == Ok(())
            && st'.history == st.history + [
                 Invocation("ebook-convert", ["/data/123/book.mobi", "/cache/123.epub",
                                              "--no-default-epub-cover", "--output-profile", "tablet"]),
                 Invocation("unzip", ["-d", "/cache/123", "/cache/123.epub"]),
                 Invocation("rm", ["/cache/123.epub"])]
            && CheckCacheAvailability(st'.fs, "/cache/123")
            && "/cache/123.epub" !in st'.fs
  {
    ExampleArchive();
    assert !IsEpubSource("/data/123/book.mobi");
    FakeHostRunsWholePlan(st, "ebook-convert", "/data/123/book.mobi", "/cache/123");
  }
}
