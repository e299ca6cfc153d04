/**
 * The machine the worker runs on: a file system and the external commands
 * it launches. What a command does is not modelled; a `World` answers each
 * launch with an outcome and the file system the command leaves behind.
 */
module Host {

  newtype byte = x: int | 0 <= x < 256

  datatype FsEntry = File(data: seq<byte>) | Directory

  /** Every existing path and what is there; a missing key is a missing path. */
  type FileSystem = map<string, FsEntry>

  /** `std::process::ExitStatus` on Unix: an exit code, or the signal that ended the process. */
  datatype ExitStatus = Code(code: int) | Signal(signal: int) {
    /** `ExitStatus::success`: exit code zero. */
    predicate Success() {
      this == Code(0)
    }
  }

  /** An `io::Error`, reduced to the text its `Display` prints. */
  datatype IoError = IoError(message: string)

  /** What `Command::status()` returns. */
  datatype Outcome = LaunchFailed(error: IoError) | Exited(status: ExitStatus)

  /** A command line: the program and its arguments. */
  datatype Invocation = Invocation(program: string, args: seq<string>)

  datatype Reply = Reply(outcome: Outcome, fs: FileSystem)

  /**
   * How the outside world answers the `n`-th launch of `inv` on file system
   * `fs`: the outcome, and the file system the process leaves if it ran.
   */
  type World = (nat, Invocation, FileSystem) -> Reply

  datatype HostState = HostState(fs: FileSystem, history: seq<Invocation>)

  /**
   * Launching `inv`: it is recorded as the next command; a process that could
   * not be launched changes no file.
   */
  function Exec(w: World, st: HostState, inv: Invocation): (res: (Outcome, HostState))
    ensures res.1.history == st.history + [inv]
    ensures res.0.LaunchFailed? ==> res.1.fs == st.fs
  {
    var reply := w(|st.history|, inv, st.fs);
    (reply.outcome, HostState(if reply.outcome.LaunchFailed? then st.fs else reply.fs, st.history + [inv]))
  }

  /** The host: its file system and the commands launched so far, in order. */
  class Machine {
    var fs: FileSystem
    var history: seq<Invocation>
    const world: World

    constructor (world: World, fs: FileSystem)
      ensures this.world == world && this.fs == fs && history == []
    {
      this.world := world;
      this.fs := fs;
      history := [];
    }

    function State(): HostState
      reads this
    {
      HostState(fs, history)
    }

    /** `Command::new(program).args(args).status()` */
    method Run(inv: Invocation) returns (outcome: Outcome)
      modifies this
      ensures (outcome, State()) == Exec(world, old(State()), inv)
    {
      var res := Exec(world, State(), inv);
      outcome := res.0;
      fs, history := res.1.fs, res.1.history;
    }
  }
}
