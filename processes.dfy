/** `ProcessModel`: one managed path and the job, if any, that was last
    started for it. The job (a `WinJobster.Job`, which places the process and
    everything it spawns in one Windows job object) is seen only through what
    the model asks of it: it is started on a command line in a working
    directory, it reports whether it is alive, and `terminate` ends it. */
module Processes {
  import opened Wrappers
  import opened OpenCommand

  /** A job as the model sees it: the command and working directory
      `start_process` was given and the alive flag that `start_process` sets
      and `terminate` clears. */
  datatype Job = Job(command: string, workingDirectory: string, alive: bool)

  /** `ProcessModel.is_alive`: the job's flag, and false when there is no job. */
  predicate Alive(process: Option<Job>)
    ensures Alive(process) ==> process.Some?
  {
    process.Some? && process.value.alive
  }

  /** The state after `kill`: the job, if there is one, is terminated. */
  function Killed(process: Option<Job>): (r: Option<Job>)
    ensures !Alive(r)
    ensures r.None? <==> process.None?
    ensures r.Some? ==> r.value.command == process.value.command
                        && r.value.workingDirectory == process.value.workingDirectory
  {
    match process
    case None => None
    case Some(job) => Some(job.(alive := false))
  }

  /** The job `run` starts: on the expanded command, or on the path itself
      when the expansion is `None` or empty, in the path's directory. */
  function Launched(host: Host, path: string): (job: Job)
    ensures job.alive
    ensures job.command == Executable(host, path)
    ensures job.workingDirectory == host.dirName(path)
  {
    Job(Executable(host, path), host.dirName(path), true)
  }

  /** The state after the `is_alive` setter is given `value`. */
  function AfterSetAlive(process: Option<Job>, value: bool, host: Host, path: string): (r: Option<Job>)
    ensures Alive(r) == value
    ensures value == Alive(process) ==> r == process
    ensures value && !Alive(process) ==> r == Some(Launched(host, path))
    ensures !value && Alive(process) ==> r == Killed(process)
  {
    if value == Alive(process) then process
    else if value then Some(Launched(host, path))
    else Killed(process)
  }

  /** The state after `toggle`. */
  function AfterToggle(process: Option<Job>, host: Host, path: string): (r: Option<Job>)
    ensures Alive(r) == !Alive(process)
    ensures Alive(process) ==> r == Killed(process)
    ensures !Alive(process) ==> r == Some(Launched(host, path))
  {
    if Alive(process) then Killed(process) else Some(Launched(host, path))
  }

  /** Giving the setter the same value twice has the effect of giving it once. */
  lemma SetAliveIdempotent(process: Option<Job>, value: bool, host: Host, path: string)
    ensures AfterSetAlive(AfterSetAlive(process, value, host, path), value, host, path)
            == AfterSetAlive(process, value, host, path)
  {
  }

  /** `toggle` is the setter given the negation of the current state. */
  lemma ToggleIsSetAliveNegated(process: Option<Job>, host: Host, path: string)
    ensures AfterToggle(process, host, path) == AfterSetAlive(process, !Alive(process), host, path)
  {
  }

  /** Two toggles give back the original liveness; from a live job they leave
      a freshly launched one. */
  lemma ToggleTwice(process: Option<Job>, host: Host, path: string)
    ensures Alive(AfterToggle(AfterToggle(process, host, path), host, path)) == Alive(process)
    ensures Alive(process) ==> AfterToggle(AfterToggle(process, host, path), host, path)
                               == Some(Launched(host, path))
  {
  }

  class ProcessModel {
    const path: string
    var process: Option<Job>

    constructor (path: string)
      ensures this.path == path && process == None
    {
      this.path := path;
      process := None;
    }

    /** `is_alive`: never true without a job. */
    predicate IsAlive()
      reads this
      ensures process.None? ==> !IsAlive()
    {
      Alive(process)
    }

    method Kill()
      modifies this
      ensures process == Killed(old(process))
    {
      if process.Some? {
        process := Some(process.value.(alive := false));
      }
    }

    method Run(host: Host)
      modifies this
      ensures process == Some(Launched(host, path))
    {
      var program := GetProgramForFile(host, path);
      var executable := if program.Some? && program.value != "" then program.value else path;
      process := Some(Job(executable, host.dirName(path), true));
    }

    /** The `is_alive` setter. */
    method SetAlive(value: bool, host: Host)
      modifies this
      ensures process == AfterSetAlive(old(process), value, host, path)
    {
      if value == IsAlive() {
        return;
      }
      if value {
        Run(host);
      } else {
        Kill();
      }
    }

    method Toggle(host: Host)
      modifies this
      ensures process == AfterToggle(old(process), host, path)
    {
      if IsAlive() {
        Kill();
      } else {
        Run(host);
      }
    }
  }
}
