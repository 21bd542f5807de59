/** The console-process library both front ends drive, seen from outside: what a running process
    reports, what the front ends ask of the library, and the exceptions they throw. */
module ConsoleApp {
  import opened Wrappers

  /** What the console process reports: a line on its standard output or standard error, or
      its exit with the exit code it read. */
  datatype Event =
    | Line(text: string, isError: bool)
    | Exited(code: Option<int>)

  /** Requests made to the library: start `exePath` with `cmdLine`, stop the process (break,
      then force after `timeout` milliseconds), release the process. */
  datatype Effect =
    | Spawn(exePath: string, cmdLine: string)
    | Stop(timeout: int)
    | Release

  /** Exceptions thrown to the caller. */
  datatype Error =
    | ObjectDisposed
    | InvalidOperation
    | LoadFailed(path: string)

  /** `Timeout.Infinite`. */
  const Infinite: int := -1
}
