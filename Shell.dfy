/** How the DNS core launches external programs. A launch is an oracle: the
    model never runs anything, it only describes what it does with whatever
    the operating system hands back. */
module Shell {
  import opened Text

  /** The programs a command line is handed to: PowerShell started with
      `-NoProfile -NonInteractive -Command`, PowerShell started with only
      `-Command` (profile loaded), and `cmd.exe /C`. */
  datatype Interpreter = PowerShell | PowerShellWithProfile | Cmd

  /** What starting a process yields: it could not be started (the I/O error's
      kind is reduced to "permission denied or not", its rendering kept as
      text), or it ran to its end with an exit status and its captured output,
      decoded as lossy UTF-8. */
  datatype Launch =
    | LaunchFailed(permissionDenied: bool, reason: string)
    | Exited(success: bool, stdout: string, stderr: string)

  /** The operating system, as seen by the core: which command line, given to
      which interpreter, leads to which outcome. */
  type System = (Interpreter, string) -> Launch

  const PermissionDeniedText := "Permission denied. " + "Please run as administrator."
  const LaunchFailedHeader := "Failed to execute command: "
  const CommandFailedText := "Command execution failed"

  /** The message every command runner gives when the process cannot be
      started: a fixed advice when the OS refused permission, otherwise the
      I/O error after a fixed header. */
  function LaunchErrorMessage(permissionDenied: bool, reason: string): (m: string)
    ensures permissionDenied ==> m == PermissionDeniedText
    ensures !permissionDenied ==> StartsWith(m, LaunchFailedHeader) && m[|LaunchFailedHeader|..] == reason
  {
    if permissionDenied then PermissionDeniedText else LaunchFailedHeader + reason
  }

  /** The two launch-error messages can never be confused with the generic
      failure of a process that did start, nor with each other. */
  lemma LaunchErrorsDistinct(reason: string)
    ensures LaunchErrorMessage(true, reason) != CommandFailedText
    ensures LaunchErrorMessage(false, reason) != CommandFailedText
    ensures LaunchErrorMessage(false, reason) != LaunchErrorMessage(true, reason)
  {
    var m := LaunchErrorMessage(false, reason);
    assert m[0] == 'F';
    assert CommandFailedText[0] == 'C';
    assert PermissionDeniedText[0] == 'P';
  }
}
