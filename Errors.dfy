/** The error type of the DNS core and its user-facing rendering. */
module Errors {
  import opened Text

  datatype DnsError =
    | InvalidIpAddress(ip: string)
    | CommandFailed(command: string, stderr: string)
    | AdapterNotFound
    | PermissionDenied
    | Timeout
    | ParseError(msg: string)
    | Other(msg: string)

  /** An operating-system I/O error, seen only through its rendered text. */
  datatype IoError = IoError(text: string)

  /** The `Display` rendering of an error. */
  function Message(e: DnsError): (m: string)
    ensures e.Other? ==> m == e.msg
    ensures !e.Other? ==> m != []
  {
    match e
    case InvalidIpAddress(ip) => "Invalid IP address: " + ip
    case CommandFailed(command, stderr) => "Command '" + command + "' failed: " + stderr
    case AdapterNotFound => "Network adapter not found"
    case PermissionDenied => "Permission denied. Please run as administrator."
    case Timeout => "Operation timed out"
    case ParseError(msg) => "Parse error: " + msg
    case Other(msg) => msg
  }

  /** `From<io::Error>`: every I/O error becomes `Other` carrying its text. */
  function FromIoError(err: IoError): (e: DnsError)
    ensures e.Other? && Message(e) == err.text
  {
    Other(err.text)
  }

  /** The payload of an invalid-address, parse or generic error can be read
      back from the message: such messages are never ambiguous within one variant. */
  lemma MessagePayloadRecoverable(e1: DnsError, e2: DnsError)
    requires (e1.InvalidIpAddress? && e2.InvalidIpAddress?)
          || (e1.ParseError? && e2.ParseError?)
          || (e1.Other? && e2.Other?)
    requires Message(e1) == Message(e2)
    ensures e1 == e2
  {
    if e1.InvalidIpAddress? {
      var h := "Invalid IP address: ";
      assert e1.ip == Message(e1)[|h|..];
      assert e2.ip == Message(e2)[|h|..];
    } else if e1.ParseError? {
      var h := "Parse error: ";
      assert e1.msg == Message(e1)[|h|..];
      assert e2.msg == Message(e2)[|h|..];
    }
  }

  /** Each data-carrying message starts with a header that names its variant
      and ends with the data it carries. */
  lemma MessageFraming(e: DnsError)
    ensures e.InvalidIpAddress? ==>
      StartsWith(Message(e), "Invalid IP address: ") && Message(e)[20..] == e.ip
    ensures e.ParseError? ==>
      StartsWith(Message(e), "Parse error: ") && Message(e)[13..] == e.msg
    ensures e.CommandFailed? ==>
      StartsWith(Message(e), "Command '" + e.command + "' failed: ")
      && Message(e)[|e.command| + 19..] == e.stderr
  {
  }

  /** The three data-free variants render three distinct fixed texts. */
  lemma FixedMessagesDistinct()
    ensures Message(AdapterNotFound) != Message(PermissionDenied)
    ensures Message(AdapterNotFound) != Message(Timeout)
    ensures Message(PermissionDenied) != Message(Timeout)
  {
    assert |Message(AdapterNotFound)| == 25;
    assert |Message(PermissionDenied)| == 47;
    assert |Message(Timeout)| == 19;
  }

  /** Across variants the rendering is not injective: an `Other` can carry
      any other error's text verbatim and then reads exactly like it. */
  lemma OtherImpersonates(e: DnsError)
    ensures Message(Other(Message(e))) == Message(e)
  {
  }

  /** Nor within `CommandFailed`: a command that itself contains
      "' failed: " makes two different errors read the same. */
  lemma CommandFailedAmbiguous()
    ensures CommandFailed("a' failed: b", "c") != CommandFailed("a", "b' failed: c")
    ensures Message(CommandFailed("a' failed: b", "c")) == Message(CommandFailed("a", "b' failed: c"))
  {
  }
}
