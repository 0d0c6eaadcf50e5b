/** The adapter listing: one PowerShell script reports every adapter that
    is up as JSON, and each record becomes a `NetworkAdapter`. Failures
    never surface as errors; they become a single placeholder record. */
module Adapters {
  import opened Text
  import opened Shell

  /** What the user interface shows for one adapter. */
  datatype NetworkAdapter = NetworkAdapter(
    name: string,
    status: string,
    macAddress: string,
    ipAddresses: seq<string>,
    dnsServers: seq<string>)

  /** One record of the script's JSON output (fields `Name`, `Status`,
      `MacAddress`, `IPAddress`, `DNSServers`). */
  datatype AdapterJson = AdapterJson(
    name: string,
    status: string,
    macAddress: string,
    ipAddress: string,
    dnsServers: string)

  /** The JSON decoder, as seen by the core: reading the text as an array of
      records, and reading it as a single record. Either may fail. */
  datatype JsonDecoder = JsonDecoder(
    decodeArray: string -> Option<seq<AdapterJson>>,
    decodeObject: string -> Option<AdapterJson>)

  const Missing := "N/A"
  const NoAddressText := "Не назначен"
  const NoServersText := "Не настроен"
  const ParseFailedName := "Ошибка парсинга"
  const CommandFailedName := "Ошибка выполнения команды"
  const ServerSeparator := ", "

  const AdaptersCommand :=
    "Get-NetAdapter | Where-Object { $_.Status -eq 'Up' } | ForEach-Object {\n"
    + "    $adapter = $_\n"
    + "    $ip_info = Get-NetIPAddress -InterfaceAlias $adapter.Name -AddressFamily IPv4 | Select-Object -First 1\n"
    + "    $dns_info = Get-DnsClientServerAddress -InterfaceAlias $adapter.Name -AddressFamily IPv4\n"
    + "\n"
    + "    [PSCustomObject]@{\n"
    + "        Name = $adapter.Name\n"
    + "        Status = $adapter.Status.ToString()\n"
    + "        MacAddress = $adapter.MacAddress\n"
    + "        IPAddress = if ($ip_info) { $ip_info.IPAddress } else { \"N/A\" }\n"
    + "        DNSServers = if ($dns_info.ServerAddresses) { $dns_info.ServerAddresses -join \", \" } else { \"N/A\" }\n"
    + "    }\n"
    + "} | ConvertTo-Json"

  /** The interpreter this module's command runner picks: `cmd.exe` for
      anything mentioning ipconfig or netsh, PowerShell otherwise. */
  function InterpreterFor(command: string): (i: Interpreter)
    ensures i == Cmd <==> Contains(command, "ipconfig") || Contains(command, "netsh")
    ensures i != PowerShellWithProfile
  {
    if Contains(command, "ipconfig") || Contains(command, "netsh") then Cmd else PowerShell
  }

  /** `run_powershell_command` of the adapter module: the trimmed output on
      success, the generic message on any failure of a process that ran,
      the launch message when it could not start. */
  function RunCommand(sys: System, command: string): (r: Result<string, string>)
    ensures sys(InterpreterFor(command), command).LaunchFailed? ==>
      r == Err(LaunchErrorMessage(sys(InterpreterFor(command), command).permissionDenied,
                                  sys(InterpreterFor(command), command).reason))
    ensures sys(InterpreterFor(command), command).Exited? ==>
      (r.Ok? <==> sys(InterpreterFor(command), command).success)
      && (r.Ok? ==> r.value == Trim(sys(InterpreterFor(command), command).stdout))
      && (r.Err? ==> r.error == CommandFailedText)
  {
    match sys(InterpreterFor(command), command)
    case LaunchFailed(denied, reason) => Err(LaunchErrorMessage(denied, reason))
    case Exited(success, stdout, _) => if success then Ok(Trim(stdout)) else Err(CommandFailedText)
  }

  /** Unlike the DNS module's runner, this one never looks at standard error
      at all: two runs that differ only there give the same result. */
  lemma RunCommandIgnoresStderr(sys1: System, sys2: System, command: string, success: bool, out: string, e1: string, e2: string)
    requires sys1(InterpreterFor(command), command) == Exited(success, out, e1)
    requires sys2(InterpreterFor(command), command) == Exited(success, out, e2)
    ensures RunCommand(sys1, command) == RunCommand(sys2, command)
  {
  }

  /** Typed decoding: an array of records, or failing that a single record
      taken as a one-element list. */
  function DecodeAdapters(json: JsonDecoder, text: string): (r: Option<seq<AdapterJson>>)
    ensures json.decodeArray(text).Some? ==> r == json.decodeArray(text)
    ensures json.decodeArray(text).None? ==>
      (r.Some? <==> json.decodeObject(text).Some?)
      && (r.Some? ==> r.value == [json.decodeObject(text).value])
  {
    match json.decodeArray(text)
    case Some(list) => Some(list)
    case None =>
      match json.decodeObject(text)
      case Some(single) => Some([single])
      case None => None
  }

  /** One JSON record as an adapter: the address list holds the address, or
      the "not assigned" text when it is "N/A"; the server list is the text
      cut at ", ", or the "not configured" text when it is "N/A". */
  function ToAdapter(j: AdapterJson): (a: NetworkAdapter)
    ensures a.name == j.name && a.status == j.status && a.macAddress == j.macAddress
    ensures |a.ipAddresses| == 1 && |a.dnsServers| >= 1
    ensures j.ipAddress != Missing ==> a.ipAddresses == [j.ipAddress]
    ensures j.ipAddress == Missing ==> a.ipAddresses == [NoAddressText]
    ensures j.dnsServers != Missing ==> a.dnsServers == Split(j.dnsServers, ServerSeparator)
    ensures j.dnsServers == Missing ==> a.dnsServers == [NoServersText]
  {
    NetworkAdapter(
      j.name,
      j.status,
      j.macAddress,
      if j.ipAddress != Missing then [j.ipAddress] else [NoAddressText],
      if j.dnsServers != Missing then Split(j.dnsServers, ServerSeparator) else [NoServersText])
  }

  /** The record an adapter came from, read back from what is displayed. */
  function ToJson(a: NetworkAdapter): AdapterJson
    requires |a.ipAddresses| == 1
  {
    AdapterJson(a.name, a.status, a.macAddress, a.ipAddresses[0], Join(a.dnsServers, ServerSeparator))
  }

  /** Nothing of a record with an address and servers is lost: the server
      list joins back to the text it was cut from, and it is cut at every
      ", ", so no entry still holds one. */
  lemma ToAdapterReadBack(j: AdapterJson)
    requires j.ipAddress != Missing && j.dnsServers != Missing
    ensures ToJson(ToAdapter(j)) == j
    ensures forall k :: 0 <= k < |ToAdapter(j).dnsServers| ==> !Contains(ToAdapter(j).dnsServers[k], ServerSeparator)
  {
    JoinSplit(j.dnsServers, ServerSeparator);
    SplitPiecesAvoidSeparator(j.dnsServers, ServerSeparator);
  }

  /** A placeholder record: the given name, "N/A" everywhere else. */
  function Placeholder(name: string): (a: NetworkAdapter)
    ensures a.name == name && a.status == Missing && a.macAddress == Missing
    ensures a.ipAddresses == [Missing] && a.dnsServers == [Missing]
  {
    NetworkAdapter(name, Missing, Missing, [Missing], [Missing])
  }

  /** `get_network_adapters`. */
  function GetNetworkAdapters(sys: System, json: JsonDecoder): (r: seq<NetworkAdapter>)
    ensures RunCommand(sys, AdaptersCommand).Err? ==> r == [Placeholder(CommandFailedName)]
    ensures RunCommand(sys, AdaptersCommand).Ok? && DecodeAdapters(json, RunCommand(sys, AdaptersCommand).value).None?
      ==> r == [Placeholder(ParseFailedName)]
  {
    match RunCommand(sys, AdaptersCommand)
    case Err(_) => [Placeholder(CommandFailedName)]
    case Ok(text) =>
      match DecodeAdapters(json, text)
      case None => [Placeholder(ParseFailedName)]
      case Some(records) => seq(|records|, k requires 0 <= k < |records| => ToAdapter(records[k]))
  }

  /** When the output decodes, the listing has one adapter per record, in
      the records' order, each one the record's conversion; so every
      adapter with an address and servers gives its record back. */
  lemma AdaptersFollowRecords(sys: System, json: JsonDecoder)
    requires RunCommand(sys, AdaptersCommand).Ok?
    requires DecodeAdapters(json, RunCommand(sys, AdaptersCommand).value).Some?
    ensures var records := DecodeAdapters(json, RunCommand(sys, AdaptersCommand).value).value;
      var r := GetNetworkAdapters(sys, json);
      |r| == |records|
      && (forall k :: 0 <= k < |r| ==> r[k] == ToAdapter(records[k]))
      && (forall k :: 0 <= k < |r| && records[k].ipAddress != Missing && records[k].dnsServers != Missing
            ==> ToJson(r[k]) == records[k])
  {
    var records := DecodeAdapters(json, RunCommand(sys, AdaptersCommand).value).value;
    forall k | 0 <= k < |records| && records[k].ipAddress != Missing && records[k].dnsServers != Missing
      ensures ToJson(ToAdapter(records[k])) == records[k]
    {
      ToAdapterReadBack(records[k]);
    }
  }

  /** Every adapter shown has exactly one address entry and at least one
      server entry, whatever the machine and the decoder produce. */
  lemma AdaptersWellShaped(sys: System, json: JsonDecoder)
    ensures forall a :: a in GetNetworkAdapters(sys, json) ==> |a.ipAddresses| == 1 && |a.dnsServers| >= 1
  {
  }

  /** An empty JSON array is the only way to get an empty listing. */
  lemma EmptyListingOnlyFromEmptyArray(sys: System, json: JsonDecoder)
    ensures GetNetworkAdapters(sys, json) == [] <==>
      RunCommand(sys, AdaptersCommand).Ok?
      && DecodeAdapters(json, RunCommand(sys, AdaptersCommand).value) == Some([])
  {
  }
}
