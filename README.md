# dns-manager core in Dafny

This project models the logic behind a Windows DNS switcher. The switcher offers a fixed catalog of public
DNS providers. It can read the DNS servers the machine currently uses, set both servers on every
adapter that is up, and list the network adapters. It measures each provider's latency in two ways: an
incremental speed test stepped by the window's frame loop, and a background speed test whose progress
the window polls.

Every address typed by the user, or taken from the catalog, goes through an IP validator and a
character filter before it reaches a PowerShell command line. The model proves what that gate
guarantees. It also proves what the text processing around the external commands computes (server
lists, the DHCP label, the `ipconfig /all` fallback parser, adapter records), and what the two
speed-test state machines compute: per-provider averages over the samples that are present, and a
stable ranking with missing averages last.

Modules, one per source file plus two shared ones:

- `Text`: the parts of Rust's `str` API the code relies on. This covers `trim`, `contains`,
  `split`, `split_whitespace`, `lines`, `join` and `parse::<f64>` for plain decimals.
- `Errors` models `src/error.rs`.
- `Validation` models `src/validation.rs`. It includes the IPv4/IPv6 grammar and canonical
  rendering of `std::net`, written out.
- `Shell` holds the process-launch oracle. A command line given to PowerShell (with or without
  profile) or to `cmd.exe` either fails to launch or exits with a status and its output.
- `Providers` models `src/dns/providers.rs`.
- `Adapters` models `src/network/adapters.rs`.
- `Ranking` holds the averaging and the stable sort that both speed tests share.
- `Manager` models the `DNSManager` speed-test fields and methods of `src/main.rs`.
- `Executor` models `src/executor.rs`.

External programs are never run. Every operation that starts one takes the machine as a parameter
`sys: System`, and the model states what the code does with whatever comes back. The same holds for
JSON decoding (`JsonDecoder`) and for the background probe's time limit (`inTime`). The speed tests
receive their probe as a value `ping`. The predicates `Manager.PingsWith` and `Executor.TimesWith`
tie that value to the real probe, and lemmas bring each side's guarantees across.

Points of the code's behaviour worth knowing before reading the model:

- The latency prober parses one number from the trimmed output of the ping command, with no
  bounds on its value and no other report format.
- The background `start_speed_test` overwrites the state with `Running(0, N)` unconditionally,
  also while a test is already running.
- The background test publishes progress `idx + 1` before probing provider `idx`.
- Reading the current DNS answers `Ok("Автопилот (DHCP): адреса не получены")` whenever `ipconfig`
  runs but lists no server; it fails only when PowerShell gives no usable list and `ipconfig`
  itself fails.
- The adapter record of `adapters.rs` has a name, a status, a MAC address, IP addresses and DNS
  servers; it has no gateway, connection type or online fields.
- The sanitiser keeps the hyphen, so `"1.1.1.1; rm -rf /"` becomes `"1.1.1.1rm-rf"`, while the test
  beside it expects `"1.1.1.1rmrf"`; see Findings.
- There is no DNS rotation scheduler in the files modelled.

## Model

| member | source | states |
|---|---|---|
| Errors.FromIoError | src/error.rs:45-49 | converting an I/O error always gives `Other`, and its message is exactly the error's own text |
| Errors.Message | src/error.rs:24-40 | `Other` renders exactly its own text; every other variant renders a non-empty message |
| Errors.MessagePayloadRecoverable | src/error.rs:24-40 | within `InvalidIpAddress`, `ParseError` or `Other`, equal messages mean equal errors: the payload can be read back from the message |
| Errors.MessageFraming | src/error.rs:27-30 | an invalid-address message is "Invalid IP address: " followed by the address; a parse error's message is "Parse error: " followed by its text; a command failure's message is "Command '" + command + "' failed: " followed by stderr |
| Errors.FixedMessagesDistinct | src/error.rs:31-35 | the three data-free variants render three different fixed texts |
| Errors.OtherImpersonates | src/error.rs:37 | `Other` renders its text verbatim, so it can reproduce any other error's message exactly |
| Errors.CommandFailedAmbiguous | src/error.rs:28-30 | two different `CommandFailed` errors can render the same message when the command contains "' failed: " |
| Shell.LaunchErrorMessage | src/dns/providers.rs:206-212 | a launch refused for lack of permission gives the fixed advice; any other launch error gives the fixed header followed by the error text |
| Shell.LaunchErrorsDistinct | src/dns/providers.rs:206-224 | the two launch-error messages differ from each other and from "Command execution failed" |
| Text.Trim | src/validation.rs:9 | the result is no longer than the input, and is empty or has no whitespace at either end |
| Text.TrimIdempotent | src/validation.rs:9 | trimming twice is trimming once |
| Text.TrimOfTrimmed | src/validation.rs:9 | text with no whitespace at its ends is left unchanged by trimming |
| Text.ContainsIffOccurs | src/dns/providers.rs:189 | `contains` holds exactly when the pattern occurs at some position |
| Text.ContainsJoin | src/dns/providers.rs:102-104 | a pattern sharing no character with the separator occurs in a joined list iff it occurs in one of the items |
| Text.Split | src/network/adapters.rs:69 | splitting always gives at least one piece |
| Text.JoinSplit | src/network/adapters.rs:67-71 | joining the pieces of a split with its separator gives the original text back |
| Text.SplitJoin | src/dns/providers.rs:102 | splitting a join gives back the items when no separator can start inside or across an item |
| Text.SplitAvoidsSeparator | src/dns/providers.rs:128 | no piece of a split on a character contains that character |
| Text.SplitPiecesAvoidSeparator | src/network/adapters.rs:67-71 | no piece of a split on a non-empty separator of any length (", " included) contains that separator |
| Text.ShorterNotContained | src/dns/providers.rs:187-190 | a text shorter than a pattern never contains it |
| Text.SplitPiecesContained | src/dns/providers.rs:133 | each piece of a split occurs in the text that was split |
| Text.SplitWhitespace | src/dns/providers.rs:98 | every word is non-empty and contains no whitespace |
| Text.SplitWhitespaceKeepsText | src/dns/providers.rs:98 | the words, concatenated, are exactly the non-whitespace characters of the text |
| Text.Lines | src/dns/providers.rs:119 | no line contains a newline |
| Text.ParseNumeral | src/dns/providers.rs:77 | the decimal text of a whole number parses as that number |
| Text.DecimalOfNumeral | src/dns/providers.rs:77 | reading the decimal text of a number gives the number back |
| Text.NumeralOfDecimal | src/validation.rs:12 | a digit string without a leading zero is the decimal text of its value |
| Validation.ValidateIpAddress | src/validation.rs:8-16 | rejects exactly the inputs whose trimmed text does not parse; a rejection carries the trimmed input, never a cleaned one |
| Validation.ValidateDnsPair | src/validation.rs:19-23 | succeeds iff both addresses validate, with both canonical texts; when the primary is bad its error is reported, whatever the secondary holds |
| Validation.ParseFormatIp | src/validation.rs:12-13 | the canonical text of every well-formed IPv4 or IPv6 address parses back to that address |
| Validation.ValidateCanonical | src/validation.rs:12-13 | an address's canonical text validates to itself |
| Validation.ValidateIdempotent | src/validation.rs:9-13 | a validated value is the canonical text of the parsed trimmed input, and validating it again returns it unchanged |
| Validation.ValidatedIsShellSafe | src/validation.rs:13 | a validated value consists only of characters the PowerShell filter keeps, so sanitising leaves it unchanged |
| Validation.ValidateSeesTrimmed | src/validation.rs:9 | surrounding whitespace never changes the verdict or the value |
| Validation.ValidateIpv4 | src/validation.rs:12-13 | text parses as the IPv4 address `o` iff it is the canonical dotted-decimal text of `o`, which is then returned as it is |
| Validation.AcceptsCommonAddresses | src/validation.rs:38-43 | "1.1.1.1", "8.8.8.8" and "192.168.1.1" are accepted and returned unchanged |
| Validation.RejectsUnparsable | src/validation.rs:14 | trimmed text that does not parse is rejected with that very text |
| Validation.RejectsIpv4WithSuffix | src/validation.rs:12 | an IPv4 address followed by anything not starting with a digit is not an address |
| Validation.RejectsBadStart | src/validation.rs:12 | text starting with neither a hex digit nor ':' is not an address |
| Validation.RejectsOverflowingOctet | src/validation.rs:12 | a leading three-digit number above 255 followed by '.' is neither IPv4 nor IPv6 |
| Validation.RejectsLargeOctets | src/validation.rs:47 | "999.999.999.999" is rejected, with that text in the error |
| Validation.RejectsTrailingCommand | src/validation.rs:48 | "1.1.1.1; rm -rf /" is rejected as a whole |
| Validation.RejectsWord | src/validation.rs:49 | "malicious" is rejected |
| Validation.SanitizePowershellArg | src/validation.rs:27-32 | the result is never longer than the argument and holds only alphanumerics, '.', ':' and '-' |
| Validation.SanitizeAppend | src/validation.rs:29-31 | sanitising distributes over concatenation: each character is kept or dropped on its own, so the result is the subsequence of allowed characters |
| Validation.SanitizeKeepsArgChars | src/validation.rs:29-31 | text made only of allowed characters passes unchanged |
| Validation.SanitizeIdempotent | src/validation.rs:29-31 | sanitising twice is sanitising once |
| Validation.SanitizeKeepDrop | src/validation.rs:29-31 | allowed text followed by text with no allowed character sanitises to the allowed text |
| Validation.SanitizerExamples | src/validation.rs:52-56 | "1.1.1.1" is kept as it is, and "1.1.1.1; rm -rf /" becomes "1.1.1.1rm-rf" |
| Validation.SanitizerTestExpectation | src/validation.rs:55 | the expected "1.1.1.1rmrf" is not what the filter returns |
| Providers.GetDnsProviders | src/dns/providers.rs:23-62 | the catalog has six providers |
| Providers.CatalogNames | src/dns/providers.rs:23-62 | the catalog lists Cloudflare, Google, Quad9, OpenDNS, AdGuard and CleanBrowsing in that order, no name twice |
| Providers.CatalogValid | src/dns/providers.rs:25-60 | every catalog primary and secondary passes validation and is already its own canonical text |
| Providers.IsDhcpDnsIff | src/dns/providers.rs:187-190 | the heuristic holds iff "192.168.", "10." or "172." occurs somewhere in the text |
| Providers.IsDhcpDns | src/dns/providers.rs:187-190 | a text the heuristic flags as private has at least three characters |
| Providers.ShortTextIsPublic | src/dns/providers.rs:187-190 | a text of fewer than three characters contains none of "192.168.", "10." and "172." |
| Providers.IsDhcpDnsOfJoin | src/dns/providers.rs:102-104 | a ", "-joined server list looks private iff one of its servers does |
| Providers.IsDhcpDnsOrderFree | src/dns/providers.rs:101-104 | lists with the same servers get the same DHCP verdict, whatever order the set yields them in |
| Providers.RunPowershellCommand | src/dns/providers.rs:192-227 | a launch failure gives the launch message; success gives the trimmed stdout; a failed run gives the access-denied message iff trimmed stderr contains "Access is denied", and the generic message otherwise |
| Providers.RunCmdCommand | src/dns/providers.rs:229-256 | a launch failure gives the launch message; success gives the trimmed stdout; a failed run always gives the generic message |
| Providers.FailureHidesStderr | src/dns/providers.rs:220-226 | stderr is never echoed: two failed runs that agree on the access-denied test give the same result |
| Providers.PingDnsServer | src/dns/providers.rs:64-90 | an address that fails validation gives no time; a time is reported only when the ping command on the sanitised address ran successfully |
| Providers.PingCommand | src/dns/providers.rs:71-72 | the command is the fixed `Test-Connection` head, then the host verbatim, then the fixed tail that selects the response time |
| Providers.PingOfOutput | src/dns/providers.rs:64-83 | for every address that validates, a successful run of the ping command on the sanitised address yields exactly the number its trimmed output parses as, and none when it is not a number |
| Providers.PingOfFailedRun | src/dns/providers.rs:74-89 | for every address that validates, a ping command that fails or cannot be started yields no time |
| Providers.PingReportsReply | src/dns/providers.rs:71-79 | for a canonical address, the command names the address verbatim, and a run whose trimmed output is a whole number reports that number |
| Providers.PingRejectsWithoutRunning | src/dns/providers.rs:66-69 | for an invalid address the answer is `None` whatever the machine would do, so no command matters |
| Providers.PingCommandShape | src/dns/providers.rs:71-72 | whatever the input, only allowed characters appear between the fixed parts of the ping command |
| Providers.SetDns | src/dns/providers.rs:157-174 | an invalid primary yields that address's "Invalid IP address" message; a valid primary with an invalid secondary yields the secondary's |
| Providers.SetDnsRunsCanonical | src/dns/providers.rs:159-173 | with both addresses valid, the script run names exactly their canonical texts |
| Providers.SetDnsCommand | src/dns/providers.rs:165-172 | the script starts with the fixed adapter pipeline, the primary follows it verbatim, the secondary stands verbatim just before the fixed closing, and the length is the sum of the pieces |
| Providers.SetDnsCommandInjective | src/dns/providers.rs:167-172 | the script determines the two quote-free addresses it was built from |
| Providers.QuotedPairInjective | src/dns/providers.rs:167-172 | fixed pieces around two quote-free parameters, each followed by a quote, determine the parameters |
| Providers.SetDnsRejectsWithoutRunning | src/dns/providers.rs:159-160 | an invalid pair is an error whatever the machine would do |
| Providers.Dedup | src/dns/providers.rs:101 | the result has no duplicates and exactly the input's members |
| Providers.PsSummary | src/dns/providers.rs:96-111 | the PowerShell path produces an answer iff its output holds at least one whitespace-separated word |
| Providers.TrimmedOutputHasTokens | src/dns/providers.rs:97-99 | the runner's output is trimmed, so when it is non-empty it has at least one word |
| Providers.PsSummaryReadBack | src/dns/providers.rs:98-108 | the answer is the distinct servers joined by ", ", which split back into those servers, with the DHCP label in front iff one of them looks private |
| Providers.IpconfigSummary | src/dns/providers.rs:145-151 | no servers gives the fixed "адреса не получены" text; otherwise the ", "-joined list, after the DHCP label iff a line mentioned DHCP |
| Providers.ScanIpconfig | src/dns/providers.rs:119-143 | the loop collects, in order, the servers of every line, and sets the flag iff some line mentions DHCP-provided servers |
| Providers.ScanLine | src/dns/providers.rs:127-141 | the inner loop collects the line's servers: the trimmed comma-separated pieces between the first and second ':', dropping empty pieces and "0.0.0.0", and nothing if that text is empty or mentions "None" |
| Providers.LineServersReported | src/dns/providers.rs:127-139 | every server taken from a line is non-empty, not "0.0.0.0", trimmed, and free of ',' and ':' (an IPv6 server is cut at its first colon) |
| Providers.ServersOfReported | src/dns/providers.rs:123-143 | every server collected from a whole report has that shape |
| Providers.IpconfigReadBack | src/dns/providers.rs:145-151 | the collected servers, joined by ", ", split back into the same list |
| Providers.CurrentDns | src/dns/providers.rs:92-155 | an error can only be ipconfig's own: the generic message or a launch failure |
| Providers.GetCurrentDns | src/dns/providers.rs:92-155 | the operation with its loops computes exactly `CurrentDns` |
| Providers.CurrentDnsPrefersPowerShell | src/dns/providers.rs:96-111 | when PowerShell lists a server, the answer is exactly the PowerShell summary of that list and does not depend on ipconfig |
| Providers.CurrentDnsFallsBack | src/dns/providers.rs:113-154 | when PowerShell fails or lists nothing, the answer depends on ipconfig alone, and when ipconfig runs it is exactly the summary of the servers and the DHCP mention found in its lines |
| Adapters.InterpreterFor | src/network/adapters.rs:118-119 | commands mentioning "ipconfig" or "netsh" go to cmd.exe, all others to PowerShell without profile |
| Adapters.RunCommand | src/network/adapters.rs:111-165 | a launch failure gives the launch message; a run that exited succeeds iff its status does, with trimmed stdout, and otherwise always gives the generic message |
| Adapters.RunCommandIgnoresStderr | src/network/adapters.rs:133-139 | runs differing only in stderr give the same result |
| Adapters.DecodeAdapters | src/network/adapters.rs:49-54 | an array decode wins; otherwise a single object becomes a one-element list; otherwise nothing |
| Adapters.ToAdapter | src/network/adapters.rs:60-83 | name, status and MAC are copied; "N/A" becomes "Не назначен" / "Не настроен"; any other address becomes a singleton list and any other server text is split on ", " |
| Adapters.ToAdapterReadBack | src/network/adapters.rs:67-74 | for a record with an address and servers, nothing is lost: the record can be rebuilt from the adapter, and no server entry contains ", " |
| Adapters.Placeholder | src/network/adapters.rs:88-94 | the placeholder has the given name and "N/A" in every other field |
| Adapters.GetNetworkAdapters | src/network/adapters.rs:30-109 | a command failure gives exactly the "Ошибка выполнения команды" record; a decode failure gives exactly the "Ошибка парсинга" record |
| Adapters.AdaptersFollowRecords | src/network/adapters.rs:56-84 | on a successful decode there is one adapter per record, in order, each the record's conversion and each reading back to its record |
| Adapters.AdaptersWellShaped | src/network/adapters.rs:58-107 | every adapter listed has exactly one address entry and at least one server entry |
| Adapters.EmptyListingOnlyFromEmptyArray | src/network/adapters.rs:45-108 | the listing is empty iff the command succeeded and decoded to an empty list: the function never reports an error as an empty list |
| Ranking.AvgPing | src/main.rs:150-157 | no average iff both pings are missing; otherwise the mean of the present ones: the single one, or half the sum, lying between the two |
| Ranking.AveragePing | src/executor.rs:69-82 | pushing the present pings and dividing their sum by their count computes `AvgPing` |
| Ranking.MeanOfPresent | src/main.rs:151-156 | the list of present pings is empty iff there is no average, and otherwise its sum over its length is the average |
| Ranking.BeforeIsStrictWeakOrder | src/main.rs:167-174 | the comparator is irreflexive, asymmetric and transitive, incomparability is transitive, and keys are incomparable iff they are equal |
| Ranking.Insert | src/main.rs:167-174 | inserting adds exactly one element |
| Ranking.SortBy | src/main.rs:167-174 | sorting keeps the length |
| Ranking.InsertElements | src/main.rs:167-174 | inserting adds exactly the element to the multiset |
| Ranking.InsertSorted | src/main.rs:167-174 | inserting into a sorted list keeps it sorted |
| Ranking.InsertWithKey | src/main.rs:167-174 | inserting keeps the relative order of the elements with any given key |
| Ranking.SortByElements | src/main.rs:167-174 | the sort is a permutation |
| Ranking.SortBySorted | src/main.rs:167-174 | the sort's result is ordered: present averages ascending, all of them before missing ones |
| Ranking.SortByStable | src/main.rs:167-174 | the sort is stable: results with equal (or both missing) averages keep their order |
| Ranking.Ranked | src/executor.rs:93-98 | the ranking is ordered, a permutation of its input and stable |
| Manager.Measure | src/main.rs:136-157 | one provider's result has its name, both addresses' probe answers and their average |
| Manager.MeasureWithProviders | src/main.rs:140-141 | with the DNS module's probe, each ping is `ping_dns_server` of the address, and an invalid address gives no time |
| Manager.DnsManager.constructor | src/main.rs:25-36 | the default state is not testing, has no results and the counter at zero, and satisfies the invariant |
| Manager.DnsManager.StartSpeedTest | src/main.rs:112-118 | a test already running is left untouched; otherwise testing starts with no results; the invariant is kept |
| Manager.DnsManager.UpdateSpeedTest | src/main.rs:120-179 | outside a test nothing changes; during one the counter goes up by one and every tenth frame appends the next catalog provider's measurement; the frame after the sixth provider stops the test, resets the counter to zero and ranks the results (six, sorted, a permutation), which is the only call returning true; the 32-bit counter never exceeds 69 |
| Manager.DnsManager.ProbeNext | src/main.rs:134-160 | appends exactly the measurement of the provider at the current count, keeping results in catalog order |
| Manager.DnsManager.Finish | src/main.rs:161-175 | stops the test, resets the counter to zero, and leaves the results sorted, a permutation of the old ones |
| Executor.PingInternal | src/executor.rs:153-176 | a time is reported only when PowerShell (with profile) ran the ping command successfully |
| Executor.PingWithTimeout | src/executor.rs:123-150 | an invalid address, or an answer that missed the time limit, gives no time |
| Executor.TimedPingAgrees | src/executor.rs:123-176 | for a canonical address answering in time, the background probe gives what the window's probe gives, whenever PowerShell answers the same with and without the profile |
| Executor.MeasureAsync | src/executor.rs:66-89 | one provider's entry has its name, both probe answers and their average |
| Executor.MeasureAll | src/executor.rs:56-90 | one entry per provider |
| Executor.MeasureAllEntries | src/executor.rs:56-90 | entry `k` is provider `k`'s measurement |
| Executor.MeasureAllStep | src/executor.rs:84-89 | one more loop pass appends exactly the next provider's entry |
| Executor.Progress | src/executor.rs:56-63 | a run that has started `done` providers has published `done + 1` progress states |
| Executor.ProgressEntries | src/executor.rs:45-63 | the published progress goes 0, 1, ..., `done`, always over the same total |
| Executor.AsyncExecutor.constructor | src/executor.rs:34-38 | a new executor is idle and has published nothing |
| Executor.AsyncExecutor.StartSpeedTest | src/executor.rs:41-105 | with a usable lock, the run publishes `Running(0, N)`, then `Running(1, N)` to `Running(N, N)`, then `Completed` with the ranked entries of all providers; with a poisoned lock nothing is stored |
| Executor.AsyncExecutor.GetSpeedTestState | src/executor.rs:108-113 | returns the state, or `Idle` when the lock cannot be taken |
| Executor.AsyncExecutor.ResetSpeedTest | src/executor.rs:116-120 | the state becomes `Idle` whatever it was, unless the lock cannot be taken |
| Executor.CompletedRun | src/executor.rs:84-103 | the completed results number one per provider, are ranked and a permutation of the entries, and contain every provider's measurement; the progress climbed one step at a time from 0 to N |
| Executor.MeasureAsyncWithTimeout | src/executor.rs:66-67 | with the background probe, each of the primary and the secondary is measured by the timed probe of that address, so one that fails validation or answers late is recorded as missing |

## Left out

- IPv6 parsing and display: `std::net` is not part of this model's sources. The model writes out its
  algorithm (groups of up to four hex digits, one "::", an embedded IPv4 tail, display with the
  longest zero run of two or more compressed and IPv4-mapped addresses shown dotted). It does not
  claim every corner of the library's behaviour.
- Validation.IsAlphanumeric: `char::is_alphanumeric` is a Unicode property. The model is exact for
  ASCII, Latin-1 and the Cyrillic block, and treats other scripts' letters and digits as not
  alphanumeric.
- Text.ParseF64: covers plain decimals only (sign, digits, fraction). Exponents, `inf` and `NaN` are
  not modelled.
- Latencies are `real`s, so `f64` rounding in the mean is not modelled. Nor is the `NaN` case of
  `partial_cmp(...).unwrap_or(Equal)` in the two sorts.
- Providers.Dedup: a `HashSet` yields its elements in an unspecified order. The model keeps first
  occurrences; only "no duplicates, same servers" and an order-free DHCP verdict are claimed
  (`IsDhcpDnsOrderFree`).
- Processes, `SystemRoot` paths and lossy UTF-8 decoding: the `System` oracle stands in for them.
  Console logging (`println!`/`eprintln!`) is not modelled.
- `reset_dns` has no logic beyond handing a fixed script to `run_powershell_command`, whose
  classification `RunPowershellCommand` models.
- Threads, `Arc<Mutex>` and the two-second sleep of the background test are not modelled:
  - the worker is run to its end inside `StartSpeedTest`, with the published states recorded in
    order;
  - whether a probe finished within its time limit is the parameter `inTime`;
  - what poisons the lock is not modelled; the `poisoned` field only guards each access as the
    code does.
- Manager.DnsManager.UpdateSpeedTest: the status line and the rest of the window state (egui, the
  other tabs, the tray, notifications, settings, auto-start) are presentation or I/O and are not
  modelled.
- Serde's JSON decoding is the `JsonDecoder` parameter; the JSON text format is not modelled.

## Findings

| source | as written | input that shows it | evidently intended | confidence | as-written member | corrected member |
|---|---|---|---|---|---|---|
| src/validation.rs:55 | the unit test expects `sanitize_powershell_arg("1.1.1.1; rm -rf /")` to be `"1.1.1.1rmrf"` | `"1.1.1.1; rm -rf /"`: the filter keeps '-' (line 30), giving `"1.1.1.1rm-rf"` | the filter's documented character set (alphanumerics, '.', ':', '-'), so the expected value is `"1.1.1.1rm-rf"` | not executed | Validation.SanitizerTestExpectation | Validation.SanitizerExamples |
