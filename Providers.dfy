/** The DNS provider catalog and everything the core says about DNS servers
    as text: the private-range heuristic, the summary of the servers an
    interface uses (from PowerShell, or from `ipconfig /all` as a fallback),
    setting the servers and probing one, each guarded by the address
    validator, and the way a command's outcome becomes a result. */
module Providers {
  import opened Text
  import opened Errors
  import opened Shell
  import opened Validation

  datatype DnsProvider = DnsProvider(name: string, primary: string, secondary: string, description: string)

  /** The outcome of probing one provider, latencies in milliseconds. */
  datatype SpeedTestResult = SpeedTestResult(
    provider: string,
    primaryPing: Option<real>,
    secondaryPing: Option<real>,
    avgPing: Option<real>)

  // ---- The catalog --------------------------------------------------------

  function GetDnsProviders(): (ps: seq<DnsProvider>)
    ensures |ps| == 6
  {
    [ DnsProvider("Cloudflare", "1.1.1.1", "1.0.0.1", "Быстрый и приватный DNS от Cloudflare"),
      DnsProvider("Google", "8.8.8.8", "8.8.4.4", "Надежный DNS от Google"),
      DnsProvider("Quad9", "9.9.9.9", "149.112.112.112", "Защита от вредоносных сайтов"),
      DnsProvider("OpenDNS", "208.67.222.222", "208.67.220.220", "Семейная фильтрация контента"),
      DnsProvider("AdGuard", "94.140.14.14", "94.140.15.15", "Блокировка рекламы"),
      DnsProvider("CleanBrowsing", "185.228.168.9", "185.228.169.9", "Безопасный интернет для детей") ]
  }

  /** The catalog lists six providers in a fixed order, no name twice. */
  lemma CatalogNames()
    ensures forall i, j :: 0 <= i < j < |GetDnsProviders()| ==>
      GetDnsProviders()[i].name != GetDnsProviders()[j].name
    ensures GetDnsProviders()[0].name == "Cloudflare" && GetDnsProviders()[1].name == "Google"
    ensures GetDnsProviders()[2].name == "Quad9" && GetDnsProviders()[3].name == "OpenDNS"
    ensures GetDnsProviders()[4].name == "AdGuard" && GetDnsProviders()[5].name == "CleanBrowsing"
  {
  }

  /** Both addresses of a provider are accepted by the validator, and are
      already in the canonical form it returns. */
  predicate Canonical(p: DnsProvider) {
    ValidateIpAddress(p.primary) == Ok(p.primary) && ValidateIpAddress(p.secondary) == Ok(p.secondary)
  }

  /** Every catalog address passes validation unchanged, so choosing a
      catalog provider never fails at the validation gate of `SetDns`. */
  lemma CatalogValid()
    ensures forall p :: p in GetDnsProviders() ==> Canonical(p)
  {
    var ps := GetDnsProviders();
    forall k | 0 <= k < |ps| ensures Canonical(ps[k]) {
      var p := ps[k];
      if k == 0 {
        CloudflarePrimaryValid(p.primary);
        CloudflareSecondaryValid(p.secondary);
      } else if k == 1 {
        GooglePrimaryValid(p.primary);
        GoogleSecondaryValid(p.secondary);
      } else if k == 2 {
        Quad9PrimaryValid(p.primary);
        Quad9SecondaryValid(p.secondary);
      } else if k == 3 {
        OpenDnsPrimaryValid(p.primary);
        OpenDnsSecondaryValid(p.secondary);
      } else if k == 4 {
        AdGuardPrimaryValid(p.primary);
        AdGuardSecondaryValid(p.secondary);
      } else {
        CleanBrowsingPrimaryValid(p.primary);
        CleanBrowsingSecondaryValid(p.secondary);
      }
    }
  }

  /** Dotted-quad text, given numeral by numeral, validates to itself. */
  lemma DottedQuadValid(ip: string, o: seq<Byte>, a: string, b: string, c: string, d: string)
    requires |o| == 4 && ip == a + b + c + d
    requires a == NatToDecimal(o[0]) && b == DotNumeral(o[1]) && c == DotNumeral(o[2]) && d == DotNumeral(o[3])
    ensures ValidateIpAddress(ip) == Ok(ip)
  {
    assert FormatIpv4(o) == ip;
    ValidateCanonical(V4(o));
  }

  lemma TwoDigits(n: nat)
    requires 10 <= n < 100
    ensures NatToDecimal(n) == [DigitChar(n / 10), DigitChar(n % 10)]
  {
  }

  lemma ThreeDigits(n: nat)
    requires 100 <= n < 1000
    ensures NatToDecimal(n) == [DigitChar(n / 100), DigitChar(n / 10 % 10), DigitChar(n % 10)]
  {
    TwoDigits(n / 10);
  }

  // Each catalog address arrives as a parameter pinned by `requires`, so the
  // validator is unfolded on that literal inside its own small lemma only,
  // never in the proofs that use the fact.

  lemma CloudflarePrimaryValid(ip: string)
    requires ip == "1.1.1.1"
    ensures ValidateIpAddress(ip) == Ok(ip)
  {
    DottedQuadValid(ip, [1, 1, 1, 1], "1", ".1", ".1", ".1");
  }

  lemma CloudflareSecondaryValid(ip: string)
    requires ip == "1.0.0.1"
    ensures ValidateIpAddress(ip) == Ok(ip)
  {
    DottedQuadValid(ip, [1, 0, 0, 1], "1", ".0", ".0", ".1");
  }

  lemma GooglePrimaryValid(ip: string)
    requires ip == "8.8.8.8"
    ensures ValidateIpAddress(ip) == Ok(ip)
  {
    DottedQuadValid(ip, [8, 8, 8, 8], "8", ".8", ".8", ".8");
  }

  lemma GoogleSecondaryValid(ip: string)
    requires ip == "8.8.4.4"
    ensures ValidateIpAddress(ip) == Ok(ip)
  {
    DottedQuadValid(ip, [8, 8, 4, 4], "8", ".8", ".4", ".4");
  }

  lemma Quad9PrimaryValid(ip: string)
    requires ip == "9.9.9.9"
    ensures ValidateIpAddress(ip) == Ok(ip)
  {
    DottedQuadValid(ip, [9, 9, 9, 9], "9", ".9", ".9", ".9");
  }

  lemma Quad9SecondaryValid(ip: string)
    requires ip == "149.112.112.112"
    ensures ValidateIpAddress(ip) == Ok(ip)
  {
    ThreeDigits(149);
    ThreeDigits(112);
    DottedQuadValid(ip, [149, 112, 112, 112], "149", ".112", ".112", ".112");
  }

  lemma OpenDnsPrimaryValid(ip: string)
    requires ip == "208.67.222.222"
    ensures ValidateIpAddress(ip) == Ok(ip)
  {
    ThreeDigits(208);
    TwoDigits(67);
    ThreeDigits(222);
    DottedQuadValid(ip, [208, 67, 222, 222], "208", ".67", ".222", ".222");
  }

  lemma OpenDnsSecondaryValid(ip: string)
    requires ip == "208.67.220.220"
    ensures ValidateIpAddress(ip) == Ok(ip)
  {
    ThreeDigits(208);
    TwoDigits(67);
    ThreeDigits(220);
    DottedQuadValid(ip, [208, 67, 220, 220], "208", ".67", ".220", ".220");
  }

  lemma AdGuardPrimaryValid(ip: string)
    requires ip == "94.140.14.14"
    ensures ValidateIpAddress(ip) == Ok(ip)
  {
    TwoDigits(94);
    ThreeDigits(140);
    TwoDigits(14);
    DottedQuadValid(ip, [94, 140, 14, 14], "94", ".140", ".14", ".14");
  }

  lemma AdGuardSecondaryValid(ip: string)
    requires ip == "94.140.15.15"
    ensures ValidateIpAddress(ip) == Ok(ip)
  {
    TwoDigits(94);
    ThreeDigits(140);
    TwoDigits(15);
    DottedQuadValid(ip, [94, 140, 15, 15], "94", ".140", ".15", ".15");
  }

  lemma CleanBrowsingPrimaryValid(ip: string)
    requires ip == "185.228.168.9"
    ensures ValidateIpAddress(ip) == Ok(ip)
  {
    ThreeDigits(185);
    ThreeDigits(228);
    ThreeDigits(168);
    DottedQuadValid(ip, [185, 228, 168, 9], "185", ".228", ".168", ".9");
  }

  lemma CleanBrowsingSecondaryValid(ip: string)
    requires ip == "185.228.169.9"
    ensures ValidateIpAddress(ip) == Ok(ip)
  {
    ThreeDigits(185);
    ThreeDigits(228);
    ThreeDigits(169);
    DottedQuadValid(ip, [185, 228, 169, 9], "185", ".228", ".169", ".9");
  }

  // ---- Private-range heuristic -----------------------------------------------

  const PrivatePatterns: seq<string> := ["192.168.", "10.", "172."]

  /** `is_dhcp_dns`: the text mentions a private-range prefix anywhere. */
  predicate IsDhcpDns(addresses: string)
    ensures IsDhcpDns(addresses) ==> |addresses| >= 3
  {
    ShortTextIsPublic(addresses);
    Contains(addresses, "192.168.") || Contains(addresses, "10.") || Contains(addresses, "172.")
  }

  lemma ShortTextIsPublic(addresses: string)
    ensures |addresses| < 3 ==>
      !Contains(addresses, "192.168.") && !Contains(addresses, "10.") && !Contains(addresses, "172.")
  {
    if |addresses| < 3 {
      ShorterNotContained(addresses, "192.168.");
      ShorterNotContained(addresses, "10.");
      ShorterNotContained(addresses, "172.");
    }
  }

  /** The heuristic holds exactly when one of the three prefixes occurs somewhere in the text. */
  lemma IsDhcpDnsIff(addresses: string)
    ensures IsDhcpDns(addresses) <==> exists k, i :: 0 <= k < |PrivatePatterns| && OccursAt(addresses, PrivatePatterns[k], i)
  {
    ContainsIffOccurs(addresses, "192.168.");
    ContainsIffOccurs(addresses, "10.");
    ContainsIffOccurs(addresses, "172.");
    if IsDhcpDns(addresses) {
      if Contains(addresses, "192.168.") {
        var i :| OccursAt(addresses, "192.168.", i);
        assert OccursAt(addresses, PrivatePatterns[0], i);
      } else if Contains(addresses, "10.") {
        var i :| OccursAt(addresses, "10.", i);
        assert OccursAt(addresses, PrivatePatterns[1], i);
      } else {
        var i :| OccursAt(addresses, "172.", i);
        assert OccursAt(addresses, PrivatePatterns[2], i);
      }
    }
  }

  /** Joined with ", ", a list of servers looks private exactly when one of
      the servers does: no prefix can straddle a separator. So the order in
      which the servers are joined does not change the verdict. */
  lemma IsDhcpDnsOfJoin(xs: seq<string>)
    ensures IsDhcpDns(Join(xs, ", ")) <==> exists k :: 0 <= k < |xs| && IsDhcpDns(xs[k])
  {
    PatternAvoidsSeparator("192.168.");
    PatternAvoidsSeparator("10.");
    PatternAvoidsSeparator("172.");
    ContainsJoin(xs, ", ", "192.168.");
    ContainsJoin(xs, ", ", "10.");
    ContainsJoin(xs, ", ", "172.");
  }

  lemma PatternAvoidsSeparator(p: string)
    requires p in {"192.168.", "10.", "172."}
    ensures |p| > 0 && forall i, j :: 0 <= i < |p| && 0 <= j < |", "| ==> p[i] != ", "[j]
  {
  }

  /** Two lists with the same servers, in whatever order, get the same verdict. */
  lemma IsDhcpDnsOrderFree(xs: seq<string>, ys: seq<string>)
    requires forall x :: x in xs <==> x in ys
    ensures IsDhcpDns(Join(xs, ", ")) == IsDhcpDns(Join(ys, ", "))
  {
    IsDhcpDnsOfJoin(xs);
    IsDhcpDnsOfJoin(ys);
    if exists k :: 0 <= k < |xs| && IsDhcpDns(xs[k]) {
      var k :| 0 <= k < |xs| && IsDhcpDns(xs[k]);
      assert xs[k] in ys;
    }
    if exists k :: 0 <= k < |ys| && IsDhcpDns(ys[k]) {
      var k :| 0 <= k < |ys| && IsDhcpDns(ys[k]);
      assert ys[k] in xs;
    }
  }

  // ---- Running commands ------------------------------------------------------

  const AccessDeniedText := "Access denied. Administrator rights required."

  /** `run_powershell_command` of the DNS module: PowerShell without profile;
      on success the trimmed standard output; on failure one of two fixed
      messages, chosen by whether the trimmed standard error mentions
      "Access is denied". */
  function RunPowershellCommand(sys: System, command: string): (r: Result<string, string>)
    ensures sys(PowerShell, command).LaunchFailed? ==>
      r == Err(LaunchErrorMessage(sys(PowerShell, command).permissionDenied, sys(PowerShell, command).reason))
    ensures sys(PowerShell, command).Exited? && sys(PowerShell, command).success ==>
      r == Ok(Trim(sys(PowerShell, command).stdout))
    ensures sys(PowerShell, command).Exited? && !sys(PowerShell, command).success ==>
      (r == Err(AccessDeniedText) <==> Contains(Trim(sys(PowerShell, command).stderr), "Access is denied"))
      && (r == Err(AccessDeniedText) || r == Err(CommandFailedText))
  {
    match sys(PowerShell, command)
    case LaunchFailed(denied, reason) => Err(LaunchErrorMessage(denied, reason))
    case Exited(success, stdout, stderr) =>
      if success then Ok(Trim(stdout))
      else if Contains(Trim(stderr), "Access is denied") then Err(AccessDeniedText)
      else Err(CommandFailedText)
  }

  /** `run_cmd_command`: `cmd.exe /C`; on success the trimmed standard
      output, on failure always the generic message. */
  function RunCmdCommand(sys: System, command: string): (r: Result<string, string>)
    ensures sys(Cmd, command).LaunchFailed? ==>
      r == Err(LaunchErrorMessage(sys(Cmd, command).permissionDenied, sys(Cmd, command).reason))
    ensures sys(Cmd, command).Exited? ==>
      r == if sys(Cmd, command).success then Ok(Trim(sys(Cmd, command).stdout)) else Err(CommandFailedText)
  {
    match sys(Cmd, command)
    case LaunchFailed(denied, reason) => Err(LaunchErrorMessage(denied, reason))
    case Exited(success, stdout, _) => if success then Ok(Trim(stdout)) else Err(CommandFailedText)
  }

  /** A process that ran and failed never has its standard error echoed:
      two failed runs whose standard errors agree on the access-denied test
      give the same result, whatever else those errors say. */
  lemma FailureHidesStderr(sys1: System, sys2: System, command: string, out1: string, out2: string, e1: string, e2: string)
    requires sys1(PowerShell, command) == Exited(false, out1, e1)
    requires sys2(PowerShell, command) == Exited(false, out2, e2)
    requires Contains(Trim(e1), "Access is denied") == Contains(Trim(e2), "Access is denied")
    ensures RunPowershellCommand(sys1, command) == RunPowershellCommand(sys2, command)
  {
  }

  /** Position `i` of a concatenation, read from the side it falls in. */
  lemma CharOfConcat(a: string, b: string, i: int)
    ensures 0 <= i < |a| ==> (a + b)[i] == a[i]
    ensures |a| <= i < |a| + |b| ==> (a + b)[i] == b[i - |a|]
  {
  }

  // ---- Pinging a server ------------------------------------------------------

  const PingHead := "Test-Connection -ComputerName "
  const PingTail := " -Count 1 | Select-Object -ExpandProperty ResponseTime"

  /** The PowerShell line that pings `host` once and prints the reply time. */
  function PingCommand(host: string): (r: string)
    ensures |r| == |PingHead| + |host| + |PingTail|
    ensures StartsWith(r, PingHead) && r[|PingHead|..|r| - |PingTail|] == host
    ensures r[|r| - |PingTail|..] == PingTail
  {
    PingHead + host + PingTail
  }

  /** `ping_dns_server`: an address that does not validate is never pinged;
      otherwise its sanitised text is pinged once and the trimmed output
      must parse as a number of milliseconds. */
  function PingDnsServer(sys: System, ip: string): (r: Option<real>)
    ensures ValidateIpAddress(ip).Err? ==> r == None
    ensures r.Some? ==> RunPowershellCommand(sys, PingCommand(SanitizePowershellArg(ip))).Ok?
  {
    if ValidateIpAddress(ip).Err? then None
    else
      match RunPowershellCommand(sys, PingCommand(SanitizePowershellArg(ip)))
      case Ok(output) => ParseF64(Trim(output))
      case Err(_) => None
  }

  /** An address in canonical form reaches the command line verbatim, and a
      reply that is, up to surrounding whitespace, a whole number of
      milliseconds is reported as that number. */
  lemma PingReportsReply(sys: System, ip: string, n: nat, output: string, err: string)
    requires ValidateIpAddress(ip) == Ok(ip)
    requires sys(PowerShell, PingCommand(ip)) == Exited(true, output, err)
    requires Trim(output) == NatToDecimal(n)
    ensures PingDnsServer(sys, ip) == Some(n as real)
  {
    ValidatedIsShellSafe(ip);
    var d := NatToDecimal(n);
    RunSucceeded(sys, PingCommand(ip), output, err);
    PingOfOutput(sys, ip, d);
    TrimIdempotent(output);
    ParseNumeral(n);
  }

  /** A PowerShell run that exits successfully yields its trimmed output. */
  lemma RunSucceeded(sys: System, command: string, output: string, err: string)
    requires sys(PowerShell, command) == Exited(true, output, err)
    ensures RunPowershellCommand(sys, command) == Ok(Trim(output))
  {
  }

  /** For any address that validates, a run of the ping command on its
      sanitised text that succeeds yields exactly the number its trimmed
      output parses as, and none when the output is not a number. */
  lemma PingOfOutput(sys: System, ip: string, output: string)
    requires ValidateIpAddress(ip).Ok?
    requires RunPowershellCommand(sys, PingCommand(SanitizePowershellArg(ip))) == Ok(output)
    ensures PingDnsServer(sys, ip) == ParseF64(Trim(output))
  {
  }

  /** For any address that validates, a ping command that fails or cannot
      be started yields no time. */
  lemma PingOfFailedRun(sys: System, ip: string)
    requires ValidateIpAddress(ip).Ok?
    requires RunPowershellCommand(sys, PingCommand(SanitizePowershellArg(ip))).Err?
    ensures PingDnsServer(sys, ip) == None
  {
  }

  /** A rejected address yields no time whatever the machine would have answered. */
  lemma PingRejectsWithoutRunning(sys1: System, sys2: System, ip: string)
    requires ValidateIpAddress(ip).Err?
    ensures PingDnsServer(sys1, ip) == PingDnsServer(sys2, ip) == None
  {
  }

  /** Whatever `ip` holds, only allowed characters sit between the fixed parts
      of the ping command, so no text of the caller's can end the command. */
  lemma PingCommandShape(ip: string)
    ensures StartsWith(PingCommand(SanitizePowershellArg(ip)), PingHead)
    ensures AllArgChars(PingCommand(SanitizePowershellArg(ip))[|PingHead|..|PingCommand(SanitizePowershellArg(ip))| - |PingTail|])
  {
    var h := SanitizePowershellArg(ip);
    assert PingCommand(h)[|PingHead|..|PingCommand(h)| - |PingTail|] == h;
  }

  // ---- Setting the servers ---------------------------------------------------

  const SetDnsHead := "Get-NetAdapter | Where-Object { $_.Status -eq 'Up' } | "
    + "ForEach-Object {\n    Set-DnsClientServerAddress -InterfaceAlias "
    + "$_.Name -ServerAddresses ('"
  const SetDnsMiddle := "','"
  const SetDnsTail := "')\n}"

  /** The PowerShell script that gives every adapter that is up the two servers. */
  function SetDnsCommand(primary: string, secondary: string): (r: string)
    ensures |r| == |SetDnsHead| + |primary| + |SetDnsMiddle| + |secondary| + |SetDnsTail|
    ensures StartsWith(r, SetDnsHead) && r[|SetDnsHead|..|SetDnsHead| + |primary|] == primary
    ensures r[|r| - |SetDnsTail| - |secondary|..|r| - |SetDnsTail|] == secondary
    ensures r[|r| - |SetDnsTail|..] == SetDnsTail
  {
    SetDnsHead + primary + SetDnsMiddle + secondary + SetDnsTail
  }

  /** `set_dns`: validate both addresses (the primary first) and report the
      first failure's message; otherwise run the script on the sanitised
      canonical texts. */
  function SetDns(sys: System, primary: string, secondary: string): (r: Result<string, string>)
    ensures ValidateIpAddress(primary).Err? ==> r == Err(Message(InvalidIpAddress(Trim(primary))))
    ensures ValidateIpAddress(primary).Ok? && ValidateIpAddress(secondary).Err? ==>
      r == Err(Message(InvalidIpAddress(Trim(secondary))))
  {
    match ValidateDnsPair(primary, secondary)
    case Err(e) => Err(Message(e))
    case Ok((p, s)) => RunPowershellCommand(sys, SetDnsCommand(SanitizePowershellArg(p), SanitizePowershellArg(s)))
  }

  /** When both addresses validate, the script names exactly their canonical
      texts: the extra sanitising never alters a validated address. */
  lemma SetDnsRunsCanonical(sys: System, primary: string, secondary: string)
    requires ValidateIpAddress(primary).Ok? && ValidateIpAddress(secondary).Ok?
    ensures SetDns(sys, primary, secondary)
      == RunPowershellCommand(sys, SetDnsCommand(ValidateIpAddress(primary).value, ValidateIpAddress(secondary).value))
  {
    ValidatedIsShellSafe(primary);
    ValidatedIsShellSafe(secondary);
  }

  /** The script determines the two addresses it was built from, as long as
      neither holds a quote: each sits alone between its pair of quotes. */
  lemma SetDnsCommandInjective(p1: string, s1: string, p2: string, s2: string)
    requires '\'' !in p1 && '\'' !in p2 && '\'' !in s1 && '\'' !in s2
    requires SetDnsCommand(p1, s1) == SetDnsCommand(p2, s2)
    ensures p1 == p2 && s1 == s2
  {
    QuotedPairInjective(SetDnsHead, SetDnsMiddle, SetDnsTail, p1, s1, p2, s2);
  }

  /** A command built from fixed pieces around two quoted parameters determines
      them, when each quoted piece is followed by a quote. */
  lemma QuotedPairInjective(h: string, m: string, t: string, p1: string, s1: string, p2: string, s2: string)
    requires '\'' !in p1 && '\'' !in p2 && '\'' !in s1 && '\'' !in s2
    requires |m| > 0 && m[0] == '\'' && |t| > 0 && t[0] == '\''
    requires h + p1 + m + s1 + t == h + p2 + m + s2 + t
    ensures p1 == p2 && s1 == s2
  {
    var w1, w2 := h + p1 + m + s1 + t, h + p2 + m + s2 + t;
    assert w1[|h|..] == p1 + (m + (s1 + t));
    assert w2[|h|..] == p2 + (m + (s2 + t));
    QuotedPrefix(p1, m + (s1 + t), p2, m + (s2 + t));
    assert (m + (s1 + t))[|m|..] == s1 + t;
    assert (m + (s2 + t))[|m|..] == s2 + t;
    QuotedPrefix(s1, t, s2, t);
  }

  /** Two texts that each run up to a quote, followed by anything, are equal
      when the wholes are. */
  lemma QuotedPrefix(a: string, x: string, b: string, y: string)
    requires '\'' !in a && '\'' !in b
    requires |x| > 0 && x[0] == '\'' && |y| > 0 && y[0] == '\''
    requires a + x == b + y
    ensures a == b && x == y
  {
    CharOfConcat(a, x, |b|);
    CharOfConcat(b, y, |a|);
    CharOfConcat(a, x, |a|);
    CharOfConcat(b, y, |b|);
    assert |a| == |b| by {
      if |a| < |b| {
        assert false;
      } else if |b| < |a| {
        assert false;
      }
    }
    assert a == (a + x)[..|a|] && b == (b + y)[..|b|];
    assert x == (a + x)[|a|..] && y == (b + y)[|b|..];
  }

  /** An invalid pair is refused before anything runs, the primary's fault first. */
  lemma SetDnsRejectsWithoutRunning(sys1: System, sys2: System, primary: string, secondary: string)
    requires ValidateDnsPair(primary, secondary).Err?
    ensures SetDns(sys1, primary, secondary) == SetDns(sys2, primary, secondary)
    ensures SetDns(sys1, primary, secondary).Err?
  {
  }

  // ---- Reading the current servers -------------------------------------------

  const DnsQueryCommand := "Get-DnsClientServerAddress | Where-Object { $_.AddressFamily -eq 2 } "
    + "| Select-Object -ExpandProperty ServerAddresses"
  const IpconfigCommand := "ipconfig /all"
  const DhcpPrefix := "Автопилот (DHCP): "
  const NoAddressesText := DhcpPrefix + "адреса не получены"
  const ListSeparator := ", "

  predicate NoDuplicates(xs: seq<string>) {
    forall i, j :: 0 <= i < j < |xs| ==> xs[i] != xs[j]
  }

  /** Collecting into a `HashSet`: every value once. The set's iteration
      order is unspecified; this model keeps first occurrences in order. */
  function Dedup(xs: seq<string>): (r: seq<string>)
    ensures NoDuplicates(r)
    ensures forall x :: x in r <==> x in xs
  {
    if |xs| == 0 then []
    else
      var d := Dedup(xs[..|xs| - 1]);
      var last := xs[|xs| - 1];
      assert xs == xs[..|xs| - 1] + [last];
      if last in d then d else d + [last]
  }

  /** What the PowerShell query's output becomes: `None` when it holds no
      address (the caller then falls back to ipconfig), otherwise the
      distinct whitespace-separated addresses joined by ", ", with the DHCP
      label in front when they look private. */
  function PsSummary(output: string): (r: Option<string>)
    ensures r.Some? <==> SplitWhitespace(output) != []
  {
    if output == [] then None
    else
      var tokens := SplitWhitespace(output);
      if |tokens| == 0 then None
      else
        var addresses := Join(Dedup(tokens), ListSeparator);
        Some(if IsDhcpDns(addresses) then DhcpPrefix + addresses else addresses)
  }

  /** Output that `run_powershell_command` returns is already trimmed, so a
      non-empty output always holds an address: the second emptiness test of
      the source can never fail. */
  lemma TrimmedOutputHasTokens(output: string)
    requires output != [] && Trim(output) == output
    ensures SplitWhitespace(output) != []
  {
    assert !IsWhitespace(output[0]);
  }

  /** The reported list reads back, split on ", ", as the distinct addresses,
      and carries the DHCP label exactly when one of them looks private. */
  lemma PsSummaryReadBack(output: string)
    requires SplitWhitespace(output) != []
    ensures var u := Dedup(SplitWhitespace(output));
      var a := Join(u, ListSeparator);
      Split(a, ListSeparator) == u
      && (IsDhcpDns(a) <==> exists k :: 0 <= k < |u| && IsDhcpDns(u[k]))
      && PsSummary(output) == Some(if IsDhcpDns(a) then DhcpPrefix + a else a)
  {
    var tokens := SplitWhitespace(output);
    var u := Dedup(tokens);
    assert tokens[0] in u;
    forall k | 0 <= k < |u| ensures Separable(u[k], ListSeparator) {
      assert u[k] in tokens;
      WordHasNoSpace(u[k]);
      SeparableBySecond(u[k], ListSeparator);
    }
    SplitJoin(u, ListSeparator);
    IsDhcpDnsOfJoin(u);
  }

  lemma WordHasNoSpace(w: string)
    requires NoWhitespace(w)
    ensures ' ' !in w
  {
    forall i | 0 <= i < |w| ensures w[i] != ' ' {
      assert !IsWhitespace(w[i]);
    }
  }

  // ---- The ipconfig fallback -------------------------------------------------

  const DhcpMarker := "DNS servers configured through DHCP"

  /** A line that says the servers came from DHCP. */
  predicate MentionsDhcp(line: string) {
    Contains(line, DhcpMarker)
  }

  /** A line that lists servers: "DNS Servers" without "configured through DHCP". */
  predicate IsServersLine(line: string) {
    Contains(line, "DNS Servers") && !Contains(line, "configured through DHCP")
  }

  /** The trimmed comma-separated pieces that are neither empty nor "0.0.0.0". */
  function CleanTokens(pieces: seq<string>): seq<string> {
    if |pieces| == 0 then []
    else
      var clean := Trim(pieces[|pieces| - 1]);
      CleanTokens(pieces[..|pieces| - 1]) + (if clean != [] && clean != "0.0.0.0" then [clean] else [])
  }

  /** Cleaning one more piece appends what that piece contributes. */
  lemma CleanTokensStep(pieces: seq<string>, j: nat)
    requires j < |pieces|
    ensures CleanTokens(pieces[..j + 1])
         == CleanTokens(pieces[..j]) + (if Trim(pieces[j]) != [] && Trim(pieces[j]) != "0.0.0.0" then [Trim(pieces[j])] else [])
  {
    assert pieces[..j + 1][..j] == pieces[..j];
  }

  /** The servers a single line of ipconfig's report contributes: on a
      servers line, the text between the first and the second ':' is
      trimmed and, unless empty or mentioning "None", cut at ','. */
  function LineServers(line: string): seq<string> {
    if !IsServersLine(line) then []
    else
      var parts := Split(line, ":");
      if |parts| <= 1 then []
      else
        var ipPart := Trim(parts[1]);
        if ipPart == [] || Contains(ipPart, "None") then [] else CleanTokens(Split(ipPart, ","))
  }

  /** The servers of a whole report, line after line. */
  function ServersOf(lines: seq<string>): seq<string> {
    if |lines| == 0 then [] else ServersOf(lines[..|lines| - 1]) + LineServers(lines[|lines| - 1])
  }

  predicate AnyMentionsDhcp(lines: seq<string>) {
    exists k :: 0 <= k < |lines| && MentionsDhcp(lines[k])
  }

  /** The answer built from ipconfig's findings. */
  function IpconfigSummary(servers: seq<string>, isDhcp: bool): (r: string)
    ensures servers == [] ==> r == NoAddressesText
    ensures servers != [] && isDhcp ==> StartsWith(r, DhcpPrefix) && r[|DhcpPrefix|..] == Join(servers, ListSeparator)
    ensures servers != [] && !isDhcp ==> r == Join(servers, ListSeparator)
  {
    if servers == [] then NoAddressesText
    else if isDhcp then DhcpPrefix + Join(servers, ListSeparator)
    else Join(servers, ListSeparator)
  }

  /** The loop over ipconfig's lines: collects every server it finds and
      notes whether any line mentions DHCP-provided servers. */
  method ScanIpconfig(output: string) returns (servers: seq<string>, isDhcp: bool)
    ensures servers == ServersOf(Lines(output))
    ensures isDhcp == AnyMentionsDhcp(Lines(output))
  {
    var lines := Lines(output);
    servers := [];
    isDhcp := false;
    var i := 0;
    while i < |lines|
      invariant 0 <= i <= |lines|
      invariant servers == ServersOf(lines[..i])
      invariant isDhcp == AnyMentionsDhcp(lines[..i])
    {
      var line := lines[i];
      if Contains(line, DhcpMarker) {
        isDhcp := true;
      }
      var found := ScanLine(line);
      servers := servers + found;
      assert lines[..i + 1][..i] == lines[..i];
      DhcpStep(lines[..i + 1]);
      i := i + 1;
    }
    assert lines[..i] == lines;
  }

  /** The body of that loop for one line: the servers it lists. */
  method ScanLine(line: string) returns (found: seq<string>)
    ensures found == LineServers(line)
  {
    found := [];
    if Contains(line, "DNS Servers") && !Contains(line, "configured through DHCP") {
      var parts := Split(line, ":");
      if |parts| > 1 {
        var ipPart := Trim(parts[1]);
        if ipPart != [] && !Contains(ipPart, "None") {
          var ips := Split(ipPart, ",");
          var j := 0;
          while j < |ips|
            invariant 0 <= j <= |ips|
            invariant found == CleanTokens(ips[..j])
          {
            var clean := Trim(ips[j]);
            if clean != [] && clean != "0.0.0.0" {
              found := found + [clean];
            }
            CleanTokensStep(ips, j);
            j := j + 1;
          }
          assert ips[..j] == ips;
        }
      }
    }
  }

  lemma DhcpStep(lines: seq<string>)
    requires |lines| > 0
    ensures AnyMentionsDhcp(lines) == (AnyMentionsDhcp(lines[..|lines| - 1]) || MentionsDhcp(lines[|lines| - 1]))
  {
    var n := |lines| - 1;
    if AnyMentionsDhcp(lines) && !MentionsDhcp(lines[n]) {
      var k :| 0 <= k < |lines| && MentionsDhcp(lines[k]);
      assert k < n && lines[..n][k] == lines[k];
    }
    if AnyMentionsDhcp(lines[..n]) {
      var k :| 0 <= k < n && MentionsDhcp(lines[..n][k]);
      assert lines[k] == lines[..n][k];
    }
  }

  /** What every server read from ipconfig looks like: non-empty, not
      "0.0.0.0", already trimmed, and free of ',' and of ':' (so an IPv6
      server is only ever reported up to its first colon). */
  predicate ReportedServer(x: string) {
    x != [] && x != "0.0.0.0" && Trim(x) == x && ',' !in x && ':' !in x
  }

  lemma TrimKeepsOut(x: string, c: char)
    requires c !in x
    ensures c !in Trim(x)
  {
    TrimContained(x);
    ContainsChars(x, Trim(x));
  }

  lemma {:induction false} CleanTokensReported(pieces: seq<string>)
    requires forall k :: 0 <= k < |pieces| ==> ',' !in pieces[k] && ':' !in pieces[k]
    ensures forall k :: 0 <= k < |CleanTokens(pieces)| ==> ReportedServer(CleanTokens(pieces)[k])
  {
    if |pieces| > 0 {
      var last := pieces[|pieces| - 1];
      CleanTokensReported(pieces[..|pieces| - 1]);
      TrimKeepsOut(last, ',');
      TrimKeepsOut(last, ':');
      TrimIdempotent(last);
    }
  }

  lemma LineServersReported(line: string)
    ensures forall k :: 0 <= k < |LineServers(line)| ==> ReportedServer(LineServers(line)[k])
  {
    if IsServersLine(line) {
      var parts := Split(line, ":");
      if |parts| > 1 {
        var ipPart := Trim(parts[1]);
        if ipPart != [] && !Contains(ipPart, "None") {
          SplitAvoidsSeparator(line, ':');
          assert ':' !in parts[1] by {
            assert forall i :: 0 <= i < |parts[1]| ==> parts[1][i] != ':';
          }
          TrimKeepsOut(parts[1], ':');
          var ips := Split(ipPart, ",");
          SplitAvoidsSeparator(ipPart, ',');
          SplitPiecesContained(ipPart, ",");
          forall k | 0 <= k < |ips| ensures ',' !in ips[k] && ':' !in ips[k] {
            assert forall i :: 0 <= i < |ips[k]| ==> ips[k][i] != ',';
            ContainsChars(ipPart, ips[k]);
          }
          CleanTokensReported(ips);
        }
      }
    }
  }

  lemma {:induction false} ServersOfReported(lines: seq<string>)
    ensures forall k :: 0 <= k < |ServersOf(lines)| ==> ReportedServer(ServersOf(lines)[k])
  {
    if |lines| > 0 {
      ServersOfReported(lines[..|lines| - 1]);
      LineServersReported(lines[|lines| - 1]);
    }
  }

  /** ipconfig's servers, joined by ", ", split back into the same list. */
  lemma IpconfigReadBack(output: string)
    requires ServersOf(Lines(output)) != []
    ensures Split(Join(ServersOf(Lines(output)), ListSeparator), ListSeparator) == ServersOf(Lines(output))
    ensures forall k :: 0 <= k < |ServersOf(Lines(output))| ==> ReportedServer(ServersOf(Lines(output))[k])
  {
    var xs := ServersOf(Lines(output));
    ServersOfReported(Lines(output));
    forall k | 0 <= k < |xs| ensures Separable(xs[k], ListSeparator) {
      SeparableByFirst(xs[k], ListSeparator);
    }
    SplitJoin(xs, ListSeparator);
  }

  // ---- get_current_dns -------------------------------------------------------

  /** `get_current_dns`: PowerShell's list of IPv4 servers when it holds
      any; otherwise what ipconfig reports, or ipconfig's error. */
  function CurrentDns(sys: System): (r: Result<string, string>)
    ensures r.Err? ==> r == RunCmdCommand(sys, IpconfigCommand)
    ensures r.Err? ==> r.error == CommandFailedText || sys(Cmd, IpconfigCommand).LaunchFailed?
  {
    var ps := RunPowershellCommand(sys, DnsQueryCommand);
    if ps.Ok? && PsSummary(ps.value).Some? then Ok(PsSummary(ps.value).value)
    else
      match RunCmdCommand(sys, IpconfigCommand)
      case Err(e) => Err(e)
      case Ok(output) =>
        var lines := Lines(output);
        Ok(IpconfigSummary(ServersOf(lines), AnyMentionsDhcp(lines)))
  }

  /** The operation itself: the PowerShell query, then the ipconfig loop. */
  method GetCurrentDns(sys: System) returns (r: Result<string, string>)
    ensures r == CurrentDns(sys)
  {
    var ps := RunPowershellCommand(sys, DnsQueryCommand);
    if ps.Ok? {
      var summary := PsSummary(ps.value);
      if summary.Some? {
        return Ok(summary.value);
      }
    }
    var output := RunCmdCommand(sys, IpconfigCommand);
    match output
    case Err(e) =>
      r := Err(e);
    case Ok(stdout) =>
      var servers, isDhcp := ScanIpconfig(stdout);
      r := Ok(IpconfigSummary(servers, isDhcp));
  }

  /** When PowerShell names at least one server, ipconfig is never consulted. */
  lemma CurrentDnsPrefersPowerShell(sys1: System, sys2: System)
    requires sys1(PowerShell, DnsQueryCommand) == sys2(PowerShell, DnsQueryCommand)
    requires RunPowershellCommand(sys1, DnsQueryCommand).Ok?
    requires SplitWhitespace(RunPowershellCommand(sys1, DnsQueryCommand).value) != []
    ensures CurrentDns(sys1) == CurrentDns(sys2)
    ensures CurrentDns(sys1) == Ok(PsSummary(RunPowershellCommand(sys1, DnsQueryCommand).value).value)
  {
  }

  /** When PowerShell fails or names no server, its failure is never seen:
      the answer depends on ipconfig alone. */
  lemma CurrentDnsFallsBack(sys1: System, sys2: System)
    requires RunPowershellCommand(sys1, DnsQueryCommand).Err?
      || SplitWhitespace(RunPowershellCommand(sys1, DnsQueryCommand).value) == []
    requires RunPowershellCommand(sys2, DnsQueryCommand).Err?
      || SplitWhitespace(RunPowershellCommand(sys2, DnsQueryCommand).value) == []
    requires sys1(Cmd, IpconfigCommand) == sys2(Cmd, IpconfigCommand)
    ensures CurrentDns(sys1) == CurrentDns(sys2)
    ensures RunCmdCommand(sys1, IpconfigCommand).Ok? ==>
      var lines := Lines(RunCmdCommand(sys1, IpconfigCommand).value);
      CurrentDns(sys1) == Ok(IpconfigSummary(ServersOf(lines), AnyMentionsDhcp(lines)))
  {
  }
}
