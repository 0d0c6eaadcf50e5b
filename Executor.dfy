/** The background speed test: a worker probes every provider (each address
    with a time limit), publishing its progress through a shared state
    that the window polls. */
module Executor {
  import opened Text
  import opened Shell
  import opened Validation
  import opened Providers
  import opened Ranking

  datatype AsyncSpeedTestResult = AsyncSpeedTestResult(
    provider: string,
    primaryPing: Option<real>,
    secondaryPing: Option<real>,
    avgPing: Option<real>)

  /** What the window sees: nothing yet, progress through the catalog, the
      ranked results, or a failure message (never produced by this code). */
  datatype SpeedTestState =
    | Idle
    | Running(progress: nat, total: nat)
    | Completed(results: seq<AsyncSpeedTestResult>)
    | Failed(message: string)

  // ---- Probing with a time limit -------------------------------------------------

  /** `ping_internal`: the ping command on the address as given (no
      sanitising), run by PowerShell with its profile; a successful run's
      trimmed output must parse as a number. */
  function PingInternal(sys: System, ip: string): (r: Option<real>)
    ensures r.Some? ==> sys(PowerShellWithProfile, PingCommand(ip)).Exited?
                        && sys(PowerShellWithProfile, PingCommand(ip)).success
  {
    match sys(PowerShellWithProfile, PingCommand(ip))
    case Exited(success, stdout, _) => if success then ParseF64(Trim(stdout)) else None
    case LaunchFailed(_, _) => None
  }

  /** `ping_with_timeout`: an address that fails validation is not probed;
      otherwise the probe's answer counts only if it arrived within the time
      limit (`inTime` says, per address, whether it did). */
  function PingWithTimeout(sys: System, inTime: string -> bool, ip: string): (r: Option<real>)
    ensures ValidateIpAddress(ip).Err? ==> r == None
    ensures !inTime(ip) ==> r == None
  {
    if ValidateIpAddress(ip).Err? then None
    else if inTime(ip) then PingInternal(sys, ip)
    else None
  }

  /** For an address in canonical form that answers in time, the
      background probe and the window's probe agree whenever PowerShell
      answers the same with and without the profile. */
  lemma TimedPingAgrees(sys: System, inTime: string -> bool, ip: string)
    requires ValidateIpAddress(ip) == Ok(ip) && inTime(ip)
    requires sys(PowerShellWithProfile, PingCommand(ip)) == sys(PowerShell, PingCommand(ip))
    ensures PingWithTimeout(sys, inTime, ip) == PingDnsServer(sys, ip)
  {
    ValidatedIsShellSafe(ip);
    assert SanitizePowershellArg(ip) == ip;
    var cmd := PingCommand(ip);
    assert PingWithTimeout(sys, inTime, ip) == PingInternal(sys, ip);
    var launch := sys(PowerShell, cmd);
    if launch.Exited? && launch.success {
      RunSucceeded(sys, cmd, launch.stdout, launch.stderr);
      PingOfOutput(sys, ip, Trim(launch.stdout));
      TrimIdempotent(launch.stdout);
    } else {
      PingOfFailedRun(sys, ip);
    }
  }

  /** `ping` is the background probe against machine `sys` and timing
      `inTime`; see `Manager.PingsWith` for why it is passed as a value. */
  ghost predicate TimesWith(sys: System, inTime: string -> bool, ping: Pinger) {
    forall ip {:trigger PingWithTimeout(sys, inTime, ip)} :: ping(ip) == PingWithTimeout(sys, inTime, ip)
  }

  // ---- The worker -----------------------------------------------------------------

  function AsyncKey(r: AsyncSpeedTestResult): Option<real> {
    r.avgPing
  }

  /** One provider's entry: both addresses probed and their average. */
  function MeasureAsync(ping: Pinger, p: DnsProvider): (r: AsyncSpeedTestResult)
    ensures r.provider == p.name && r.primaryPing == ping(p.primary) && r.secondaryPing == ping(p.secondary)
    ensures r.avgPing == AvgPing(r.primaryPing, r.secondaryPing)
  {
    AsyncSpeedTestResult(p.name, ping(p.primary), ping(p.secondary), AvgPing(ping(p.primary), ping(p.secondary)))
  }

  /** The entries for `providers`, in catalog order. */
  function MeasureAll(ping: Pinger, providers: seq<DnsProvider>): (r: seq<AsyncSpeedTestResult>)
    ensures |r| == |providers|
  {
    if |providers| == 0 then []
    else MeasureAll(ping, providers[..|providers| - 1]) + [MeasureAsync(ping, providers[|providers| - 1])]
  }

  /** Entry `k` is provider `k`'s measurement. */
  lemma {:induction false} MeasureAllEntries(ping: Pinger, providers: seq<DnsProvider>)
    ensures forall k :: 0 <= k < |providers| ==> MeasureAll(ping, providers)[k] == MeasureAsync(ping, providers[k])
  {
    if |providers| > 0 {
      var p := providers[..|providers| - 1];
      MeasureAllEntries(ping, p);
      assert forall k :: 0 <= k < |p| ==> providers[k] == p[k];
    }
  }

  lemma MeasureAllStep(ping: Pinger, providers: seq<DnsProvider>, idx: nat)
    requires idx < |providers|
    ensures MeasureAll(ping, providers[..idx + 1])
      == MeasureAll(ping, providers[..idx]) + [MeasureAsync(ping, providers[idx])]
  {
    assert providers[..idx + 1][..idx] == providers[..idx];
  }

  /** The progress states a run over `total` providers publishes after it
      has started `done` of them: 0, then 1 up to `done`. */
  function Progress(done: nat, total: nat): (r: seq<SpeedTestState>)
    ensures |r| == done + 1
  {
    if done == 0 then [Running(0, total)] else Progress(done - 1, total) + [Running(done, total)]
  }

  /** The published progress climbs by one from 0 to `done`. */
  lemma {:induction false} ProgressEntries(done: nat, total: nat)
    ensures forall k :: 0 <= k <= done ==> Progress(done, total)[k] == Running(k, total)
  {
    if done > 0 {
      ProgressEntries(done - 1, total);
    }
  }

  /** `AsyncExecutor`: the shared state behind its lock. `poisoned` stands
      for a lock that can no longer be taken; nothing here poisons it, but
      every access is guarded as in the source. `published` records every
      state the worker and the starter have stored, in order. */
  class AsyncExecutor {
    var state: SpeedTestState
    var poisoned: bool
    ghost var published: seq<SpeedTestState>

    constructor ()
      ensures state == Idle && !poisoned && published == []
    {
      state := Idle;
      poisoned := false;
      published := [];
    }

    /** `start_speed_test` together with the worker it spawns, run to its
        end: progress 0 of N, then 1 to N as each provider is started, then
        the ranked results. */
    method StartSpeedTest(sys: System, inTime: string -> bool, ping: Pinger, providers: seq<DnsProvider>)
      requires TimesWith(sys, inTime, ping)
      modifies this
      ensures poisoned == old(poisoned)
      ensures old(poisoned) ==> state == old(state) && published == old(published)
      ensures !old(poisoned) ==>
        state == Completed(SortBy(MeasureAll(ping, providers), AsyncKey))
        && published == old(published) + Progress(|providers|, |providers|) + [state]
    {
      var total := |providers|;
      if !poisoned {
        state := Running(0, total);
        published := published + [state];
      }
      var results: seq<AsyncSpeedTestResult> := [];
      var idx := 0;
      while idx < total
        invariant 0 <= idx <= total && poisoned == old(poisoned)
        invariant results == MeasureAll(ping, providers[..idx])
        invariant old(poisoned) ==> state == old(state) && published == old(published)
        invariant !old(poisoned) ==> published == old(published) + Progress(idx, total)
      {
        if !poisoned {
          state := Running(idx + 1, total);
          published := published + [state];
        }
        var provider := providers[idx];
        var primaryPing := ping(provider.primary);
        var secondaryPing := ping(provider.secondary);
        var avgPing := AveragePing(primaryPing, secondaryPing);
        results := results + [AsyncSpeedTestResult(provider.name, primaryPing, secondaryPing, avgPing)];
        MeasureAllStep(ping, providers, idx);
        idx := idx + 1;
      }
      assert providers[..idx] == providers;
      results := SortBy(results, AsyncKey);
      if !poisoned {
        state := Completed(results);
        published := published + [state];
      }
    }

    /** `get_speed_test_state`: a copy of the state, or `Idle` when the lock
        cannot be taken. */
    method GetSpeedTestState() returns (s: SpeedTestState)
      ensures s == if poisoned then Idle else state
    {
      if poisoned {
        s := Idle;
      } else {
        s := state;
      }
    }

    /** `reset_speed_test`: back to `Idle`, when the lock can be taken. */
    method ResetSpeedTest()
      modifies this
      ensures poisoned == old(poisoned)
      ensures state == if poisoned then old(state) else Idle
      ensures published == old(published) + (if poisoned then [] else [Idle])
    {
      if !poisoned {
        state := Idle;
        published := published + [state];
      }
    }
  }

  /** The finished run's results are ranked, hold every provider's
      measurement, one entry per provider, and the progress it published
      climbed one step at a time from 0 to the total. */
  lemma CompletedRun(ping: Pinger, providers: seq<DnsProvider>)
    ensures var rs := SortBy(MeasureAll(ping, providers), AsyncKey);
      |rs| == |providers|
      && Sorted(rs, AsyncKey)
      && multiset(rs) == multiset(MeasureAll(ping, providers))
      && (forall k :: 0 <= k <= |providers| ==> Progress(|providers|, |providers|)[k] == Running(k, |providers|))
      && (forall k :: 0 <= k < |providers| ==> MeasureAsync(ping, providers[k]) in rs)
  {
    Ranked(MeasureAll(ping, providers), AsyncKey);
    ProgressEntries(|providers|, |providers|);
    MeasureAllEntries(ping, providers);
    var rs := SortBy(MeasureAll(ping, providers), AsyncKey);
    forall k | 0 <= k < |providers| ensures MeasureAsync(ping, providers[k]) in rs {
      assert MeasureAll(ping, providers)[k] in multiset(MeasureAll(ping, providers));
    }
  }

  /** With the background probe, an address that fails validation or
      answers late is recorded as missing. */
  lemma MeasureAsyncWithTimeout(sys: System, inTime: string -> bool, ping: Pinger, p: DnsProvider)
    requires TimesWith(sys, inTime, ping)
    ensures ValidateIpAddress(p.primary).Err? || !inTime(p.primary) ==> MeasureAsync(ping, p).primaryPing == None
    ensures ValidateIpAddress(p.secondary).Err? || !inTime(p.secondary) ==> MeasureAsync(ping, p).secondaryPing == None
    ensures MeasureAsync(ping, p).primaryPing == PingWithTimeout(sys, inTime, p.primary)
    ensures MeasureAsync(ping, p).secondaryPing == PingWithTimeout(sys, inTime, p.secondary)
  {
    assert ping(p.primary) == PingWithTimeout(sys, inTime, p.primary);
    assert ping(p.secondary) == PingWithTimeout(sys, inTime, p.secondary);
  }
}
