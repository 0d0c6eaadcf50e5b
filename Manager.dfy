/** The window's interactive speed test: one provider is probed every tenth
    frame, and once the catalog is exhausted the results are ranked. */
module Manager {
  import opened Text
  import opened Shell
  import opened Providers
  import opened Ranking
  import opened Validation

  /** The 32-bit unsigned frame counter. */
  type U32 = x: int | 0 <= x < 0x1_0000_0000

  /** The ranking key of a result: its average latency. */
  function AvgKey(r: SpeedTestResult): Option<real> {
    r.avgPing
  }

  /** `ping` is the DNS module's probe run against the machine `sys`. The
      speed test receives its probe as a value so that its own reasoning
      never has to look inside the address validator. */
  ghost predicate PingsWith(sys: System, ping: Pinger) {
    forall ip {:trigger PingDnsServer(sys, ip)} :: ping(ip) == PingDnsServer(sys, ip)
  }

  /** What probing one provider records: both addresses pinged, the
      average of the times that came back. */
  function Measure(ping: Pinger, p: DnsProvider): (r: SpeedTestResult)
    ensures r.provider == p.name
    ensures r.primaryPing == ping(p.primary) && r.secondaryPing == ping(p.secondary)
    ensures r.avgPing == AvgPing(r.primaryPing, r.secondaryPing)
  {
    var primary := ping(p.primary);
    var secondary := ping(p.secondary);
    SpeedTestResult(p.name, primary, secondary, AvgPing(primary, secondary))
  }

  /** With the DNS module's probe, a measurement never pings an address
      that fails validation, and pings a catalog address as it stands. */
  lemma MeasureWithProviders(sys: System, ping: Pinger, p: DnsProvider)
    requires PingsWith(sys, ping)
    ensures Measure(ping, p).primaryPing == PingDnsServer(sys, p.primary)
    ensures Measure(ping, p).secondaryPing == PingDnsServer(sys, p.secondary)
    ensures ValidateIpAddress(p.primary).Err? ==> Measure(ping, p).primaryPing == None
    ensures ValidateIpAddress(p.secondary).Err? ==> Measure(ping, p).secondaryPing == None
  {
    assert PingDnsServer(sys, p.primary) == ping(p.primary);
    assert PingDnsServer(sys, p.secondary) == ping(p.secondary);
  }

  /** The speed-test part of the application state (the status line and
      the other tabs' fields are not modelled). */
  class DnsManager {
    var isSpeedTesting: bool
    var speedResults: seq<SpeedTestResult>
    var frameCounter: U32

    /** Between frames: the counter rests at zero outside a test; during one,
        each ten frames have added one result, for the catalog's providers
        in order, so the counter never passes 69 and cannot wrap. */
    ghost predicate Valid()
      reads this
    {
      (!isSpeedTesting ==> frameCounter == 0)
      && (isSpeedTesting ==>
            |speedResults| == frameCounter / 10
            && frameCounter < 10 * (|GetDnsProviders()| + 1)
            && forall k :: 0 <= k < |speedResults| ==>
                 speedResults[k].provider == GetDnsProviders()[k].name
                 && speedResults[k].avgPing == AvgPing(speedResults[k].primaryPing, speedResults[k].secondaryPing))
    }

    /** The default state: no test, no results, counter at zero. */
    constructor ()
      ensures Valid()
      ensures !isSpeedTesting && speedResults == [] && frameCounter == 0
    {
      isSpeedTesting := false;
      speedResults := [];
      frameCounter := 0;
    }

    /** `start_speed_test`: begins a test with no results unless one is
        already running; the counter is left where it is (at rest, zero). */
    method StartSpeedTest()
      requires Valid()
      modifies this
      ensures Valid()
      ensures old(isSpeedTesting) ==> isSpeedTesting && speedResults == old(speedResults) && frameCounter == old(frameCounter)
      ensures !old(isSpeedTesting) ==> isSpeedTesting && speedResults == [] && frameCounter == 0
    {
      if !isSpeedTesting {
        isSpeedTesting := true;
        speedResults := [];
      }
    }

    /** `update_speed_test`, once per frame: nothing outside a test; during
        one, every tenth frame probes the next provider, and the frame after
        the last provider ends the test, ranks the results and reports
        `true`, which happens exactly on the seventieth frame. */
    method UpdateSpeedTest(sys: System, ping: Pinger) returns (finished: bool)
      requires Valid() && PingsWith(sys, ping)
      modifies this
      ensures Valid()
      ensures finished <==> old(isSpeedTesting) && old(frameCounter) == 10 * |GetDnsProviders()| + 9
      ensures !old(isSpeedTesting) ==>
        !isSpeedTesting && speedResults == old(speedResults) && frameCounter == old(frameCounter)
      ensures old(isSpeedTesting) && !finished ==>
        isSpeedTesting && frameCounter == old(frameCounter) + 1
        && ((old(frameCounter) + 1) % 10 != 0 ==> speedResults == old(speedResults))
        && ((old(frameCounter) + 1) % 10 == 0 ==>
              |old(speedResults)| < |GetDnsProviders()|
              && speedResults == old(speedResults) + [Measure(ping, GetDnsProviders()[|old(speedResults)|])])
      ensures finished ==>
        !isSpeedTesting && frameCounter == 0
        && speedResults == SortBy(old(speedResults), AvgKey)
        && |speedResults| == |GetDnsProviders()|
        && Sorted(speedResults, AvgKey)
        && multiset(speedResults) == multiset(old(speedResults))
    {
      if !isSpeedTesting {
        return false;
      }
      frameCounter := frameCounter + 1;
      if frameCounter % 10 != 0 {
        return false;
      }
      var providers := GetDnsProviders();
      var currentCount := |speedResults|;
      if currentCount < |providers| {
        ProbeNext(ping, providers);
        return false;
      } else {
        Finish();
        return true;
      }
    }

    /** The tenth-frame step while providers remain: probe the next one. */
    method ProbeNext(ping: Pinger, providers: seq<DnsProvider>)
      requires |speedResults| < |providers|
      requires forall k :: 0 <= k < |speedResults| ==>
        speedResults[k].provider == providers[k].name
        && speedResults[k].avgPing == AvgPing(speedResults[k].primaryPing, speedResults[k].secondaryPing)
      modifies this
      ensures isSpeedTesting == old(isSpeedTesting) && frameCounter == old(frameCounter)
      ensures speedResults == old(speedResults) + [Measure(ping, providers[|old(speedResults)|])]
      ensures forall k :: 0 <= k < |speedResults| ==>
        speedResults[k].provider == providers[k].name
        && speedResults[k].avgPing == AvgPing(speedResults[k].primaryPing, speedResults[k].secondaryPing)
    {
      var provider := providers[|speedResults|];
      var primaryPing := ping(provider.primary);
      var secondaryPing := ping(provider.secondary);
      var avg := AveragePing(primaryPing, secondaryPing);
      var result := SpeedTestResult(provider.name, primaryPing, secondaryPing, avg);
      speedResults := speedResults + [result];
    }

    /** The step after the last provider: stop, rest the counter, rank. */
    method Finish()
      modifies this
      ensures !isSpeedTesting && frameCounter == 0
      ensures speedResults == SortBy(old(speedResults), AvgKey)
      ensures Sorted(speedResults, AvgKey) && multiset(speedResults) == multiset(old(speedResults))
    {
      isSpeedTesting := false;
      frameCounter := 0;
      Ranked(speedResults, AvgKey);
      speedResults := SortBy(speedResults, AvgKey);
    }
  }
}
