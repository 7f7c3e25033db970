/** One scrape per target and the full cycle over the catalog.

    A scrape launches a browser, opens a page, installs the request rewrite
    and the response listener, navigates, lets the page settle, then waits
    for the capture. Any failure along the way is caught and logged, and the
    browser is closed exactly when it was launched. The cycle visits the
    targets one after another, in catalog order.

    The browser itself is the environment: for each target it decides at
    which stage (if any) something throws, and which responses arrive at
    which poll tick. */
module Cycle {
  import opened Wrappers
  import opened Capture
  import opened Poll

  datatype Target = Target(pageUrl: string, filePath: string)

  /** The catalog `runFullCycle` walks. */
  const Catalog: seq<Target> := [
    Target("https://www.barchart.com/stocks/performance/percent-change/advances",
           "todays-percentage-gainers.json"),
    Target("https://www.barchart.com/stocks/most-active/price-volume-leaders?viewName=139730&orderBy=percentChange&orderDir=desc",
           "large_active_dollarvolume.json"),
    Target("https://www.barchart.com/stocks/performance/five-day-gainers/advances?viewName=139730&orderBy=percentChange&orderDir=desc",
           "five_day_gainers.json")
  ]

  /** Where a scrape throws: launching the browser; opening the page or
      installing the route; or navigating, scrolling and settling. */
  datatype Fault = LaunchFailed | PageSetupFailed | NavigationFailed

  /** A response the page received, with the first poll check that sees it:
      tick `k` means it arrived before the loop's check after `k` sleeps
      (0: during navigation or the settle delay, before the first check). */
  datatype Arrival = Arrival(response: Response, tick: nat)

  datatype TargetEnv = TargetEnv(fault: Option<Fault>, arrivals: seq<Arrival>)

  /** What one scrape did. `capture` is the listener's final state, whose
      `saved` records are what the handler writes to `target.filePath`. */
  datatype TargetRun = TargetRun(
    target: Target,
    browserOpened: bool,
    browserClosed: bool,
    errorLogged: bool,
    capture: CaptureState,
    waited: nat,
    noCaptureWarned: bool)

  /** The responses that had arrived by tick `k`, in arrival order. */
  function ArrivedBy(arrivals: seq<Arrival>, k: nat): (rs: seq<Response>)
    ensures |rs| <= |arrivals|
  {
    if |arrivals| == 0 then []
    else (if arrivals[0].tick <= k then [arrivals[0].response] else []) + ArrivedBy(arrivals[1..], k)
  }

  /** The capture flag after `k` poll sleeps: some qualifying response has
      arrived by then. */
  predicate CapturedBy(arrivals: seq<Arrival>, k: nat) {
    exists i :: 0 <= i < |arrivals| && arrivals[i].tick <= k && Qualifies(arrivals[i].response)
  }

  /** The flag the wait loop reads agrees with the listener's state. */
  lemma CapturedByMeansCaptured(arrivals: seq<Arrival>, k: nat)
    ensures CapturedBy(arrivals, k) <==> Observe(Awaiting, ArrivedBy(arrivals, k)).Captured?
  {
    QualifyingArrived(arrivals, k);
    AwaitingIff(ArrivedBy(arrivals, k));
  }

  lemma QualifyingArrived(arrivals: seq<Arrival>, k: nat)
    ensures CapturedBy(arrivals, k) <==>
            exists j :: 0 <= j < |ArrivedBy(arrivals, k)| && Qualifies(ArrivedBy(arrivals, k)[j])
  {
    var rs := ArrivedBy(arrivals, k);
    if CapturedBy(arrivals, k) {
      var i :| 0 <= i < |arrivals| && arrivals[i].tick <= k && Qualifies(arrivals[i].response);
      var j := ArrivedPosition(arrivals, k, i);
      assert Qualifies(rs[j]);
    }
    if exists j :: 0 <= j < |rs| && Qualifies(rs[j]) {
      var j :| 0 <= j < |rs| && Qualifies(rs[j]);
      var i := ArrivalOf(arrivals, k, j);
      assert Qualifies(arrivals[i].response);
    }
  }

  /** A response that arrived by tick `k` is among `ArrivedBy(arrivals, k)`. */
  lemma {:induction false} ArrivedPosition(arrivals: seq<Arrival>, k: nat, i: nat) returns (j: nat)
    requires i < |arrivals| && arrivals[i].tick <= k
    ensures j < |ArrivedBy(arrivals, k)| && ArrivedBy(arrivals, k)[j] == arrivals[i].response
  {
    var head := if arrivals[0].tick <= k then [arrivals[0].response] else [];
    assert ArrivedBy(arrivals, k) == head + ArrivedBy(arrivals[1..], k);
    if i == 0 {
      j := 0;
    } else {
      var j' := ArrivedPosition(arrivals[1..], k, i - 1);
      j := |head| + j';
    }
  }

  /** Every member of `ArrivedBy(arrivals, k)` is an arrival by tick `k`. */
  lemma {:induction false} ArrivalOf(arrivals: seq<Arrival>, k: nat, j: nat) returns (i: nat)
    requires j < |ArrivedBy(arrivals, k)|
    ensures i < |arrivals| && arrivals[i].tick <= k && arrivals[i].response == ArrivedBy(arrivals, k)[j]
  {
    var head := if arrivals[0].tick <= k then [arrivals[0].response] else [];
    assert ArrivedBy(arrivals, k) == head + ArrivedBy(arrivals[1..], k);
    if j < |head| {
      i := 0;
    } else {
      var i' := ArrivalOf(arrivals[1..], k, j - |head|);
      i := i' + 1;
    }
  }

  /** What a scrape of `t` in environment `env` promises. */
  ghost predicate ScrapeOutcome(t: Target, env: TargetEnv, run: TargetRun) {
    && run.target == t
    // the `finally` block closes the browser exactly when it was launched
    && (run.browserOpened <==> env.fault != Some(LaunchFailed))
    && run.browserClosed == run.browserOpened
    // every failure is caught and logged, never propagated
    && (run.errorLogged <==> env.fault.Some?)
    && (run.noCaptureWarned ==> env.fault.None?)
    // no listener exists before the page is set up
    && (env.fault == Some(LaunchFailed) || env.fault == Some(PageSetupFailed) ==> run.capture == Awaiting)
    && (env.fault == Some(NavigationFailed) ==> run.capture == Observe(Awaiting, ArrivedBy(env.arrivals, 0)))
    // a completed scrape waited in whole intervals up to the deadline
    && (env.fault.None? ==>
          && run.waited % PollInterval == 0
          && run.waited <= MaxWait
          && run.capture == Observe(Awaiting, ArrivedBy(env.arrivals, run.waited / PollInterval))
          && (run.capture.Captured? || run.waited == MaxWait)
          && (forall k :: 0 <= k < run.waited / PollInterval ==> !CapturedBy(env.arrivals, k))
          && (run.noCaptureWarned <==> run.capture.Awaiting?))
  }

  /** `scrapeTarget`: the try block's stages in order, the catch, and the
      finally that closes a launched browser. */
  method ScrapeTarget(t: Target, env: TargetEnv) returns (run: TargetRun)
    ensures ScrapeOutcome(t, env, run)
  {
    var browserOpened := false;
    var errorLogged := false;
    var capture := Awaiting;
    var waited := 0;
    var noCaptureWarned := false;

    match env.fault {
      case Some(LaunchFailed) =>
        errorLogged := true;
      case Some(PageSetupFailed) =>
        browserOpened := true;
        errorLogged := true;
      case Some(NavigationFailed) =>
        browserOpened := true;
        capture := Observe(Awaiting, ArrivedBy(env.arrivals, 0));
        errorLogged := true;
      case None =>
        browserOpened := true;
        var flag := (k: nat) => CapturedBy(env.arrivals, k);
        var ticks, captured;
        waited, ticks, captured := WaitForCapture(flag);
        assert waited / PollInterval == ticks;
        forall k | 0 <= k < ticks
          ensures !CapturedBy(env.arrivals, k)
        {
          assert !flag(k);
        }
        capture := Observe(Awaiting, ArrivedBy(env.arrivals, ticks));
        CapturedByMeansCaptured(env.arrivals, ticks);
        noCaptureWarned := !captured;
    }
    var browserClosed := browserOpened;
    run := TargetRun(t, browserOpened, browserClosed, errorLogged, capture, waited, noCaptureWarned);
  }

  /** `runFullCycle`: every catalog target is scraped exactly once, in order,
      and a failing target does not stop the ones after it. `envs[i]` is
      what the browser does for `Catalog[i]`. */
  method RunFullCycle(envs: seq<TargetEnv>) returns (runs: seq<TargetRun>)
    requires |envs| == |Catalog|
    ensures |runs| == |Catalog|
    ensures forall i :: 0 <= i < |Catalog| ==> ScrapeOutcome(Catalog[i], envs[i], runs[i])
  {
    runs := [];
    var i := 0;
    while i < |Catalog|
      invariant 0 <= i <= |Catalog|
      invariant |runs| == i
      invariant forall j :: 0 <= j < i ==> ScrapeOutcome(Catalog[j], envs[j], runs[j])
    {
      var run := ScrapeTarget(Catalog[i], envs[i]);
      runs := runs + [run];
      i := i + 1;
    }
  }
}
