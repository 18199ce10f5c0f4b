/**
  Sequences of events fed to the occupancy detector, and what the delegate
  believes afterwards.

  The delegate only learns about occupancy through callbacks, so what it
  believes is the most recent callback of each stream. The invariants below
  say when that belief agrees with the detector's own fields.
 */
module DetectorRuns {
  import opened Wrappers
  import opened RegionModel
  import opened GeoFenceDetector

  /** The four signals that reach the detector. `WifiConnected` carries the
      region the caller resolved as the owner of the network. */
  datatype Input =
    | FenceEntered(region: RegionObject)
    | FenceExited
    | WifiConnected(owner: RegionObject, network: Option<HotSpot>)
    | WifiLost

  /** Which `disconnectWifi` the detector runs: the source's, or the corrected
      one of the findings. */
  datatype Build = AsWritten | Corrected

  /** One signal delivered to the detector. */
  function Apply(build: Build, s: State, input: Input): Step {
    match input
    case FenceEntered(r) => SetCurrentRegion(s, r)
    case FenceExited => ExitedRegion(s)
    case WifiConnected(r, n) => SetCurrentWifi(s, r, n)
    case WifiLost => if build == AsWritten then DisconnectWifi(s) else DisconnectWifiCorrected(s)
  }

  /** Signals delivered one after another; the callbacks of all calls in order. */
  function Run(build: Build, s: State, inputs: seq<Input>): (step: Step)
    ensures |step.events| <= 2 * |inputs|
    decreases |inputs|
  {
    if |inputs| == 0 then
      Step(s, [])
    else
      var before := Run(build, s, inputs[..|inputs| - 1]);
      var last := Apply(build, before.state, inputs[|inputs| - 1]);
      Step(last.state, before.events + last.events)
  }

  /** Delivering one more signal extends the run by that signal's step. */
  lemma RunSnoc(build: Build, s: State, inputs: seq<Input>, input: Input)
    ensures var before := Run(build, s, inputs);
      var last := Apply(build, before.state, input);
      Run(build, s, inputs + [input]) == Step(last.state, before.events + last.events)
  {
  }

  /** The most recent callback of `stream` in `log`, if any. */
  function LastOf(log: seq<Event>, stream: Stream): (last: Option<Event>)
    ensures last.Some? ==> last.value in log && last.value.Stream() == stream
    ensures last.None? <==> forall e | e in log :: e.Stream() != stream
    decreases |log|
  {
    if |log| == 0 then
      None
    else if log[|log| - 1].Stream() == stream then
      Some(log[|log| - 1])
    else
      LastOf(log[..|log| - 1], stream)
  }

  lemma {:induction false} LastOfAppend(a: seq<Event>, b: seq<Event>, stream: Stream)
    ensures LastOf(a + b, stream) == if LastOf(b, stream).Some? then LastOf(b, stream) else LastOf(a, stream)
    decreases |b|
  {
    if |b| > 0 {
      assert (a + b)[..|a + b| - 1] == a + b[..|b| - 1];
      LastOfAppend(a, b[..|b| - 1], stream);
    } else {
      assert a + b == a;
    }
  }

  /** A delegate that was last told "entered" while the detector holds a region
      was told that region's name. */
  predicate RegionViewAgrees(s: State, log: seq<Event>) {
    s.currentRegion.Some? ==>
      LastOf(log, RegionStream) == Some(DidEnteredRegion(DisplayTitle(s.currentRegion)))
  }

  /** The delegate's last Wi-Fi callback names the connected network, or says
      "disconnected" (or nothing) when there is none. */
  predicate WifiViewAgrees(s: State, log: seq<Event>) {
    match s.currentWifi
    case Some(w) => LastOf(log, WifiStream) == Some(ConnectedToWifi(w.name))
    case None => LastOf(log, WifiStream) in {None, Some(WifiDisconnected)}
  }

  /** When neither signal holds, the delegate was last told "exited" (or never
      heard of a region at all). */
  predicate ExitViewAgrees(s: State, log: seq<Event>) {
    s.currentRegion.None? && s.currentWifi.None? ==>
      LastOf(log, RegionStream) in {None, Some(DidExitRegion)}
  }

  /** Both views hold of `s` and `log`. */
  predicate ViewsAgree(s: State, log: seq<Event>) {
    RegionViewAgrees(s, log) && WifiViewAgrees(s, log)
  }

  // Each operation keeps both views; the disconnect cases need the append
  // lemma, the others follow from the operations' contracts.

  lemma SetCurrentRegionKeepsViews(s: State, log: seq<Event>, region: RegionObject)
    requires ViewsAgree(s, log)
    ensures var step := SetCurrentRegion(s, region); ViewsAgree(step.state, log + step.events)
  {
  }

  lemma SetCurrentWifiKeepsViews(s: State, log: seq<Event>, region: RegionObject, network: Option<HotSpot>)
    requires ViewsAgree(s, log)
    ensures var step := SetCurrentWifi(s, region, network); ViewsAgree(step.state, log + step.events)
  {
  }

  lemma ExitedRegionKeepsViews(s: State, log: seq<Event>)
    requires ViewsAgree(s, log)
    ensures var step := ExitedRegion(s); ViewsAgree(step.state, log + step.events)
  {
    var step := ExitedRegion(s);
    LastOfAppend(log, step.events, RegionStream);
    LastOfAppend(log, step.events, WifiStream);
  }

  lemma DisconnectWifiKeepsViews(s: State, log: seq<Event>)
    requires ViewsAgree(s, log)
    ensures var step := DisconnectWifi(s); ViewsAgree(step.state, log + step.events)
  {
    var step := DisconnectWifi(s);
    LastOfAppend(log, step.events, RegionStream);
    LastOfAppend(log, step.events, WifiStream);
  }

  lemma DisconnectWifiCorrectedKeepsViews(s: State, log: seq<Event>)
    requires ViewsAgree(s, log)
    ensures var step := DisconnectWifiCorrected(s); ViewsAgree(step.state, log + step.events)
  {
    var step := DisconnectWifiCorrected(s);
    LastOfAppend(log, step.events, RegionStream);
    LastOfAppend(log, step.events, WifiStream);
  }

  /** Whichever signal arrives, the delegate stays in step with the detector. */
  lemma ApplyKeepsRegionAndWifiViews(build: Build, s: State, log: seq<Event>, input: Input)
    requires ViewsAgree(s, log)
    ensures var step := Apply(build, s, input); ViewsAgree(step.state, log + step.events)
  {
    match input
    case FenceEntered(r) => SetCurrentRegionKeepsViews(s, log, r);
    case FenceExited => ExitedRegionKeepsViews(s, log);
    case WifiConnected(r, n) => SetCurrentWifiKeepsViews(s, log, r, n);
    case WifiLost =>
      if build == AsWritten {
        DisconnectWifiKeepsViews(s, log);
      } else {
        DisconnectWifiCorrectedKeepsViews(s, log);
      }
  }

  lemma ApplyCorrectedKeepsExitView(s: State, log: seq<Event>, input: Input)
    requires ExitViewAgrees(s, log)
    ensures var step := Apply(Corrected, s, input); ExitViewAgrees(step.state, log + step.events)
  {
    var step := Apply(Corrected, s, input);
    LastOfAppend(log, step.events, RegionStream);
  }

  /** From a fresh detector, whatever the signals, the delegate's last region
      callback names the region the detector holds, and its last Wi-Fi callback
      describes the detector's connection. */
  lemma {:induction false} RunKeepsDelegateInSync(build: Build, inputs: seq<Input>)
    ensures var step := Run(build, Initial, inputs); ViewsAgree(step.state, step.events)
    decreases |inputs|
  {
    if |inputs| > 0 {
      var before := Run(build, Initial, inputs[..|inputs| - 1]);
      RunKeepsDelegateInSync(build, inputs[..|inputs| - 1]);
      ApplyKeepsRegionAndWifiViews(build, before.state, before.events, inputs[|inputs| - 1]);
    }
  }

  /** With the corrected `disconnectWifi`, once both signals are gone the
      delegate's last region callback is "exited". */
  lemma {:induction false} CorrectedRunAnnouncesExit(inputs: seq<Input>)
    ensures var step := Run(Corrected, Initial, inputs); ExitViewAgrees(step.state, step.events)
    decreases |inputs|
  {
    if |inputs| > 0 {
      var before := Run(Corrected, Initial, inputs[..|inputs| - 1]);
      CorrectedRunAnnouncesExit(inputs[..|inputs| - 1]);
      ApplyCorrectedKeepsExitView(before.state, before.events, inputs[|inputs| - 1]);
    }
  }

  /** The source's `disconnectWifi` can leave both signals gone without ever
      telling the delegate: enter region `a` by geofence, connect to the network
      of another region `b`, leave the geofence, lose the Wi-Fi. The last region
      callback is still "entered" for `b`. */
  lemma ExitNeverAnnounced(a: RegionObject, b: RegionObject)
    requires a.network.id != b.network.id
    ensures var t1 := SetCurrentRegion(Initial, a);
      var t2 := SetCurrentWifi(t1.state, b, Some(b.network));
      var t3 := ExitedRegion(t2.state);
      var t4 := DisconnectWifi(t3.state);
      var log := t1.events + t2.events + t3.events + t4.events;
      && t4.state.currentRegion.None? && t4.state.currentWifi.None?
      && log == [DidEnteredRegion(a.title.GetOr("")), ConnectedToWifi(b.network.name),
                 DidEnteredRegion(b.title.GetOr("")), WifiDisconnected]
      && !ExitViewAgrees(t4.state, log)
  {
    var t1 := SetCurrentRegion(Initial, a);
    var t2 := SetCurrentWifi(t1.state, b, Some(b.network));
    assert !IsSameNetworkRefresh(t1.state, Some(b.network));
    var t3 := ExitedRegion(t2.state);
    var t4 := DisconnectWifi(t3.state);
    assert t3.state == State(Some(b.network), None, Some(a));
    LastOfAppend(t1.events + t2.events + t3.events, t4.events, RegionStream);
    LastOfAppend(t1.events, t2.events, RegionStream);
  }

  // The run of the counterexample, one prefix at a time.

  lemma CounterexampleFirstTwo(a: RegionObject, b: RegionObject)
    requires a.network.id != b.network.id
    ensures Run(AsWritten, Initial, [FenceEntered(a), WifiConnected(b, Some(b.network))])
      == Step(State(Some(b.network), Some(b), Some(a)),
              [DidEnteredRegion(a.title.GetOr("")), ConnectedToWifi(b.network.name), DidEnteredRegion(b.title.GetOr(""))])
  {
    var i1, i2 := FenceEntered(a), WifiConnected(b, Some(b.network));
    assert [] + [i1] == [i1];
    assert [i1] + [i2] == [i1, i2];
    RunSnoc(AsWritten, Initial, [], i1);
    RunSnoc(AsWritten, Initial, [i1], i2);
  }

  lemma CounterexampleFirstThree(a: RegionObject, b: RegionObject)
    requires a.network.id != b.network.id
    ensures Run(AsWritten, Initial, [FenceEntered(a), WifiConnected(b, Some(b.network)), FenceExited])
      == Step(State(Some(b.network), None, Some(a)),
              [DidEnteredRegion(a.title.GetOr("")), ConnectedToWifi(b.network.name), DidEnteredRegion(b.title.GetOr(""))])
  {
    var i1, i2 := FenceEntered(a), WifiConnected(b, Some(b.network));
    assert [i1, i2] + [FenceExited] == [i1, i2, FenceExited];
    CounterexampleFirstTwo(a, b);
    RunSnoc(AsWritten, Initial, [i1, i2], FenceExited);
  }

  /** The same counterexample as a run of the source's detector from a fresh
      state: it breaks the exit view that `CorrectedRunAnnouncesExit` proves
      for the corrected build. */
  lemma ExitNeverAnnouncedInRun(a: RegionObject, b: RegionObject)
    requires a.network.id != b.network.id
    ensures var step := Run(AsWritten, Initial,
                            [FenceEntered(a), WifiConnected(b, Some(b.network)), FenceExited, WifiLost]);
      && step.state.currentRegion.None? && step.state.currentWifi.None?
      && !ExitViewAgrees(step.state, step.events)
  {
    var i1, i2, i3 := FenceEntered(a), WifiConnected(b, Some(b.network)), FenceExited;
    assert [i1, i2, i3] + [WifiLost] == [i1, i2, i3, WifiLost];
    CounterexampleFirstThree(a, b);
    RunSnoc(AsWritten, Initial, [i1, i2, i3], WifiLost);
    var before := Run(AsWritten, Initial, [i1, i2, i3]);
    var last := DisconnectWifi(before.state);
    assert last == Step(State(None, None, Some(a)), [WifiDisconnected]);
    LastOfAppend(before.events, last.events, RegionStream);
  }

  /** Losing the Wi-Fi twice is the same as losing it once: the second call
      changes nothing and tells the delegate nothing. */
  lemma DisconnectWifiIdempotent(s: State)
    ensures var once := DisconnectWifi(s);
      DisconnectWifi(once.state) == Step(once.state, [])
  {
  }

  /** Whatever came before, entering a region by geofence, connecting to that
      region's own network, leaving the geofence and losing the Wi-Fi tells the
      delegate "entered", "connected", then "exited" and "disconnected", with no
      second "entered" and nothing on the geofence exit, and leaves the detector
      as fresh as a new one. */
  lemma FullyLeftScenario(s: State, a: RegionObject)
    ensures var t1 := SetCurrentRegion(s, a);
      var t2 := SetCurrentWifi(t1.state, a, Some(a.network));
      var t3 := ExitedRegion(t2.state);
      var t4 := DisconnectWifi(t3.state);
      && t1.events + t2.events + t3.events + t4.events
         == [DidEnteredRegion(a.title.GetOr("")), ConnectedToWifi(a.network.name), DidExitRegion, WifiDisconnected]
      && t4.state == Initial
  {
  }

  /** Connecting to a region's network from a fresh detector tells the
      delegate both "connected" and "entered" (the view-model test of a Wi-Fi
      connection). */
  lemma ConnectWifiScenario(r: RegionObject)
    ensures var step := Run(AsWritten, Initial, [WifiConnected(r, Some(r.network))]);
      step.events == [ConnectedToWifi(r.network.name), DidEnteredRegion(r.title.GetOr(""))]
  {
  }

  /** Connecting and then losing the Wi-Fi ends with "disconnected" and, since
      no geofence ever confirmed the region, "exited". */
  lemma ConnectThenDisconnectScenario(r: RegionObject)
    ensures var step := Run(AsWritten, Initial, [WifiConnected(r, Some(r.network)), WifiLost]);
      step.events == [ConnectedToWifi(r.network.name), DidEnteredRegion(r.title.GetOr("")),
                      WifiDisconnected, DidExitRegion]
  {
    var connect := WifiConnected(r, Some(r.network));
    ConnectWifiScenario(r);
    RunSnoc(AsWritten, Initial, [connect], WifiLost);
    assert [connect] + [WifiLost] == [connect, WifiLost];
  }

  /** Entering and leaving a geofence with no Wi-Fi tells the delegate
      "entered" and then "exited". */
  lemma EnterThenExitScenario(r: RegionObject)
    ensures var step := Run(AsWritten, Initial, [FenceEntered(r), FenceExited]);
      step.events == [DidEnteredRegion(r.title.GetOr("")), DidExitRegion]
  {
    var enter := FenceEntered(r);
    RunSnoc(AsWritten, Initial, [], enter);
    RunSnoc(AsWritten, Initial, [enter], FenceExited);
    assert [] + [enter] == [enter];
    assert [enter] + [FenceExited] == [enter, FenceExited];
  }

  /** Leaving the geofence while still on the region's network tells the
      delegate nothing: no "exited" is ever sent. */
  lemma ConnectEnterExitScenario(r: RegionObject)
    ensures var step := Run(AsWritten, Initial, [WifiConnected(r, Some(r.network)), FenceEntered(r), FenceExited]);
      step.events == [ConnectedToWifi(r.network.name), DidEnteredRegion(r.title.GetOr("")),
                      DidEnteredRegion(r.title.GetOr(""))]
  {
    var connect, enter := WifiConnected(r, Some(r.network)), FenceEntered(r);
    ConnectWifiScenario(r);
    RunSnoc(AsWritten, Initial, [connect], enter);
    RunSnoc(AsWritten, Initial, [connect, enter], FenceExited);
    assert [connect] + [enter] == [connect, enter];
    assert [connect, enter] + [FenceExited] == [connect, enter, FenceExited];
  }
}
