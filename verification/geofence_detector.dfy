/**
  The occupancy detector (`GeoFenceDetectorService`): it fuses geofence
  enter/exit events and Wi-Fi connect/disconnect events into two notification
  streams for its delegate.

  The Swift class mutates three optional fields and calls its delegate
  synchronously. Here every public operation is a pure function from the old
  `State` to a `Step`: the new state together with the delegate callbacks the
  call makes, in order. The delegate is always present; Swift's weak,
  possibly-nil delegate is not modelled.
 */
module GeoFenceDetector {
  import opened Wrappers
  import opened RegionModel

  /** One callback of `GeoFenceDetectorServiceDelegate`. */
  datatype Event =
    | DidEnteredRegion(name: string)
    | DidExitRegion
    | ConnectedToWifi(networkName: string)
    | WifiDisconnected
  {
    /** Which of the two notification streams the callback belongs to. */
    function Stream(): Stream {
      if DidEnteredRegion? || DidExitRegion? then RegionStream else WifiStream
    }
  }

  datatype Stream = RegionStream | WifiStream

  /** The detector's three private fields. `tempRegion` is the "sticky" copy of
      the region most recently entered through the geofence. */
  datatype State = State(
    currentWifi: Option<HotSpot>,
    currentRegion: Option<RegionObject>,
    tempRegion: Option<RegionObject>)

  /** The outcome of one call: the new state and the callbacks made, in order. */
  datatype Step = Step(state: State, events: seq<Event>)

  /** The state of `GeoFenceDetectorService()`, the initialiser called with its
      defaults: no Wi-Fi, no region, no sticky region. */
  const Initial := State(None, None, None)

  /** Region reconciliation (`detectRegionChanges`), run after a state change.
      The second and third branches of the source make the same call; the
      second can only hold when there is a current region. */
  function DetectRegionChanges(s: State): (events: seq<Event>)
    ensures |events| <= 1
    ensures forall e | e in events :: e.Stream() == RegionStream
    ensures events == [DidExitRegion] <==> s.currentWifi.None? && s.currentRegion.None?
    ensures s.currentRegion.Some? ==> events == [DidEnteredRegion(DisplayTitle(s.currentRegion))]
    ensures events == [] <==> s.currentRegion.None? && s.currentWifi.Some?
  {
    if s.currentWifi.None? && s.currentRegion.None? then
      [DidExitRegion]
    else if NetworkOf(s.currentRegion) == s.currentWifi then
      [DidEnteredRegion(DisplayTitle(s.currentRegion))]
    else if s.currentRegion.Some? then
      [DidEnteredRegion(DisplayTitle(s.currentRegion))]
    else
      []
  }

  /** The Wi-Fi notification describing a connection, or its absence. */
  function WifiEvent(wifi: Option<HotSpot>): Event {
    if wifi.Some? then ConnectedToWifi(wifi.value.name) else WifiDisconnected
  }

  /** `didChangeWifi`: exactly one Wi-Fi callback describing `currentWifi`. */
  function DidChangeWifi(s: State): (events: seq<Event>)
    ensures |events| == 1 && events[0].Stream() == WifiStream
    ensures events[0].ConnectedToWifi? <==> s.currentWifi.Some?
    ensures s.currentWifi.Some? ==> events[0].networkName == s.currentWifi.value.name
  {
    [WifiEvent(s.currentWifi)]
  }

  /** `checkIfExitedRegionAndWifi`: the geofence has already reported an exit
      and the network being left is the sticky region's own network. */
  function CheckIfExitedRegionAndWifi(s: State): (exited: bool)
    ensures exited <==>
      && s.currentWifi.Some?
      && s.tempRegion.Some?
      && s.currentWifi.value.id == s.tempRegion.value.network.id
      && s.currentRegion.None?
  {
    match (s.currentWifi, s.tempRegion)
    case (Some(wifi), Some(temp)) =>
      wifi.id == temp.network.id && s.currentRegion == None
    case _ => false
  }

  /** `setCurrentRegion`: a geofence-enter event for `region`. */
  function SetCurrentRegion(s: State, region: RegionObject): (step: Step)
    ensures step.state.currentRegion == Some(region)
    ensures step.state.tempRegion == Some(region)
    ensures step.state.currentWifi == s.currentWifi
    ensures step.events == [DidEnteredRegion(region.title.GetOr(""))]
  {
    var s' := s.(currentRegion := Some(region), tempRegion := Some(region));
    Step(s', DetectRegionChanges(s'))
  }

  /** The test of the first branch of `setCurrentWifi`: the region already
      occupied owns the network being connected. */
  predicate IsSameNetworkRefresh(s: State, network: Option<HotSpot>) {
    s.currentRegion.Some? && network.Some? && s.currentRegion.value.network.id == network.value.id
  }

  /** `setCurrentWifi`: a Wi-Fi connect event for `network`, whose owning region
      `region` the caller has already looked up. */
  function SetCurrentWifi(s: State, region: RegionObject, network: Option<HotSpot>): (step: Step)
    ensures step.state.currentWifi == network
    ensures step.state.tempRegion == s.tempRegion
    ensures IsSameNetworkRefresh(s, network) ==>
      && step.state.currentRegion == s.currentRegion
      && step.events == [ConnectedToWifi(network.value.name)]
    ensures !IsSameNetworkRefresh(s, network) ==>
      && step.state.currentRegion == Some(region)
      && step.events == [WifiEvent(network), DidEnteredRegion(region.title.GetOr(""))]
  {
    if IsSameNetworkRefresh(s, network) then
      var s' := s.(currentWifi := network);
      Step(s', DidChangeWifi(s'))
    else
      var s' := s.(currentRegion := Some(region), currentWifi := network);
      Step(s', DidChangeWifi(s') + DetectRegionChanges(s'))
  }

  /** `exitedRegion`: a geofence-exit event. The sticky region is kept. */
  function ExitedRegion(s: State): (step: Step)
    ensures step.state == s.(currentRegion := None)
    ensures step.events == [DidExitRegion] <==> s.currentWifi.None?
    ensures step.events == [] <==> s.currentWifi.Some?
  {
    var s' := s.(currentRegion := None);
    Step(s', DetectRegionChanges(s'))
  }

  /** `disconnectWifi`: a Wi-Fi disconnect event, as the source writes it. */
  function DisconnectWifi(s: State): (step: Step)
    ensures step.state.currentWifi.None?
    ensures CheckIfExitedRegionAndWifi(s) ==>
      step == Step(Initial, [DidExitRegion, WifiDisconnected])
    ensures !CheckIfExitedRegionAndWifi(s) && s.currentWifi.None? ==>
      step == Step(s, [])
    ensures !CheckIfExitedRegionAndWifi(s) && s.currentWifi.Some? && s.tempRegion.Some? ==>
      step == Step(s.(currentWifi := None), [WifiDisconnected])
    ensures !CheckIfExitedRegionAndWifi(s) && s.currentWifi.Some? && s.tempRegion.None? ==>
      step == Step(s.(currentWifi := None, currentRegion := None), [WifiDisconnected, DidExitRegion])
  {
    if CheckIfExitedRegionAndWifi(s) then
      var s' := s.(tempRegion := None, currentWifi := None);
      Step(s', DetectRegionChanges(s') + DidChangeWifi(s'))
    else if s.currentWifi.Some? then
      var s1 := s.(currentWifi := None);
      var wifiEvents := DidChangeWifi(s1);
      if s1.tempRegion.None? then
        var s2 := s1.(currentRegion := None);
        Step(s2, wifiEvents + DetectRegionChanges(s2))
      else
        Step(s1, wifiEvents)
    else
      Step(s, [])
  }

  /** `disconnectWifi` with the reconciliation step that the source skips when a
      stale sticky region is left over: once the Wi-Fi is gone and the geofence
      has already reported an exit, the region stream is reconciled too. */
  function DisconnectWifiCorrected(s: State): (step: Step)
    ensures step.state.currentWifi.None?
    ensures s.currentWifi.Some? && step.state.currentRegion.None? ==> DidExitRegion in step.events
    ensures s.currentRegion.Some? || s.tempRegion.None? ==> step == DisconnectWifi(s)
    ensures CheckIfExitedRegionAndWifi(s) ==> step == DisconnectWifi(s)
    ensures s.currentWifi.Some? && s.currentRegion.None? && s.tempRegion.Some? && !CheckIfExitedRegionAndWifi(s) ==>
      step == Step(s.(currentWifi := None), [WifiDisconnected, DidExitRegion])
    ensures s.currentWifi.None? ==> step == Step(s, [])
  {
    if CheckIfExitedRegionAndWifi(s) then
      var s' := s.(tempRegion := None, currentWifi := None);
      Step(s', DetectRegionChanges(s') + DidChangeWifi(s'))
    else if s.currentWifi.Some? then
      var s1 := s.(currentWifi := None);
      var wifiEvents := DidChangeWifi(s1);
      if s1.tempRegion.None? || s1.currentRegion.None? then
        var s2 := s1.(currentRegion := None);
        Step(s2, wifiEvents + DetectRegionChanges(s2))
      else
        Step(s1, wifiEvents)
    else
      Step(s, [])
  }
}
