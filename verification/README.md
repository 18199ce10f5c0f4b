# GeoFence occupancy detector in Dafny

This project models the logic core of an iOS geofencing demo. It has two parts.

**The occupancy detector** (`GeoFenceDetectorService`) receives four signals:
- geofence entered, for a region;
- geofence exited;
- Wi-Fi connected, for a hotspot and the region that owns it;
- Wi-Fi disconnected.

It keeps three optional fields: the current region, the current Wi-Fi hotspot, and a "sticky" `tempRegion`, which is the region last entered through the geofence. It tells its delegate about two streams of news: region entered (with a title) or exited, and Wi-Fi connected (with a network name) or disconnected. Being connected to a region's own network counts as being inside that region.

**The new-region form** (`RegionsViewModel`) has two operations. A validator checks the region-name, radius and network-name fields. A constructor builds the region those fields describe.

Every operation is a pure function. The delegate is the sequence of callbacks the call makes, in order. Modules:
- `Wrappers`: `Option`, Swift's `T?`.
- `RegionModel`: `HotSpot` and `RegionObject`.
- `GeoFenceDetector`: the detector state, its seven operations and the corrected `disconnectWifi` (see Findings).
- `DetectorRuns`: whole sequences of signals, and what the delegate believes after them. The delegate's belief is the last callback of each stream. The invariants say when that belief agrees with the detector's own fields.
- `RegionsViewModel`: the form validator and the region constructor.

`GeoFenceDetector.Initial` is the state of `GeoFenceDetectorService()`, the initialiser called with its defaults (GeoFenceDetectorService.swift:21-25). That is how every caller builds the detector.

Two details follow the Swift code:
- The network passed to `setCurrentWifi` is optional (GeoFenceDetectorService.swift:44). A nil network in the second branch makes the Wi-Fi callback "disconnected".
- The exit callback `didExitRegion()` carries no region name (GeoFenceDetectorService.swift:12).

## Model

| member | source | states |
|---|---|---|
| GeoFenceDetector.DetectRegionChanges | iOS-Geofence-Demo/Services/GeoFenceDetectorService.swift:89-101 | Makes at most one callback, always on the region stream. It is "exited" exactly when both the region and the Wi-Fi are nil. It is "entered" with the region's title (or "") whenever a region is held. It makes no callback exactly when there is Wi-Fi but no region. |
| GeoFenceDetector.DidChangeWifi | iOS-Geofence-Demo/Services/GeoFenceDetectorService.swift:103-109 | Makes exactly one Wi-Fi callback. It is "connected", naming the hotspot, exactly when a hotspot is held; otherwise it is "disconnected". |
| GeoFenceDetector.CheckIfExitedRegionAndWifi | iOS-Geofence-Demo/Services/GeoFenceDetectorService.swift:114-123 | True exactly when four things hold: there is Wi-Fi, there is a sticky region, the Wi-Fi id equals the sticky region's network id, and the current region is nil. |
| GeoFenceDetector.SetCurrentRegion | iOS-Geofence-Demo/Services/GeoFenceDetectorService.swift:38-42 | Sets both the current and the sticky region to the entered region and keeps the Wi-Fi. Makes exactly one callback: "entered" with that region's title. |
| GeoFenceDetector.SetCurrentWifi | iOS-Geofence-Demo/Services/GeoFenceDetectorService.swift:44-58 | Always sets the Wi-Fi to the network and never touches the sticky region. If the held region owns a network with the same id, the region is kept and the only callback is "connected". Otherwise the region becomes the owner, and the callbacks are the Wi-Fi callback followed by "entered" with the owner's title. |
| GeoFenceDetector.ExitedRegion | iOS-Geofence-Demo/Services/GeoFenceDetectorService.swift:60-64 | Clears only the current region. Makes the single callback "exited" exactly when there is no Wi-Fi. With Wi-Fi still connected it makes no callback. |
| GeoFenceDetector.DisconnectWifi | iOS-Geofence-Demo/Services/GeoFenceDetectorService.swift:66-87 | The Wi-Fi is always nil afterwards. When the fully-left check holds, the detector returns to its initial state and calls "exited" then "disconnected". With no Wi-Fi it changes nothing and calls nothing. Otherwise it clears the Wi-Fi and calls "disconnected". Only when there is no sticky region does it also clear the region and call "exited". |
| GeoFenceDetector.DisconnectWifiCorrected | iOS-Geofence-Demo/Services/GeoFenceDetectorService.swift:73-87 | The Wi-Fi is nil afterwards. It behaves exactly like the source on the fully-left path, whenever a region is held, and whenever there is no sticky region. With no Wi-Fi it is a no-op. It differs in one case only: Wi-Fi held, no region, a sticky region whose network is not the Wi-Fi. There it clears the Wi-Fi and calls "disconnected" then "exited". If a connection is lost and no region remains, "exited" is among the callbacks. |
| RegionModel.DisplayTitle | iOS-Geofence-Demo/Services/GeoFenceDetectorService.swift:96 | The name reported for an optional region is its title, or "" when the region or its title is nil. |
| DetectorRuns.Run | iOS-Geofence-Demo/Services/GeoFenceDetectorService.swift:38-87 | Delivers signals one after another. Each signal makes at most two delegate callbacks. |
| DetectorRuns.ApplyKeepsRegionAndWifiViews | iOS-Geofence-Demo/Services/GeoFenceDetectorService.swift:38-109 | Any single signal keeps the delegate in step with the detector. The last region callback is "entered" with the held region's title. The last Wi-Fi callback names the held hotspot, or is "disconnected" when there is none. |
| DetectorRuns.RunKeepsDelegateInSync | iOS-Geofence-Demo/Services/GeoFenceDetectorService.swift:38-109 | From a fresh detector, after any sequence of signals, the delegate's last region callback and last Wi-Fi callback agree with the detector's region and Wi-Fi fields. This holds for both builds. |
| DetectorRuns.ApplyCorrectedKeepsExitView | iOS-Geofence-Demo/Services/GeoFenceDetectorService.swift:60-101 | With the corrected disconnect, suppose that whenever region and Wi-Fi were both nil the delegate's last region callback was "exited" (or there was none). Then any single signal keeps that true. |
| DetectorRuns.CorrectedRunAnnouncesExit | iOS-Geofence-Demo/Services/GeoFenceDetectorService.swift:73-87 | With the corrected disconnect, after any sequence of signals, a detector with neither region nor Wi-Fi has last told its delegate "exited" (or never mentioned a region). |
| DetectorRuns.ExitNeverAnnounced | iOS-Geofence-Demo/Services/GeoFenceDetectorService.swift:79-85 | With the source's disconnect, one sequence ends with both region and Wi-Fi nil while the delegate's last region callback is still "entered". The sequence is: enter region a, connect to another region b's network, exit the geofence, lose the Wi-Fi. |
| DetectorRuns.ExitNeverAnnouncedInRun | iOS-Geofence-Demo/Services/GeoFenceDetectorService.swift:79-85 | The same four signals, delivered as a run of the source's detector from its initial state, end with region and Wi-Fi both nil and break the "exited" view. This is the negation of what CorrectedRunAnnouncesExit proves for the corrected build. |
| DetectorRuns.DisconnectWifiIdempotent | iOS-Geofence-Demo/Services/GeoFenceDetectorService.swift:66-87 | A second disconnect right after a first changes nothing and makes no callback. |
| DetectorRuns.FullyLeftScenario | iOS-Geofence-Demo/Services/GeoFenceDetectorService.swift:66-72 | Start from any state, then enter region a, connect to a's own network, exit the geofence and lose the Wi-Fi. The callbacks are "entered", "connected", "exited", "disconnected": no duplicate "entered" and nothing on the geofence exit. The detector ends in its initial state. |
| DetectorRuns.ConnectWifiScenario | iOS-Geofence-DemoTests/ViewModelTest/GeoFenceViewModelTests.swift:95-115 | Connecting a fresh detector to a region's network calls "connected" and then "entered". |
| DetectorRuns.ConnectThenDisconnectScenario | iOS-Geofence-DemoTests/ViewModelTest/GeoFenceViewModelTests.swift:117-136 | Connecting then disconnecting calls "connected", "entered", "disconnected", "exited". |
| DetectorRuns.EnterThenExitScenario | iOS-Geofence-DemoTests/ViewModelTest/GeoFenceViewModelTests.swift:138-159 | Entering then exiting a geofence without Wi-Fi calls "entered" then "exited". |
| DetectorRuns.ConnectEnterExitScenario | iOS-Geofence-DemoTests/ViewModelTest/GeoFenceViewModelTests.swift:161-183 | Connect, geofence enter, then geofence exit never calls "exited". The region is entered twice. |
| RegionsViewModel.Validator | iOS-Geofence-Demo/ViewModel/RegionsViewModel.swift:40-54 | Makes exactly one validation callback. It reports true exactly when three checks pass: the name is present and non-empty, the radius text is present and parses to a positive number, and the network name is present and non-empty. |
| RegionsViewModel.CreateRegion | iOS-Geofence-Demo/ViewModel/RegionsViewModel.swift:24-37 | Makes exactly one new-region callback. The region's title is the typed name, its radius is passed through unchanged, and its identifier is the given one. Its hotspot has the typed network name, the given id and radius 100. |
| RegionsViewModel.ValidatedFieldsMakeWellFormedRegion | iOS-Geofence-Demo/ViewModel/RegionsViewModel.swift:24-54 | Suppose the validator accepts the fields. Then the radius text parses, and the region built from the fields has a non-empty title, a positive radius and a named network. The detector announces that region under the typed name. |
| RegionsViewModel.ValidatorTestScenarios | iOS-Geofence-DemoTests/ViewModelTest/RegionsViewModelTests.swift:13-71 | Take any parser that reads "500" as 500. The validator rejects (nil, nil, nil), ("Region", "500", nil) and ("Region", nil, ""). It accepts ("Region", "500", "Network"). |

## Left out

- Swift `Float`: radii are carried as `real` values and are only passed through or compared with zero. Rounding is not modelled.
- `Float(String)`: parsing the radius text is a function parameter of the validator, not a definition.
- Random identifiers (`randomString`): the identifiers that `createRegion` draws are parameters.
- Region coordinates and creation date: the centre coordinates and the `created` date are omitted. No behaviour modelled here reads them. `getCoordinates` and `annotableRegion` convert them for the map view.
- RegionsViewModel.CreateRegion: does not state anything about the region's coordinates, because the coordinates are not modelled.
- Weak delegate: the delegate is always present. A nil or deallocated delegate, which silently drops callbacks in Swift, is not modelled.
- `setDelegate`: only replaces the delegate reference. It has no effect on the detector's state.
- Geofence monitoring (`LocationService`) and platform Wi-Fi events: these are inputs to the detector. Authorisation and region monitoring are platform calls.
- Persistence (`RegionDataSource`, `RegionDefaultManager`): JSON encoding into UserDefaults, an opaque platform store.
- `GeoFenceViewModel` and `WifiListViewModel`: these only load and save regions through the data source. The version of `GeoFenceViewModel` that the unit tests drive forwards signals to the detector, but it is not among the source files. The scenario lemmas therefore take the already-resolved region.
- View controllers, views and extensions: UIKit and MapKit presentation with no stated behaviour.

## Findings

| source | as written | input that shows it | evidently intended | confidence | as-written member | corrected member |
|---|---|---|---|---|---|---|
| iOS-Geofence-Demo/Services/GeoFenceDetectorService.swift:79-85 | A Wi-Fi loss that is not the "fully left" case reconciles regions only when there is no sticky region. A sticky region left over from an earlier geofence entry stops the "exited" callback, even when the geofence has already reported an exit. | Four signals to a fresh detector: enter region a, connect to region b's network (b's network id differs from a's), exit the geofence, lose the Wi-Fi. Region and Wi-Fi both end nil, and the callbacks are entered(a), connected(b), entered(b), disconnected, with no "exited". | Once neither the geofence nor the Wi-Fi places the user in a region, the delegate is told "exited". This is what reconciliation does when both fields are nil. | medium; not executed | DetectorRuns.ExitNeverAnnounced, with DetectorRuns.ExitNeverAnnouncedInRun | GeoFenceDetector.DisconnectWifiCorrected, with DetectorRuns.CorrectedRunAnnouncesExit |
