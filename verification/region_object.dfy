/**
  The records the detector and the region form work on: a Wi-Fi hotspot and a
  circular geofence region that owns exactly one hotspot.

  Swift `Float` values (the radii) are carried as `real` values: the model only
  passes them through and compares a radius with zero, so no floating-point
  rounding enters any property stated here.
 */
module RegionModel {
  import opened Wrappers

  /** A Wi-Fi network. The detector compares a region's hotspot with the
      connected one only in a branch whose call is the same as the next
      branch's, so how two hotspots compare never changes its behaviour. */
  datatype HotSpot = HotSpot(id: string, name: string, radius: real)

  /** A geofence region with its "home" network. The centre coordinates and the
      creation date play no part in any behaviour modelled here and are omitted. */
  datatype RegionObject = RegionObject(
    id: string,
    title: Option<string>,
    radius: real,
    network: HotSpot)

  /** `region?.title ?? ""`: the name a delegate is told for an optional region. */
  function DisplayTitle(region: Option<RegionObject>): (name: string)
    ensures region.None? ==> name == ""
    ensures region.Some? && region.value.title.Some? ==> name == region.value.title.value
    ensures region.Some? && region.value.title.None? ==> name == ""
  {
    match region
    case None => ""
    case Some(r) => r.title.GetOr("")
  }

  /** `region?.network`: the home network of an optional region. */
  function NetworkOf(region: Option<RegionObject>): (network: Option<HotSpot>)
    ensures network.Some? <==> region.Some?
    ensures region.Some? ==> network.value == region.value.network
  {
    match region
    case None => None
    case Some(r) => Some(r.network)
  }
}
