/**
  The new-region form (`RegionsViewModel`): a validator for the three text
  fields and a constructor for the region the form describes. Each operation
  reports to its delegate; the delegate is modelled as the sequence of
  callbacks the call makes.
 */
module RegionsViewModel {
  import opened Wrappers
  import opened RegionModel

  /** One callback of `RegionsViewModelDelegate`. */
  datatype Callback =
    | GetNewRegion(region: RegionObject)
    | IsFieldsValidated(status: bool)

  /** The radius every new region's hotspot is given. */
  const HotSpotRadius: real := 100.0

  /** The region-name field holds at least one character. */
  predicate NameIsValid(regionName: Option<string>) {
    regionName.Some? && |regionName.value| > 0
  }

  /** The radius field holds text that parses to a positive number. `parse`
      stands for Swift's `Float(String)` initialiser, which yields nil on text
      that is not a number. */
  predicate RadiusIsValid(radiusText: Option<string>, parse: string -> Option<real>) {
    radiusText.Some? && parse(radiusText.value).Some? && parse(radiusText.value).value > 0.0
  }

  /** The network-name field holds at least one character. */
  predicate NetworkIsValid(network: Option<string>) {
    network.Some? && |network.value| > 0
  }

  /** `validator`: three guards in turn, each reporting false and returning as
      soon as its field is unacceptable; true when all three pass. */
  function Validator(
    regionName: Option<string>,
    radiusText: Option<string>,
    network: Option<string>,
    parse: string -> Option<real>): (callbacks: seq<Callback>)
    ensures |callbacks| == 1 && callbacks[0].IsFieldsValidated?
    ensures callbacks[0].status <==>
      NameIsValid(regionName) && RadiusIsValid(radiusText, parse) && NetworkIsValid(network)
  {
    if regionName.None? || |regionName.value| == 0 then
      [IsFieldsValidated(false)]
    else if radiusText.None? then
      [IsFieldsValidated(false)]
    else
      match parse(radiusText.value)
      case None => [IsFieldsValidated(false)]
      case Some(radius) =>
        if radius <= 0.0 then
          [IsFieldsValidated(false)]
        else if network.None? || |network.value| == 0 then
          [IsFieldsValidated(false)]
        else
          [IsFieldsValidated(true)]
  }

  /** `createRegion`: builds the region and reports it once. The three random
      identifiers of the source are parameters here; the centre coordinates are
      not modelled. */
  function CreateRegion(
    regionName: string,
    radius: real,
    network: string,
    identifier: string,
    hotspotId: string): (callbacks: seq<Callback>)
    ensures |callbacks| == 1 && callbacks[0].GetNewRegion?
    ensures callbacks[0].region.title == Some(regionName)
    ensures callbacks[0].region.radius == radius
    ensures callbacks[0].region.network.name == network
    ensures callbacks[0].region.network.radius == 100.0
    ensures callbacks[0].region.id == identifier
    ensures callbacks[0].region.network.id == hotspotId
  {
    var hotspot := HotSpot(hotspotId, network, HotSpotRadius);
    [GetNewRegion(RegionObject(identifier, Some(regionName), radius, hotspot))]
  }

  /** A region built from fields the validator accepted has a non-empty title,
      a positive radius and a named network, and the detector will announce it
      under the name typed into the form. */
  lemma ValidatedFieldsMakeWellFormedRegion(
    regionName: string, radiusText: string, network: string,
    parse: string -> Option<real>, identifier: string, hotspotId: string)
    requires Validator(Some(regionName), Some(radiusText), Some(network), parse) == [IsFieldsValidated(true)]
    ensures parse(radiusText).Some?
    ensures var r := CreateRegion(regionName, parse(radiusText).value, network, identifier, hotspotId)[0].region;
      && |r.title.value| > 0 && r.radius > 0.0 && |r.network.name| > 0
      && DisplayTitle(Some(r)) == regionName
  {
  }

  /** The scenarios of the view model's unit tests, for any parser that reads
      "500" as 500. */
  lemma ValidatorTestScenarios(parse: string -> Option<real>)
    requires parse("500") == Some(500.0)
    ensures Validator(None, None, None, parse) == [IsFieldsValidated(false)]
    ensures Validator(Some("Region"), Some("500"), None, parse) == [IsFieldsValidated(false)]
    ensures Validator(Some("Region"), None, Some(""), parse) == [IsFieldsValidated(false)]
    ensures Validator(Some("Region"), Some("500"), Some("Network"), parse) == [IsFieldsValidated(true)]
  {
  }
}
