/**
 The placement routine of `BuildingBuilder`: a bounded retry loop that fuzzes
 the target coordinate, checks the fuzzed footprint against the zone the
 building's class needs and against road proximity, asks the map whether the
 building may go there, and builds on the first pass that passes all of it.

 The random fuzz is injected: `fuzzed[k]` is the coordinate that
 `coordinate.fuzz(width)` returned on pass `k`. With that sequence fixed, one
 call is a deterministic function of the map state.
 */
module BuildingBuilder {
  import opened Wrappers
  import opened CityData

  /** The number of passes one call may make. */
  const MaxTries: nat := 50

  /** The placement routine's collaborators: the map and its pathfinder. */
  datatype Builder<!S> = Builder(cityMap: CityMap<S>, pathfinder: Pathfinder<S>)

  /** The class of building each zone houses; the inverse of `FindZoneForBuilding`. */
  function HousedClass(zone: Zone): BuildingClass
  {
    match zone
    case Residential => ResidentialClass
    case Commercial => CommercialClass
    case Industrial => IndustrialClass
  }

  /** The zone a building's exact class requires, or `None` when it has none. */
  function FindZoneForBuilding(b: Building): (r: Option<Zone>)
    ensures r.None? <==> b.cls.OtherClass?
    ensures r.Some? ==> HousedClass(r.value) == b.cls
  {
    match b.cls
    case ResidentialClass => Some(Residential)
    case CommercialClass => Some(Commercial)
    case IndustrialClass => Some(Industrial)
    case OtherClass(_) => None
  }

  /** Whether every block of `blocks` carries `zone`, evaluated block by block. */
  function AllZoned(layer: map<Coord, Zone>, zone: Zone, blocks: seq<Coord>): (r: bool)
    ensures r <==> AllBlocksZoned(layer, zone, blocks)
  {
    if |blocks| == 0 then true
    else ZonedAs(layer, blocks[0], zone) && AllZoned(layer, zone, blocks[1..])
  }

  /** The two findings of the footprint pre-check, each of which the program logs. */
  datatype FootprintCheck = FootprintCheck(isZoned: bool, nearRoad: bool)
  {
    predicate Passed() { isZoned && nearRoad }
  }

  /** Every block of the footprint carries `zone`, and the pathfinder finds a road near it. */
  ghost predicate FootprintConforms<S>(bb: Builder<S>, s: S, zone: Zone, blocks: seq<Coord>)
  {
    && AllBlocksZoned(bb.cityMap.zoneLayer(s), zone, blocks)
    && bb.pathfinder.nearbyRoad(s, blocks)
  }

  /**
   The zone-and-road pre-check. Both findings are always computed (the road
   query runs even when the zone test already failed).
   */
  function CheckFootprint<S>(bb: Builder<S>, s: S, zone: Zone, blocks: seq<Coord>): (r: FootprintCheck)
    ensures r.isZoned <==> AllBlocksZoned(bb.cityMap.zoneLayer(s), zone, blocks)
    ensures r.nearRoad <==> bb.pathfinder.nearbyRoad(s, blocks)
  {
    FootprintCheck(AllZoned(bb.cityMap.zoneLayer(s), zone, blocks), bb.pathfinder.nearbyRoad(s, blocks))
  }

  /**
   Placing `b` with its anchor at `anchor` is acceptable: the building's class
   is the one some zone houses, every block of the footprint at that anchor
   carries that zone, a road is near that footprint, and the map allows the
   building at that same anchor. This is the reference the routine is
   measured against; it does not mention `FindZoneForBuilding`.
   */
  ghost predicate Acceptable<S>(bb: Builder<S>, s: S, b: Building, anchor: Coord)
  {
    exists zone :: HousedClass(zone) == b.cls
      && FootprintConforms(bb, s, zone, bb.cityMap.buildingBlocks(s, anchor, b))
      && bb.cityMap.canBuildBuildingAt(s, b, anchor)
  }

  /** What an acceptable anchor guarantees, spelled out in the routine's own terms. */
  lemma AcceptableMeans<S>(bb: Builder<S>, s: S, b: Building, anchor: Coord)
    requires Acceptable(bb, s, b, anchor)
    ensures var blocks := bb.cityMap.buildingBlocks(s, anchor, b);
      && FindZoneForBuilding(b).Some?
      && AllBlocksZoned(bb.cityMap.zoneLayer(s), FindZoneForBuilding(b).value, blocks)
      && bb.pathfinder.nearbyRoad(s, blocks)
      && bb.cityMap.canBuildBuildingAt(s, b, anchor)
  {
    var zone :| HousedClass(zone) == b.cls
      && FootprintConforms(bb, s, zone, bb.cityMap.buildingBlocks(s, anchor, b))
      && bb.cityMap.canBuildBuildingAt(s, b, anchor);
    assert FindZoneForBuilding(b) == Some(zone);
  }

  /** How one pass of the loop ended. */
  datatype PassOutcome =
    | NoZone                                  // the class has no zone; nothing else was consulted
    | FootprintRejected(check: FootprintCheck) // the pre-check failed
    | MapRefused                              // the pre-check passed, the map's check did not
    | Built                                   // the building was committed

  /** One pass: the fuzzed anchor it used and how it ended. */
  datatype Pass = Pass(anchor: Coord, outcome: PassOutcome)

  /** The body of one loop pass, at an already fuzzed anchor, on map state `s`. */
  function RunPass<S>(bb: Builder<S>, s: S, b: Building, anchor: Coord): (o: PassOutcome)
    ensures o == NoZone <==> FindZoneForBuilding(b).None?
    ensures o.FootprintRejected? ==> !o.check.Passed()
  {
    match FindZoneForBuilding(b)
    case None => NoZone
    case Some(zone) =>
      var blocks := bb.cityMap.buildingBlocks(s, anchor, b);
      var check := CheckFootprint(bb, s, zone, blocks);
      if !check.Passed() then FootprintRejected(check)
      else if bb.cityMap.canBuildBuildingAt(s, b, anchor) then Built
      else MapRefused
  }

  /** A pass builds exactly when its anchor is acceptable. */
  lemma RunPassBuildsIffAcceptable<S>(bb: Builder<S>, s: S, b: Building, anchor: Coord)
    ensures RunPass(bb, s, b, anchor) == Built <==> Acceptable(bb, s, b, anchor)
  {
    if RunPass(bb, s, b, anchor) == Built {
      var zone := FindZoneForBuilding(b).value;
      assert HousedClass(zone) == b.cls;
    }
  }

  /**
   The passes the loop makes when `tries` passes have already failed: it runs
   pass `tries` at `fuzzed[tries]`, stops after a pass that builds, and stops
   when `tries` reaches `MaxTries`.
   */
  function Search<S>(bb: Builder<S>, s: S, b: Building, fuzzed: seq<Coord>, tries: nat): (passes: seq<Pass>)
    requires |fuzzed| == MaxTries && tries <= MaxTries
    decreases MaxTries - tries
    ensures |passes| <= MaxTries - tries
    ensures forall i {:trigger passes[i]} :: 0 <= i < |passes| ==> passes[i].anchor == fuzzed[tries + i]
    ensures forall i :: 0 <= i < |passes| - 1 ==> passes[i].outcome != Built
    ensures |passes| < MaxTries - tries ==> 0 < |passes| && passes[|passes| - 1].outcome == Built
  {
    if tries == MaxTries then []
    else
      var p := Pass(fuzzed[tries], RunPass(bb, s, b, fuzzed[tries]));
      if p.outcome == Built then [p] else [p] + Search(bb, s, b, fuzzed, tries + 1)
  }

  /** Pass `i` of the search from `tries` is the loop body run at `fuzzed[tries + i]`. */
  lemma {:induction false} SearchPassOutcome<S>(bb: Builder<S>, s: S, b: Building, fuzzed: seq<Coord>, tries: nat, i: nat)
    requires |fuzzed| == MaxTries && tries <= MaxTries
    requires i < |Search(bb, s, b, fuzzed, tries)|
    ensures Search(bb, s, b, fuzzed, tries)[i].outcome == RunPass(bb, s, b, fuzzed[tries + i])
    decreases i
  {
    if i > 0 {
      SearchPassOutcome(bb, s, b, fuzzed, tries + 1, i - 1);
    }
  }

  /** The result of one call: the passes it made and the map state it leaves. */
  datatype Placement<S> = Placement(passes: seq<Pass>, city: S)
  {
    /** The anchor the building was committed at, if a pass built. */
    function Committed(): Option<Coord>
    {
      if 0 < |passes| && passes[|passes| - 1].outcome == Built
      then Some(passes[|passes| - 1].anchor)
      else None
    }

    /** The value of the loop counter when the call returns. */
    function Tries(): nat
    {
      if Committed().Some? then |passes| - 1 else |passes|
    }
  }

  /**
   `tryToBuild`: search for an acceptable fuzzed anchor and, on the first one,
   build there and return. Without a commit the map state is returned as it was.
   */
  function TryToBuild<S>(bb: Builder<S>, s: S, b: Building, fuzzed: seq<Coord>): (r: Placement<S>)
    requires |fuzzed| == MaxTries
    ensures 0 < |r.passes| <= MaxTries
    ensures forall k {:trigger r.passes[k]} :: 0 <= k < |r.passes| ==> r.passes[k].anchor == fuzzed[k]
    ensures forall k :: 0 <= k < |r.passes| - 1 ==> r.passes[k].outcome != Built
    ensures r.Committed().None? ==> r.city == s && r.Tries() == MaxTries
    ensures r.Committed().Some? ==>
      && r.Tries() < MaxTries
      && r.Committed().value == fuzzed[r.Tries()]
      && r.city == bb.cityMap.build(s, b, r.Committed().value)
    ensures r.Committed().Some? ==>
      var anchor := r.Committed().value;
      var blocks := bb.cityMap.buildingBlocks(s, anchor, b);
      && FindZoneForBuilding(b).Some?
      && AllBlocksZoned(bb.cityMap.zoneLayer(s), FindZoneForBuilding(b).value, blocks)
      && bb.pathfinder.nearbyRoad(s, blocks)
      && bb.cityMap.canBuildBuildingAt(s, b, anchor)
  {
    var passes := Search(bb, s, b, fuzzed, 0);
    if 0 < |passes| && passes[|passes| - 1].outcome == Built then
      var anchor := fuzzed[|passes| - 1];
      SearchPassOutcome(bb, s, b, fuzzed, 0, |passes| - 1);
      RunPassBuildsIffAcceptable(bb, s, b, anchor);
      AcceptableMeans(bb, s, b, anchor);
      Placement(passes, bb.cityMap.build(s, b, anchor))
    else
      Placement(passes, s)
  }

  /** Pass `k` of a call is the loop body run at `fuzzed[k]`. */
  lemma PassRecordAt<S>(bb: Builder<S>, s: S, b: Building, fuzzed: seq<Coord>, k: nat)
    requires |fuzzed| == MaxTries
    requires k < |TryToBuild(bb, s, b, fuzzed).passes|
    ensures TryToBuild(bb, s, b, fuzzed).passes[k] == Pass(fuzzed[k], RunPass(bb, s, b, fuzzed[k]))
  {
    SearchPassOutcome(bb, s, b, fuzzed, 0, k);
  }

  /** The call commits at pass `k` when pass `k` is the first pass that builds. */
  lemma CommitsAtFirstBuildingPass<S>(bb: Builder<S>, s: S, b: Building, fuzzed: seq<Coord>, k: nat)
    requires |fuzzed| == MaxTries && k < MaxTries
    requires forall j :: 0 <= j < k ==> RunPass(bb, s, b, fuzzed[j]) != Built
    requires RunPass(bb, s, b, fuzzed[k]) == Built
    ensures var r := TryToBuild(bb, s, b, fuzzed);
      r.Committed() == Some(fuzzed[k]) && r.Tries() == k && r.city == bb.cityMap.build(s, b, fuzzed[k])
  {
    var r := TryToBuild(bb, s, b, fuzzed);
    var n := |r.passes|;
    assert k < n;
    PassRecordAt(bb, s, b, fuzzed, k);
    assert k == n - 1;
    assert r.Committed() == Some(fuzzed[k]);
  }

  /** The call commits nothing when no pass builds. */
  lemma NoCommitWithoutBuildingPass<S>(bb: Builder<S>, s: S, b: Building, fuzzed: seq<Coord>)
    requires |fuzzed| == MaxTries
    requires forall j :: 0 <= j < MaxTries ==> RunPass(bb, s, b, fuzzed[j]) != Built
    ensures var r := TryToBuild(bb, s, b, fuzzed);
      r.Committed() == None && r.Tries() == MaxTries && r.city == s
  {
    PassRecordAt(bb, s, b, fuzzed, |TryToBuild(bb, s, b, fuzzed).passes| - 1);
  }

  /** Conversely, a call that commits nothing had no pass that builds. */
  lemma NoBuildingPassWithoutCommit<S>(bb: Builder<S>, s: S, b: Building, fuzzed: seq<Coord>)
    requires |fuzzed| == MaxTries
    requires TryToBuild(bb, s, b, fuzzed).Committed().None?
    ensures forall j :: 0 <= j < MaxTries ==> RunPass(bb, s, b, fuzzed[j]) != Built
  {
    assert |TryToBuild(bb, s, b, fuzzed).passes| == MaxTries;
    forall j | 0 <= j < MaxTries
      ensures RunPass(bb, s, b, fuzzed[j]) != Built
    {
      PassRecordAt(bb, s, b, fuzzed, j);
    }
  }

  /**
   `tryToBuild` as the program writes it: a counter, a while loop, and an early
   return after the one call to `build`. Its results agree with `TryToBuild`.
   */
  method TryToBuildLoop<S>(bb: Builder<S>, s: S, b: Building, fuzzed: seq<Coord>)
    returns (city: S, tries: nat, committed: Option<Coord>)
    requires |fuzzed| == MaxTries
    ensures tries <= MaxTries
    ensures committed.None? ==> city == s && tries == MaxTries
    ensures var r := TryToBuild(bb, s, b, fuzzed);
      city == r.city && tries == r.Tries() && committed == r.Committed()
  {
    city := s;
    committed := None;
    tries := 0;
    while tries < MaxTries
      invariant tries <= MaxTries
      invariant forall j :: 0 <= j < tries ==> RunPass(bb, s, b, fuzzed[j]) != Built
      invariant city == s && committed == None
    {
      var fuzzedCoordinate := fuzzed[tries];
      var buildingZone := FindZoneForBuilding(b);
      if buildingZone.Some? {
        var buildingBlocks := bb.cityMap.buildingBlocks(s, fuzzedCoordinate, b);
        var validToBuild := CheckFootprint(bb, s, buildingZone.value, buildingBlocks).Passed();
        if validToBuild {
          if bb.cityMap.canBuildBuildingAt(s, b, fuzzedCoordinate) {
            city := bb.cityMap.build(s, b, fuzzedCoordinate);
            committed := Some(fuzzedCoordinate);
            CommitsAtFirstBuildingPass(bb, s, b, fuzzed, tries);
            return;
          }
        }
      }
      tries := tries + 1;
    }
    NoCommitWithoutBuildingPass(bb, s, b, fuzzed);
  }
}
