/**
 Properties of one `tryToBuild` call that relate it to the reference notion of
 an acceptable anchor, to the building's class, and to the injected fuzz.
 */
module PlacementProperties {
  import opened Wrappers
  import opened CityData
  import opened BuildingBuilder

  /** Pass `k` is the first pass whose fuzzed anchor is acceptable. */
  ghost predicate FirstAcceptable<S>(bb: Builder<S>, s: S, b: Building, fuzzed: seq<Coord>, k: int)
    requires |fuzzed| == MaxTries
  {
    && 0 <= k < MaxTries
    && Acceptable(bb, s, b, fuzzed[k])
    && forall j :: 0 <= j < k ==> !Acceptable(bb, s, b, fuzzed[j])
  }

  /** Passes before the first acceptable anchor do not build; the pass at it does. */
  lemma FirstAcceptableCommits<S>(bb: Builder<S>, s: S, b: Building, fuzzed: seq<Coord>, k: int)
    requires |fuzzed| == MaxTries
    requires FirstAcceptable(bb, s, b, fuzzed, k)
    ensures var r := TryToBuild(bb, s, b, fuzzed);
      r.Committed() == Some(fuzzed[k]) && r.Tries() == k
  {
    forall j | 0 <= j < k
      ensures RunPass(bb, s, b, fuzzed[j]) != Built
    {
      RunPassBuildsIffAcceptable(bb, s, b, fuzzed[j]);
    }
    RunPassBuildsIffAcceptable(bb, s, b, fuzzed[k]);
    CommitsAtFirstBuildingPass(bb, s, b, fuzzed, k);
  }

  /** A committed anchor is the first acceptable one. */
  lemma CommittedIsFirstAcceptable<S>(bb: Builder<S>, s: S, b: Building, fuzzed: seq<Coord>)
    requires |fuzzed| == MaxTries
    requires TryToBuild(bb, s, b, fuzzed).Committed().Some?
    ensures FirstAcceptable(bb, s, b, fuzzed, TryToBuild(bb, s, b, fuzzed).Tries())
  {
    var r := TryToBuild(bb, s, b, fuzzed);
    var k := r.Tries();
    forall j | 0 <= j < k
      ensures !Acceptable(bb, s, b, fuzzed[j])
    {
      PassRecordAt(bb, s, b, fuzzed, j);
      RunPassBuildsIffAcceptable(bb, s, b, fuzzed[j]);
    }
    PassRecordAt(bb, s, b, fuzzed, k);
    RunPassBuildsIffAcceptable(bb, s, b, fuzzed[k]);
  }

  /** Without a commit, no fuzzed anchor was acceptable. */
  lemma NoCommitMeansNoneAcceptable<S>(bb: Builder<S>, s: S, b: Building, fuzzed: seq<Coord>)
    requires |fuzzed| == MaxTries
    requires TryToBuild(bb, s, b, fuzzed).Committed().None?
    ensures forall k :: 0 <= k < MaxTries ==> !Acceptable(bb, s, b, fuzzed[k])
  {
    NoBuildingPassWithoutCommit(bb, s, b, fuzzed);
    forall k | 0 <= k < MaxTries
      ensures !Acceptable(bb, s, b, fuzzed[k])
    {
      RunPassBuildsIffAcceptable(bb, s, b, fuzzed[k]);
    }
  }

  /**
   The call commits exactly at the first acceptable fuzzed anchor, after as
   many failed passes as precede it, and commits nothing exactly when no
   fuzzed anchor is acceptable.
   */
  lemma CommitsAtFirstAcceptable<S>(bb: Builder<S>, s: S, b: Building, fuzzed: seq<Coord>)
    requires |fuzzed| == MaxTries
    ensures var r := TryToBuild(bb, s, b, fuzzed);
      forall k :: FirstAcceptable(bb, s, b, fuzzed, k) ==> r.Committed() == Some(fuzzed[k]) && r.Tries() == k
    ensures var r := TryToBuild(bb, s, b, fuzzed);
      r.Committed().Some? ==> FirstAcceptable(bb, s, b, fuzzed, r.Tries())
    ensures var r := TryToBuild(bb, s, b, fuzzed);
      r.Committed().None? <==> forall k :: 0 <= k < MaxTries ==> !Acceptable(bb, s, b, fuzzed[k])
  {
    var r := TryToBuild(bb, s, b, fuzzed);
    forall k | FirstAcceptable(bb, s, b, fuzzed, k)
      ensures r.Committed() == Some(fuzzed[k]) && r.Tries() == k
    {
      FirstAcceptableCommits(bb, s, b, fuzzed, k);
    }
    if r.Committed().Some? {
      CommittedIsFirstAcceptable(bb, s, b, fuzzed);
    } else {
      NoCommitMeansNoneAcceptable(bb, s, b, fuzzed);
    }
  }

  /** The number of passes in `passes` that built. */
  function CountBuilt(passes: seq<Pass>): nat
  {
    if |passes| == 0 then 0
    else (if passes[0].outcome == Built then 1 else 0) + CountBuilt(passes[1..])
  }

  /** When only the last pass may have built, at most one pass built, and it is the last. */
  lemma {:induction false} CountBuiltOnlyLast(passes: seq<Pass>)
    requires forall i :: 0 <= i < |passes| - 1 ==> passes[i].outcome != Built
    ensures CountBuilt(passes) == (if 0 < |passes| && passes[|passes| - 1].outcome == Built then 1 else 0)
  {
    if |passes| > 1 {
      var rest := passes[1..];
      assert forall i :: 0 <= i < |rest| - 1 ==> rest[i] == passes[i + 1];
      CountBuiltOnlyLast(rest);
      assert rest[|rest| - 1] == passes[|passes| - 1];
    }
  }

  /** A call issues at most one `build`, and issues one exactly when it commits. */
  lemma AtMostOneBuild<S>(bb: Builder<S>, s: S, b: Building, fuzzed: seq<Coord>)
    requires |fuzzed| == MaxTries
    ensures var r := TryToBuild(bb, s, b, fuzzed);
      CountBuilt(r.passes) == (if r.Committed().Some? then 1 else 0)
  {
    CountBuiltOnlyLast(TryToBuild(bb, s, b, fuzzed).passes);
  }

  /**
   A building whose class has no zone never builds, whatever the map holds;
   as written, the call still fuzzes and makes all `MaxTries` passes.
   */
  lemma {:induction false} UnzonedNeverBuilds<S>(bb: Builder<S>, s: S, b: Building, fuzzed: seq<Coord>)
    requires |fuzzed| == MaxTries
    requires b.cls.OtherClass?
    ensures var r := TryToBuild(bb, s, b, fuzzed);
      && r.Committed() == None
      && r.city == s
      && |r.passes| == MaxTries
      && forall k :: 0 <= k < MaxTries ==> r.passes[k] == Pass(fuzzed[k], NoZone)
  {
    var r := TryToBuild(bb, s, b, fuzzed);
    forall k | 0 <= k < MaxTries
      ensures RunPass(bb, s, b, fuzzed[k]) == NoZone
    {
    }
    NoCommitWithoutBuildingPass(bb, s, b, fuzzed);
    forall k | 0 <= k < MaxTries
      ensures r.passes[k] == Pass(fuzzed[k], NoZone)
    {
      PassRecordAt(bb, s, b, fuzzed, k);
    }
  }

  /**
   When the first fuzzed anchor is already acceptable (the fuzz returned the
   target itself, say), the call builds there on its first pass.
   */
  lemma ImmediateSuccess<S>(bb: Builder<S>, s: S, b: Building, fuzzed: seq<Coord>)
    requires |fuzzed| == MaxTries
    requires Acceptable(bb, s, b, fuzzed[0])
    ensures var r := TryToBuild(bb, s, b, fuzzed);
      && r.passes == [Pass(fuzzed[0], Built)]
      && r.Tries() == 0
      && r.city == bb.cityMap.build(s, b, fuzzed[0])
  {
    RunPassBuildsIffAcceptable(bb, s, b, fuzzed[0]);
    CommitsAtFirstBuildingPass(bb, s, b, fuzzed, 0);
  }

  /**
   When no block of the zone layer carries the zone the building needs and
   every fuzzed footprint covers at least one block, every pass fails the zone
   test, all `MaxTries` passes are made and the map is left as it was.
   */
  lemma ExhaustionWhenZoneAbsent<S>(bb: Builder<S>, s: S, b: Building, fuzzed: seq<Coord>)
    requires |fuzzed| == MaxTries
    requires FindZoneForBuilding(b).Some?
    requires forall c :: c in bb.cityMap.zoneLayer(s) ==> bb.cityMap.zoneLayer(s)[c] != FindZoneForBuilding(b).value
    requires forall k :: 0 <= k < MaxTries ==> |bb.cityMap.buildingBlocks(s, fuzzed[k], b)| > 0
    ensures var r := TryToBuild(bb, s, b, fuzzed);
      && r.Committed() == None
      && r.city == s
      && |r.passes| == MaxTries
      && forall k :: 0 <= k < MaxTries ==>
           r.passes[k].outcome.FootprintRejected? && !r.passes[k].outcome.check.isZoned
  {
    var r := TryToBuild(bb, s, b, fuzzed);
    forall k | 0 <= k < MaxTries
      ensures RunPass(bb, s, b, fuzzed[k]) != Built
    {
      UnzonedFootprintRejected(bb, s, b, fuzzed[k]);
    }
    NoCommitWithoutBuildingPass(bb, s, b, fuzzed);
    assert |r.passes| == MaxTries;
    forall k | 0 <= k < MaxTries
      ensures r.passes[k].outcome.FootprintRejected? && !r.passes[k].outcome.check.isZoned
    {
      UnzonedFootprintRejected(bb, s, b, fuzzed[k]);
      PassRecordAt(bb, s, b, fuzzed, k);
    }
  }

  /** A non-empty footprint with no block in the needed zone fails the zone test. */
  lemma UnzonedFootprintRejected<S>(bb: Builder<S>, s: S, b: Building, anchor: Coord)
    requires FindZoneForBuilding(b).Some?
    requires forall c :: c in bb.cityMap.zoneLayer(s) ==> bb.cityMap.zoneLayer(s)[c] != FindZoneForBuilding(b).value
    requires |bb.cityMap.buildingBlocks(s, anchor, b)| > 0
    ensures RunPass(bb, s, b, anchor).FootprintRejected? && !RunPass(bb, s, b, anchor).check.isZoned
  {
    var blocks := bb.cityMap.buildingBlocks(s, anchor, b);
    assert !ZonedAs(bb.cityMap.zoneLayer(s), blocks[0], FindZoneForBuilding(b).value);
  }

  /** Two sequences with the same element at every index are the same sequence. */
  lemma SameSeq<T>(p: seq<T>, q: seq<T>)
    requires |p| == |q|
    requires forall j :: 0 <= j < |p| ==> p[j] == q[j]
    ensures p == q
  {
  }

  /** A committing call gives the same result under any fuzz that agrees up to the committing pass. */
  lemma CommittedPrefixDecides<S>(bb: Builder<S>, s: S, b: Building, fuzzed: seq<Coord>, other: seq<Coord>)
    requires |fuzzed| == MaxTries && |other| == MaxTries
    requires TryToBuild(bb, s, b, fuzzed).Committed().Some?
    requires forall j :: 0 <= j < |TryToBuild(bb, s, b, fuzzed).passes| ==> other[j] == fuzzed[j]
    ensures TryToBuild(bb, s, b, other).passes == TryToBuild(bb, s, b, fuzzed).passes
  {
    var r := TryToBuild(bb, s, b, fuzzed);
    var n := |r.passes|;
    forall j | 0 <= j < n - 1
      ensures RunPass(bb, s, b, other[j]) != Built
    {
      PassRecordAt(bb, s, b, fuzzed, j);
    }
    PassRecordAt(bb, s, b, fuzzed, n - 1);
    CommitsAtFirstBuildingPass(bb, s, b, other, n - 1);
    var r' := TryToBuild(bb, s, b, other);
    forall j | 0 <= j < n
      ensures r'.passes[j] == r.passes[j]
    {
      PassRecordAt(bb, s, b, fuzzed, j);
      PassRecordAt(bb, s, b, other, j);
    }
    SameSeq(r'.passes, r.passes);
  }

  /**
   Fuzz draws after the last pass do not matter: two fuzz sequences that agree
   on every anchor the call used give the same result.
   */
  lemma UnusedDrawsIrrelevant<S>(bb: Builder<S>, s: S, b: Building, fuzzed: seq<Coord>, other: seq<Coord>)
    requires |fuzzed| == MaxTries && |other| == MaxTries
    requires forall j :: 0 <= j < |TryToBuild(bb, s, b, fuzzed).passes| ==> other[j] == fuzzed[j]
    ensures TryToBuild(bb, s, b, other) == TryToBuild(bb, s, b, fuzzed)
  {
    var r := TryToBuild(bb, s, b, fuzzed);
    if r.Committed().Some? {
      CommittedPrefixDecides(bb, s, b, fuzzed, other);
    } else {
      assert |r.passes| == MaxTries;
      SameSeq(other, fuzzed);
    }
  }
}
