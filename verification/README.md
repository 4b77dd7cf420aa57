# Building placement in kotcity

This project models the placement routine of kotcity's `BuildingBuilder`
(`src/main/kotlin/kotcity/automata/util/BuildingBuilder.kt`) and proves what one
call of `tryToBuild(coordinate, newBuilding)` does.

The routine is a retry loop bounded by `maxTries = 50`. Each pass fuzzes the
target coordinate and looks up the zone the building's exact class needs
(`Residential`, `Commercial`, `Industrial`, or none). When the class has a
zone, the pass computes the building's footprint at the fuzzed anchor and runs
a pre-check: every block of the footprint must carry that zone, and the
pathfinder must find a road near the footprint. Last, the map's own `canBuildBuildingAt` must agree.
The first pass that passes all of this calls `cityMap.build` at the fuzzed
anchor and returns. Otherwise the counter goes up by one. After 50 failed
passes the call returns without touching the map.

How the program is modelled:

- The mutable city map becomes an abstract state value of a type parameter `S`.
- The map operations the routine calls are fields of `CityData.CityMap<S>`:
  `buildingBlocks`, `zoneLayer`, `canBuildBuildingAt` and `build`.
  `Pathfinder.nearbyRoad` is the one field of `CityData.Pathfinder<S>`.
  Their bodies are not part of this model, so every result holds for any
  functions supplied.
- The random fuzz is injected as `fuzzed`, a sequence of exactly `MaxTries`
  coordinates. `fuzzed[k]` is what `coordinate.fuzz(newBuilding.width)`
  returned on pass `k`. With that sequence fixed, a call is a deterministic
  function of the map state. The target coordinate only feeds the fuzz, so
  it does not appear in the model.
- `BuildingBuilder.TryToBuild` is the call as a pure function. It returns a
  `Placement`: the record of the passes made (each pass's anchor and how it
  ended) and the map state afterwards.
- `BuildingBuilder.TryToBuildLoop` is the same call written as the program
  writes it: a counter, a `while` loop and an early `return`. It is proved to
  agree with `TryToBuild`.
- `BuildingBuilder.Acceptable` is the reference notion of a good anchor. It
  holds when the building's class is the one some zone houses, every footprint
  block at the anchor carries that zone, a road is near that footprint, and
  the map allows the building at that same anchor. It is stated without
  `findZoneForBuilding`. Instead it uses the inverse mapping `HousedClass`.

A building class with no zone does not fail early. The zone is looked up
inside the loop, after fuzzing, so the call still makes all 50 passes before it
gives up (`PlacementProperties.UnzonedNeverBuilds`).

## Model

| member | source | states |
|---|---|---|
| `BuildingBuilder.FindZoneForBuilding` | src/main/kotlin/kotcity/automata/util/BuildingBuilder.kt:50-56 | the result is absent exactly for classes other than the exact `Residential`, `Commercial` and `Industrial` classes; a present zone is the one whose housed class is the building's class |
| `BuildingBuilder.AllZoned` | src/main/kotlin/kotcity/automata/util/BuildingBuilder.kt:37 | the block-by-block zone test is true exactly when every block of the list is in the zone layer with the required zone (an empty list passes) |
| `BuildingBuilder.CheckFootprint` | src/main/kotlin/kotcity/automata/util/BuildingBuilder.kt:36-48 | the pre-check's zone finding is the all-blocks zone test, its road finding is `nearbyRoad` of the same block list, and both are always computed |
| `BuildingBuilder.AcceptableMeans` | src/main/kotlin/kotcity/automata/util/BuildingBuilder.kt:19-27 | an acceptable anchor has a zone for the class, every footprint block at that anchor carries it, a road is near that footprint, and the map allows the building at that anchor |
| `BuildingBuilder.RunPass` | src/main/kotlin/kotcity/automata/util/BuildingBuilder.kt:17-31 | a pass ends with "no zone" exactly when the class has no zone, and a pass rejected by the pre-check had a failing finding |
| `BuildingBuilder.RunPassBuildsIffAcceptable` | src/main/kotlin/kotcity/automata/util/BuildingBuilder.kt:19-29 | a pass builds if and only if its fuzzed anchor is acceptable |
| `BuildingBuilder.Search` | src/main/kotlin/kotcity/automata/util/BuildingBuilder.kt:14-33 | from counter `tries`, at most `MaxTries - tries` passes run, pass `i` runs at `fuzzed[tries + i]`, no pass but the last builds, and stopping before the bound means the last pass built |
| `BuildingBuilder.SearchPassOutcome` | src/main/kotlin/kotcity/automata/util/BuildingBuilder.kt:16-31 | pass `i` of a search started at counter `tries` ends with the outcome of the loop body run at `fuzzed[tries + i]` |
| `BuildingBuilder.TryToBuild` | src/main/kotlin/kotcity/automata/util/BuildingBuilder.kt:13-34 | between 1 and 50 passes run, pass `k` runs at `fuzzed[k]`, only the last may build; without a commit the map is unchanged and the counter ends at 50; with one, the map is `build` at `fuzzed[tries]` and that anchor's footprint is fully zoned, near a road and allowed by the map |
| `BuildingBuilder.PassRecordAt` | src/main/kotlin/kotcity/automata/util/BuildingBuilder.kt:16-31 | pass `k` of a call is recorded with anchor `fuzzed[k]` and the outcome of the loop body at that anchor |
| `BuildingBuilder.CommitsAtFirstBuildingPass` | src/main/kotlin/kotcity/automata/util/BuildingBuilder.kt:16-28 | when pass `k` is the first pass that builds, the call commits at `fuzzed[k]` with the counter at `k` and the map is `build` at that anchor |
| `BuildingBuilder.NoCommitWithoutBuildingPass` | src/main/kotlin/kotcity/automata/util/BuildingBuilder.kt:16-33 | when no pass builds, nothing is committed, the counter reaches 50 and the map is unchanged |
| `BuildingBuilder.NoBuildingPassWithoutCommit` | src/main/kotlin/kotcity/automata/util/BuildingBuilder.kt:16-33 | when nothing is committed, none of the 50 fuzzed anchors would have built |
| `BuildingBuilder.TryToBuildLoop` | src/main/kotlin/kotcity/automata/util/BuildingBuilder.kt:13-34 | the while loop with its early return leaves the same map state, counter value and committed anchor as `TryToBuild`, and the map is unchanged when nothing is committed |
| `PlacementProperties.FirstAcceptableCommits` | src/main/kotlin/kotcity/automata/util/BuildingBuilder.kt:16-28 | when `fuzzed[k]` is the first acceptable anchor, the call commits there after `k` failed passes |
| `PlacementProperties.CommittedIsFirstAcceptable` | src/main/kotlin/kotcity/automata/util/BuildingBuilder.kt:16-28 | a committed anchor is acceptable and no earlier fuzzed anchor is |
| `PlacementProperties.NoCommitMeansNoneAcceptable` | src/main/kotlin/kotcity/automata/util/BuildingBuilder.kt:16-33 | a call that commits nothing had no acceptable fuzzed anchor |
| `PlacementProperties.CommitsAtFirstAcceptable` | src/main/kotlin/kotcity/automata/util/BuildingBuilder.kt:13-34 | the call commits exactly at the first acceptable fuzzed anchor, and commits nothing if and only if none of the 50 is acceptable |
| `PlacementProperties.AtMostOneBuild` | src/main/kotlin/kotcity/automata/util/BuildingBuilder.kt:26-28 | the number of passes that call `build` is one when the call commits and zero otherwise |
| `PlacementProperties.UnzonedNeverBuilds` | src/main/kotlin/kotcity/automata/util/BuildingBuilder.kt:16-33 | a building of a class with no zone never builds on any map; all 50 passes run, each ends with "no zone", and the map is unchanged |
| `PlacementProperties.ImmediateSuccess` | src/main/kotlin/kotcity/automata/util/BuildingBuilder.kt:17-28 | when the first fuzzed anchor is acceptable, the call makes exactly one pass, builds there, and leaves the counter at 0 |
| `PlacementProperties.UnzonedFootprintRejected` | src/main/kotlin/kotcity/automata/util/BuildingBuilder.kt:37-47 | a non-empty footprint on a map with no block of the needed zone fails the pre-check's zone finding |
| `PlacementProperties.ExhaustionWhenZoneAbsent` | src/main/kotlin/kotcity/automata/util/BuildingBuilder.kt:16-47 | on a map with no block of the needed zone, where every fuzzed footprint is non-empty, all 50 passes fail the zone finding and the map is unchanged |
| `PlacementProperties.CommittedPrefixDecides` | src/main/kotlin/kotcity/automata/util/BuildingBuilder.kt:17-28 | a committing call makes the same passes under any fuzz that agrees up to and including the committing pass |
| `PlacementProperties.UnusedDrawsIrrelevant` | src/main/kotlin/kotcity/automata/util/BuildingBuilder.kt:16-33 | fuzz values after the last pass made have no effect on the result |

## Left out

- `src/main/kotlin/kotcity/ui/layers/ZotRenderer.kt` is not part of this model. It is JavaFX drawing, animation, wall-clock cache expiry and floating-point trigonometry, none of it placement logic.
- `src/main/kotlin/kotcity/ui/SpriteLoader.kt` is not part of this model. It loads images and memoizes them through library calls.
- The `debug(...)` log lines and the `debug` flag of `BuildingBuilder` are left out because they are output only. The two findings that the pre-check logs are kept in the `FootprintRejected` pass outcome.
- The bodies of `BlockCoordinate.fuzz`, `CityMap.buildingBlocks`, `CityMap.zoneLayer`, `CityMap.canBuildBuildingAt`, `CityMap.build` and `Pathfinder.nearbyRoad` are not part of this model. They are supplied as parameters, and no fuzz bound or footprint shape is assumed.
- The random distribution of fuzz offsets is left out. The fuzz results are an injected sequence, one anchor per pass, so nothing is said about how far a fuzzed anchor lies from the target.
- The construction of the pathfinder over the same map is left out. The model's `nearbyRoad` takes the map state that the rest of the call reads.
- Concurrency between the map's check and `build` is left out because the routine is single-threaded.
- Kotlin's 32-bit `Int` is not modelled for the counter because it never exceeds 50. Building width is passed through to the map operations and not interpreted.
