/**
 This module holds the data the placement routine works on: block coordinates,
 zones, buildings, and the collaborators it consults (the city map and the
 road pathfinder).

 The city map is mutable in the program. Here its state is an abstract value of
 the type parameter `S`, and every operation of the map that the placement
 routine calls is a total function of that state. The bodies of those
 operations are not part of this model, so they are fields of the
 `CityMap` and `Pathfinder` datatypes and every result in the model holds for
 whatever functions are supplied.
 */
module CityData {

  /** A block on the grid; `BlockCoordinate(x, y)` in the program. */
  datatype Coord = Coord(x: int, y: int)

  /** The zone a block can be painted with. */
  datatype Zone = Residential | Commercial | Industrial

  /**
   The runtime class of a building. Only the three exact classes below have a
   zone; every other class (roads, power plants, civic buildings, and any
   subclass of the three, since the program compares classes exactly) is
   `OtherClass`.
   */
  datatype BuildingClass =
    | ResidentialClass
    | CommercialClass
    | IndustrialClass
    | OtherClass(name: string)

  /** A building to be placed: its class and its width in blocks. */
  datatype Building = Building(cls: BuildingClass, width: int)

  /** The operations of the city map that placement uses, over map state `S`. */
  datatype CityMap<!S> = CityMap(
    /** The blocks the building would cover if anchored at the coordinate. */
    buildingBlocks: (S, Coord, Building) -> seq<Coord>,
    /** The zone painted on each block; a block that is absent has no zone. */
    zoneLayer: S -> map<Coord, Zone>,
    /** The map's own legality check (occupancy, bounds, ...). */
    canBuildBuildingAt: (S, Building, Coord) -> bool,
    /** Records the building at the anchor; the only mutation of the map. */
    build: (S, Building, Coord) -> S)

  /** The road-proximity query of the pathfinder built over the same map. */
  datatype Pathfinder<!S> = Pathfinder(nearbyRoad: (S, seq<Coord>) -> bool)

  /** True when block `c` is painted with `zone` in `layer`. */
  predicate ZonedAs(layer: map<Coord, Zone>, c: Coord, zone: Zone)
  {
    c in layer && layer[c] == zone
  }

  /** True when every block of `blocks` is painted with `zone` in `layer`. */
  predicate AllBlocksZoned(layer: map<Coord, Zone>, zone: Zone, blocks: seq<Coord>)
  {
    forall i :: 0 <= i < |blocks| ==> ZonedAs(layer, blocks[i], zone)
  }
}
