/**
 * The spatial vocabulary: H3 cells, coordinates and (multi-)polygons, with the
 * functions of the h3, shapely and geopandas libraries as uninterpreted
 * parameters.
 */
module Geo {

  /** An H3 cell index; two cells are the same cell exactly when they are equal. */
  type Cell(==, !new)

  /** A (latitude, longitude) pair of floating-point degrees. */
  type Coord(!new)

  /** A closed linear ring of coordinates. */
  type Ring = seq<Coord>

  /** A polygon: its exterior ring first, then any holes. */
  datatype Polygon = Polygon(rings: seq<Ring>)

  /** A multi-polygon, the shape of every isochrone: its polygon parts in order. */
  type MultiPolygon = seq<Polygon>

  /** The library calls the core makes, each an opaque but deterministic function. */
  datatype CellIndex = CellIndex(
    /** h3.geo_to_h3(lat, lon, resolution) */
    geoToCell: (Coord, nat) -> Cell,
    /** h3.h3_to_geo(cell): the cell's centre */
    cellToGeo: Cell -> Coord,
    /** h3.k_ring(cell, k): the cells at most k steps away, the cell included */
    kRing: (Cell, nat) -> set<Cell>,
    /** h3.h3_set_to_multi_polygon(cells, geo_json=True): components, each a list of rings */
    cellsToPolygons: set<Cell> -> seq<seq<Ring>>,
    /** h3.polyfill_geojson(mapping(polygon), res): the cells a polygon covers */
    polyfill: (Polygon, nat) -> set<Cell>)

  /**
   * The cells covered by a multi-polygon at resolution `res`: the union of
   * `polyfill` over every polygon part, each cell once whichever parts
   * cover it.
   */
  function CoveredCells(index: CellIndex, shape: MultiPolygon, res: nat): (cells: set<Cell>)
    ensures forall h :: h in cells <==> exists i :: 0 <= i < |shape| && h in index.polyfill(shape[i], res)
  {
    if shape == [] then {}
    else
      var rest := CoveredCells(index, shape[1..], res);
      assert forall i :: 0 < i < |shape| ==> shape[i] == shape[1..][i - 1];
      index.polyfill(shape[0], res) + rest
  }
}
