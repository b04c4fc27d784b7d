/**
 * The crate's unit test, replayed against the contracts of `SpatialTable`:
 * every expected result follows from the method specifications and the
 * invariant alone. The three entities are distinct handles, as the
 * allocator hands them out. Each phase states the location index it leaves
 * behind, which (by the invariant) also fixes every cell of the grid.
 */
module Scenario {
  import opened Basics
  import opened LayerTable
  import opened SpatialSpec
  import opened SpatialTables
  import SpatialProps

  /** The whole scenario on a 10 by 10 grid. */
  method Scenario() {
    var a, b, c := Entity(0), Entity(1), Entity(2);
    var table := PlaceFirst(a);
    MoveAndBlock(table, a, b);
    PlaceSecond(table, a, b, c);
    PlaceCharacter(table, a, b, c);
    Relayer(table, a, b, c);
    RemoveFirst(table, a, b, c);
    MoveIntoFreed(table, b, c);
    ClearB(table, b, c);
  }

  /** Out-of-bounds placement is rejected and tracks nothing; an in-bounds one succeeds. */
  method PlaceFirst(a: Entity) returns (table: SpatialTable)
    ensures fresh(table) && fresh(table.grid)
    ensures table.Valid() && table.GridSize() == Size(10, 10)
    ensures table.locs == map[a := Location(Coord(4, 2), Some(Feature))]
  {
    table := new SpatialTable(Size(10, 10));
    assert table.LocationOf(a) == None;

    ghost var before := table.Model();
    var r := table.Update(a, Location(Coord(-1, 10), Some(Feature)));
    SpatialProps.UpdateResult(before, a, Location(Coord(-1, 10), Some(Feature)));
    assert r == Err(DestinationOutOfBounds);
    assert table.LocationOf(a) == None;

    before := table.Model();
    SlotFree(before, Coord(4, 2), Feature);
    r := table.Update(a, Location(Coord(4, 2), Some(Feature)));
    SpatialProps.UpdateResult(before, a, Location(Coord(4, 2), Some(Feature)));
    SpatialProps.UpdateRelocates(before, a, Location(Coord(4, 2), Some(Feature)));
    assert r == Ok;
    assert table.LocationOf(a) == Some(Location(Coord(4, 2), Some(Feature)));
  }

  /** Moving the feature, then a second feature blocked on its slot. */
  method MoveAndBlock(table: SpatialTable, a: Entity, b: Entity)
    requires table.Valid() && table.GridSize() == Size(10, 10) && a != b
    requires table.locs == map[a := Location(Coord(4, 2), Some(Feature))]
    modifies table, table.grid
    ensures table.Valid()
    ensures table.locs == map[a := Location(Coord(6, 7), Some(Feature))]
  {
    ghost var before := table.Model();
    SlotFree(before, Coord(6, 7), Feature);
    var r := table.UpdateCoord(a, Coord(6, 7));
    SpatialProps.UpdateCoordLayered(before, a, Coord(6, 7));
    assert r == Ok;
    assert table.LocationOf(a) == Some(Location(Coord(6, 7), Some(Feature)));
    assert table.LocationOf(b) == None;

    before := table.Model();
    SlotHeld(before, Coord(6, 7), Feature, a);
    r := table.Update(b, Location(Coord(6, 7), Some(Feature)));
    SpatialProps.UpdateResult(before, b, Location(Coord(6, 7), Some(Feature)));
    assert r == Err(UpdateError.OccupiedBy(a));
    assert table.LocationOf(b) == None;
  }

  /** A second feature elsewhere, which cannot move onto the first. */
  method PlaceSecond(table: SpatialTable, a: Entity, b: Entity, c: Entity)
    requires table.Valid() && table.GridSize() == Size(10, 10) && a != b && a != c && b != c
    requires table.locs == map[a := Location(Coord(6, 7), Some(Feature))]
    modifies table, table.grid
    ensures table.Valid()
    ensures table.locs == map[a := Location(Coord(6, 7), Some(Feature)),
                              b := Location(Coord(6, 8), Some(Feature))]
  {
    ghost var before := table.Model();
    SlotFree(before, Coord(6, 8), Feature);
    var r := table.Update(b, Location(Coord(6, 8), Some(Feature)));
    SpatialProps.UpdateResult(before, b, Location(Coord(6, 8), Some(Feature)));
    SpatialProps.UpdateRelocates(before, b, Location(Coord(6, 8), Some(Feature)));
    assert r == Ok;

    before := table.Model();
    SlotHeld(before, Coord(6, 7), Feature, a);
    r := table.UpdateCoord(b, Coord(6, 7));
    SpatialProps.UpdateCoordLayered(before, b, Coord(6, 7));
    assert r == Err(UpdateError.OccupiedBy(a));
    assert table.CoordOf(b) == Some(Coord(6, 8));
    assert table.LocationOf(c) == None;
  }

  /** A character shares the cell of the first feature; both cells read back as placed. */
  method PlaceCharacter(table: SpatialTable, a: Entity, b: Entity, c: Entity)
    requires table.Valid() && table.GridSize() == Size(10, 10) && a != b && a != c && b != c
    requires table.locs == map[a := Location(Coord(6, 7), Some(Feature)),
                               b := Location(Coord(6, 8), Some(Feature))]
    modifies table, table.grid
    ensures table.Valid()
    ensures table.locs == map[a := Location(Coord(6, 7), Some(Feature)),
                              b := Location(Coord(6, 8), Some(Feature)),
                              c := Location(Coord(6, 7), Some(Character))]
  {
    ghost var before := table.Model();
    SlotFree(before, Coord(6, 7), Character);
    var r := table.Update(c, Location(Coord(6, 7), Some(Character)));
    SpatialProps.UpdateResult(before, c, Location(Coord(6, 7), Some(Character)));
    SpatialProps.UpdateRelocates(before, c, Location(Coord(6, 7), Some(Character)));
    assert r == Ok;
    assert table.CoordOf(c) == Some(Coord(6, 7));
    CellIs(table, Coord(6, 7), Layers(Some(a), Some(c)));
    CellIs(table, Coord(6, 8), Layers(Some(b), None));
  }

  /**
   * Re-selecting the current layer is a no-op; a layer held by another entity
   * blocks; a free layer of the same cell can be taken and given back.
   */
  method Relayer(table: SpatialTable, a: Entity, b: Entity, c: Entity)
    requires table.Valid() && table.GridSize() == Size(10, 10) && a != b && a != c && b != c
    requires table.locs == map[a := Location(Coord(6, 7), Some(Feature)),
                               b := Location(Coord(6, 8), Some(Feature)),
                               c := Location(Coord(6, 7), Some(Character))]
    modifies table, table.grid
    ensures table.Valid()
    ensures table.locs == map[a := Location(Coord(6, 7), Some(Feature)),
                              b := Location(Coord(6, 8), Some(Feature)),
                              c := Location(Coord(6, 7), Some(Character))]
  {
    ghost var before := table.Model();
    var r := table.UpdateLayer(a, Feature);
    SpatialProps.UpdateLayerResult(before, a, Feature);
    assert r == Ok;
    CellIs(table, Coord(6, 7), Layers(Some(a), Some(c)));

    before := table.Model();
    SlotHeld(before, Coord(6, 7), Character, c);
    r := table.UpdateLayer(a, Character);
    SpatialProps.UpdateLayerResult(before, a, Character);
    assert r == Err(UpdateLayerError.OccupiedBy(c));

    before := table.Model();
    SlotFree(before, Coord(6, 8), Character);
    r := table.UpdateLayer(b, Character);
    SpatialProps.UpdateLayerResult(before, b, Character);
    assert r == Ok;
    CellIs(table, Coord(6, 8), Layers(None, Some(b)));
    assert table.LayerOf(b) == Some(Character);

    before := table.Model();
    SlotFree(before, Coord(6, 8), Feature);
    r := table.UpdateLayer(b, Feature);
    SpatialProps.UpdateLayerResult(before, b, Feature);
    assert r == Ok;
    assert table.LayerOf(b) == Some(Feature);
  }

  /** Removing the first feature empties its slot and nothing else. */
  method RemoveFirst(table: SpatialTable, a: Entity, b: Entity, c: Entity)
    requires table.Valid() && table.GridSize() == Size(10, 10) && a != b && a != c && b != c
    requires table.locs == map[a := Location(Coord(6, 7), Some(Feature)),
                               b := Location(Coord(6, 8), Some(Feature)),
                               c := Location(Coord(6, 7), Some(Character))]
    modifies table, table.grid
    ensures table.Valid()
    ensures table.locs == map[b := Location(Coord(6, 8), Some(Feature)),
                              c := Location(Coord(6, 7), Some(Character))]
  {
    ghost var before := table.Model();
    table.Remove(a);
    SpatialProps.RemoveResult(before, a);
    assert table.locs == before.locs - {a};
    CellIs(table, Coord(6, 7), Layers(None, Some(c)));
  }

  /** The freed slot takes the second feature, and its old cell is left empty. */
  method MoveIntoFreed(table: SpatialTable, b: Entity, c: Entity)
    requires table.Valid() && table.GridSize() == Size(10, 10) && b != c
    requires table.locs == map[b := Location(Coord(6, 8), Some(Feature)),
                               c := Location(Coord(6, 7), Some(Character))]
    modifies table, table.grid
    ensures table.Valid()
    ensures table.locs == map[b := Location(Coord(6, 7), Some(Feature)),
                              c := Location(Coord(6, 7), Some(Character))]
  {
    ghost var before := table.Model();
    SlotFree(before, Coord(6, 7), Feature);
    var r := table.UpdateCoord(b, Coord(6, 7));
    SpatialProps.UpdateCoordLayered(before, b, Coord(6, 7));
    assert r == Ok;
    CellIs(table, Coord(6, 7), Layers(Some(b), Some(c)));
    CellIs(table, Coord(6, 8), Layers(None, None));
  }

  /** Clearing the layer keeps the coordinate and empties the slot. */
  method ClearB(table: SpatialTable, b: Entity, c: Entity)
    requires table.Valid() && table.GridSize() == Size(10, 10) && b != c
    requires table.locs == map[b := Location(Coord(6, 7), Some(Feature)),
                               c := Location(Coord(6, 7), Some(Character))]
    modifies table, table.grid
    ensures table.Valid()
    ensures table.locs == map[b := Location(Coord(6, 7), None),
                              c := Location(Coord(6, 7), Some(Character))]
  {
    ghost var before := table.Model();
    var r := table.ClearLayer(b);
    SpatialProps.ClearLayerResult(before, b);
    assert r == Ok;
    CellIs(table, Coord(6, 7), Layers(None, Some(c)));
    assert table.CoordOf(b) == Some(Coord(6, 7));
    assert table.LayerOf(b) == None;
  }

  /** Reading a cell through `LayersAtChecked`, decided by the location index alone. */
  method CellIs(table: SpatialTable, coord: Coord, expected: Layers)
    requires table.Valid() && IsValid(coord, table.GridSize())
    requires forall layer, e :: expected.Select(layer) == Some(e) <==>
      e in table.locs && table.locs[e] == Location(coord, Some(layer))
  {
    var cell := table.LayersAtChecked(coord);
    forall layer
      ensures cell.Select(layer) == expected.Select(layer)
    {
      if cell.Select(layer).Some? {
        assert expected.Select(layer) == cell.Select(layer);
      } else if expected.Select(layer).Some? {
        assert cell.Select(layer) == expected.Select(layer);
      }
    }
    LayersExtensional(cell, expected);
    assert cell == expected;
  }

  /** A slot that no tracked entity claims is empty. */
  lemma SlotFree(t: Table, coord: Coord, layer: Layer)
    requires SpatialSpec.Valid(t) && IsValid(coord, t.size)
    requires forall e :: e in t.locs ==> t.locs[e] != Location(coord, Some(layer))
    ensures Slot(t, coord, layer) == None
  {
  }

  /** A slot is held by the entity whose location claims it. */
  lemma SlotHeld(t: Table, coord: Coord, layer: Layer, e: Entity)
    requires SpatialSpec.Valid(t) && IsValid(coord, t.size)
    requires e in t.locs && t.locs[e] == Location(coord, Some(layer))
    ensures Slot(t, coord, layer) == Some(e)
  {
  }
}
