/**
 * `SpatialTable`: the location index as a map field and the occupancy grid
 * as a two-dimensional array that the methods update in place, cell by cell.
 * A ghost map `cells` mirrors the array, so that `Model()` is the table as a
 * `SpatialSpec.Table` and every method is proved to do what the corresponding
 * `SpatialSpec` function says.
 */
module SpatialTables {
  import opened Basics
  import opened LayerTable
  import opened SpatialSpec
  import SpatialProps

  /** `cells` has a record for exactly the cells of `grid`, and each equals the array's. */
  ghost predicate Mirrors(grid: array2<Layers>, cells: map<Coord, Layers>)
    reads grid
  {
    && (forall c :: c in cells <==> IsValid(c, Size(grid.Length0, grid.Length1)))
    && (forall x, y :: 0 <= x < grid.Length0 && 0 <= y < grid.Length1 ==>
          grid[x, y] == cells[Coord(x, y)])
  }

  /** The persisted form: the location entries and the grid size, never the grid itself. */
  datatype SpatialSerialize = SpatialSerialize(entries: map<Entity, Location>, size: Size)

  class SpatialTable {
    /** `location_component`: entity to location. */
    var locs: map<Entity, Location>
    /** `spatial_grid`: one layer record per cell; its size never changes. */
    const grid: array2<Layers>
    /** The contents of `grid`, keyed by coordinate. */
    ghost var cells: map<Coord, Layers>

    /** `grid_size`. */
    function GridSize(): Size {
      Size(grid.Length0, grid.Length1)
    }

    /** The table as a value. */
    ghost function Model(): Table
      reads this
    {
      Table(GridSize(), locs, cells)
    }

    /** The object invariant: the mirror is exact and the two stores agree. */
    ghost predicate Valid()
      reads this, grid
    {
      Mirrors(grid, cells) && SpatialSpec.Valid(Model())
    }

    /** `SpatialTable::new`: nothing tracked, every cell at its default. */
    constructor (size: Size)
      ensures Valid() && fresh(grid)
      ensures Model() == New(size)
    {
      locs := map[];
      grid := new Layers[size.width, size.height]((x, y) => Default());
      cells := Blank(size);
      new;
      SpatialProps.BlankIsValid(size);
    }

    /** Writes one cell of the grid and its mirror. */
    method SetCell(c: Coord, cell: Layers)
      requires Mirrors(grid, cells) && IsValid(c, GridSize())
      modifies grid, this`cells
      ensures Mirrors(grid, cells) && cells == old(cells)[c := cell]
    {
      grid[c.x, c.y] := cell;
      cells := cells[c := cell];
    }

    /** `SpatialTable::clear`: resets the index and every cell of the grid. */
    method Clear()
      modifies this, grid
      ensures Valid()
      ensures Model() == SpatialSpec.Clear(old(Model()))
      ensures forall x, y :: 0 <= x < grid.Length0 && 0 <= y < grid.Length1 ==> grid[x, y] == Default()
    {
      locs := map[];
      var x := 0;
      while x < grid.Length0
        invariant 0 <= x <= grid.Length0 && locs == map[]
        invariant forall i, j :: 0 <= i < x && 0 <= j < grid.Length1 ==> grid[i, j] == Default()
      {
        var y := 0;
        while y < grid.Length1
          invariant 0 <= y <= grid.Length1 && locs == map[]
          invariant forall i, j :: 0 <= i < x && 0 <= j < grid.Length1 ==> grid[i, j] == Default()
          invariant forall j :: 0 <= j < y ==> grid[x, j] == Default()
        {
          grid[x, y] := Default();
          y := y + 1;
        }
        x := x + 1;
      }
      cells := Blank(GridSize());
      assert Model() == SpatialSpec.Clear(old(Model()));
      SpatialProps.ClearEmpties(old(Model()));
      forall i, j | 0 <= i < grid.Length0 && 0 <= j < grid.Length1
        ensures grid[i, j] == cells[Coord(i, j)]
      {
        assert Coord(i, j) in Coords(GridSize());
      }
    }

    /** `layers_at`: the record of an in-bounds cell, or nothing. */
    function LayersAt(coord: Coord): (r: Option<Layers>)
      reads this, grid
      ensures r.Some? <==> IsValid(coord, GridSize())
      ensures r.Some? ==> r.value == grid[coord.x, coord.y]
      ensures Valid() && r.Some? ==> forall layer, e ::
        r.value.Select(layer) == Some(e) <==> e in locs && locs[e] == Location(coord, Some(layer))
    {
      if IsValid(coord, GridSize()) then
        assert Valid() ==> grid[coord.x, coord.y] == cells[coord];
        SpatialSpec.CellAgreement(Model(), coord);
        Some(grid[coord.x, coord.y])
      else None
    }

    /** `layers_at_checked`: the record of a cell the caller knows to be in bounds. */
    function LayersAtChecked(coord: Coord): (r: Layers)
      requires IsValid(coord, GridSize())
      reads this, grid
      ensures Valid() ==> forall layer, e ::
        r.Select(layer) == Some(e) <==> e in locs && locs[e] == Location(coord, Some(layer))
    {
      assert Valid() ==> grid[coord.x, coord.y] == cells[coord];
      SpatialSpec.CellAgreement(Model(), coord);
      grid[coord.x, coord.y]
    }

    /** `location_of`. */
    function LocationOf(entity: Entity): (r: Option<Location>)
      reads this
      ensures r.Some? <==> entity in locs
      ensures r.Some? ==> r.value == locs[entity]
    {
      if entity in locs then Some(locs[entity]) else None
    }

    /** `coord_of`. */
    function CoordOf(entity: Entity): (r: Option<Coord>)
      reads this
      ensures r.Some? <==> entity in locs
      ensures r.Some? ==> r.value == locs[entity].coord
    {
      match LocationOf(entity)
      case Some(location) => Some(location.coord)
      case None => None
    }

    /** `layer_of`: the layer of a tracked entity; in a valid table that slot of its cell holds it. */
    function LayerOf(entity: Entity): (r: Option<Layer>)
      reads this, grid
      ensures r.Some? <==> entity in locs && locs[entity].layer.Some?
      ensures r.Some? ==> r.value == locs[entity].layer.value
      ensures Valid() && r.Some? ==>
        IsValid(locs[entity].coord, GridSize()) &&
        grid[locs[entity].coord.x, locs[entity].coord.y].Select(r.value) == Some(entity)
    {
      match LocationOf(entity)
      case Some(location) =>
        assert Valid() && location.layer.Some? ==>
          grid[location.coord.x, location.coord.y] == cells[location.coord];
        location.layer
      case None => None
    }

    /** `SpatialTable::update`: claim the destination slot first, then release the previous one. */
    method Update(entity: Entity, location: Location) returns (r: Result<UpdateError>)
      requires Valid() && UpdateDefined(Model(), entity, location)
      modifies this, grid
      ensures Valid()
      ensures Model() == SpatialSpec.Update(old(Model()), entity, location).table
      ensures r == SpatialSpec.Update(old(Model()), entity, location).result
    {
      ghost var before := Model();
      SpatialProps.UpdatePreservesValid(before, entity, location);
      if location.layer.Some? {
        var c := location.coord;
        if !IsValid(c, GridSize()) {
          return Err(DestinationOutOfBounds);
        }
        var insertion := InsertLayer(grid[c.x, c.y], entity, location.layer.value);
        if insertion.Occupied? {
          return Err(UpdateError.OccupiedBy(insertion.occupant));
        }
        SetCell(c, insertion.cell);
      }
      var original := LocationOf(entity);
      locs := locs[entity := location];
      if original.Some? {
        var oc := original.value.coord;
        assert IsValid(oc, GridSize());
        if original.value.layer.Some? {
          var (cell, taken) := TakeLayer(grid[oc.x, oc.y], original.value.layer.value);
          assert taken == Some(entity);
          SetCell(oc, cell);
        }
      }
      return Ok;
    }

    /** `SpatialTable::update_coord`: move an entity, keeping its layer. */
    method UpdateCoord(entity: Entity, coord: Coord) returns (r: Result<UpdateError>)
      requires Valid()
      modifies this, grid
      ensures Valid()
      ensures Model() == SpatialSpec.UpdateCoord(old(Model()), entity, coord).table
      ensures r == SpatialSpec.UpdateCoord(old(Model()), entity, coord).result
    {
      ghost var before := Model();
      SpatialProps.UpdateCoordPreservesValid(before, entity, coord);
      if entity in locs {
        var location := locs[entity];
        if coord != location.coord {
          if location.layer.Some? {
            var layer := location.layer.value;
            if !IsValid(coord, GridSize()) {
              return Err(DestinationOutOfBounds);
            }
            var insertion := InsertLayer(grid[coord.x, coord.y], entity, layer);
            if insertion.Occupied? {
              return Err(UpdateError.OccupiedBy(insertion.occupant));
            }
            SetCell(coord, insertion.cell);
            var oc := location.coord;
            var (source, taken) := TakeLayer(grid[oc.x, oc.y], layer);
            assert taken == Some(entity);
            SetCell(oc, source);
          }
          locs := locs[entity := location.(coord := coord)];
        }
        return Ok;
      } else {
        r := Update(entity, Location(coord, None));
      }
    }

    /** `SpatialTable::update_layer`: change an entity's layer within its cell. */
    method UpdateLayer(entity: Entity, layer: Layer) returns (r: Result<UpdateLayerError>)
      requires Valid() && UpdateLayerDefined(Model(), entity, layer)
      modifies this, grid
      ensures Valid()
      ensures Model() == SpatialSpec.UpdateLayer(old(Model()), entity, layer).table
      ensures r == SpatialSpec.UpdateLayer(old(Model()), entity, layer).result
    {
      ghost var before := Model();
      SpatialProps.UpdateLayerPreservesValid(before, entity, layer);
      if entity in locs {
        var location := locs[entity];
        if Some(layer) != location.layer {
          var c := location.coord;
          assert IsValid(c, GridSize());
          var cell := grid[c.x, c.y];
          var dest := cell.Select(layer);
          if dest.Some? {
            return Err(UpdateLayerError.OccupiedBy(dest.value));
          }
          cell := cell.Set(layer, Some(entity));
          if location.layer.Some? {
            var current := location.layer.value;
            assert cell.Select(current) == Some(entity);
            cell := cell.Set(current, None);
          }
          SetCell(c, cell);
          locs := locs[entity := location.(layer := Some(layer))];
        }
        return Ok;
      } else {
        return Err(UpdateLayerError.EntityHasNoCoord);
      }
    }

    /** `SpatialTable::clear_layer`: keep the entity's coordinate, drop its layer. */
    method ClearLayer(entity: Entity) returns (r: Result<EntityHasNoCoord>)
      requires Valid()
      modifies this, grid
      ensures Valid()
      ensures Model() == SpatialSpec.ClearLayer(old(Model()), entity).table
      ensures r == SpatialSpec.ClearLayer(old(Model()), entity).result
    {
      ghost var before := Model();
      SpatialProps.ClearLayerPreservesValid(before, entity);
      if entity in locs {
        var location := locs[entity];
        if location.layer.Some? {
          var layer := location.layer.value;
          var c := location.coord;
          assert IsValid(c, GridSize());
          assert grid[c.x, c.y].Select(layer) == Some(entity);
          SetCell(c, grid[c.x, c.y].Set(layer, None));
          locs := locs[entity := location.(layer := None)];
        }
        return Ok;
      } else {
        return Err(EntityHasNoCoord.EntityHasNoCoord);
      }
    }

    /** `SpatialTable::remove`: forget the entity and empty its slot; never fails. */
    method Remove(entity: Entity)
      requires Valid()
      modifies this, grid
      ensures Valid()
      ensures Model() == SpatialSpec.Remove(old(Model()), entity)
    {
      ghost var before := Model();
      SpatialProps.RemovePreservesValid(before, entity);
      var removed := LocationOf(entity);
      locs := locs - {entity};
      if removed.Some? && removed.value.layer.Some? {
        var c := removed.value.coord;
        var (cell, _) := TakeLayer(grid[c.x, c.y], removed.value.layer.value);
        SetCell(c, cell);
      }
      assert Model() == SpatialSpec.Remove(before, entity);
    }

    /** `to_serialize`: the entries and the size, from which the grid can be rebuilt. */
    function ToSerialize(): (r: SpatialSerialize)
      reads this, grid
      ensures r.entries == locs && r.size == GridSize()
      ensures Valid() ==> Rebuildable(r.entries, r.size)
    {
      SpatialProps.ValidIsRebuildable(Model());
      SpatialSerialize(locs, GridSize())
    }

    /**
     * `from_serialize`: a fresh default grid into which every layered entry
     * claims its slot, in whatever order the entries are visited.
     */
    constructor FromSerialize(s: SpatialSerialize)
      requires Rebuildable(s.entries, s.size)
      ensures Valid() && fresh(grid)
      ensures locs == s.entries && GridSize() == s.size
    {
      var g := new Layers[s.size.width, s.size.height]((x, y) => Default());
      ghost var t := New(s.size);
      SpatialProps.BlankIsValid(s.size);
      var remaining := s.entries.Keys;
      while remaining != {}
        invariant remaining <= s.entries.Keys
        invariant t.size == s.size
        invariant forall e :: e in t.locs <==> e in s.entries && e !in remaining
        invariant forall e :: e in t.locs ==> t.locs[e] == s.entries[e]
        invariant Mirrors(g, t.cells) && g.Length0 == s.size.width && g.Length1 == s.size.height
        invariant SpatialSpec.Valid(t)
        decreases remaining
      {
        var entity :| entity in remaining;
        var location := s.entries[entity];
        SpatialProps.ReplayClaimsFreeSlot(t, s.entries, entity);
        if location.layer.Some? {
          var c, layer := location.coord, location.layer.value;
          var slot := g[c.x, c.y].Select(layer);
          assert slot.None?;
          g[c.x, c.y] := g[c.x, c.y].Set(layer, Some(entity));
        }
        t := Replay(t, entity, location);
        remaining := remaining - {entity};
      }
      assert t.locs == s.entries;
      locs := s.entries;
      grid := g;
      cells := t.cells;
    }
  }

  /**
   * Saving a valid table and loading it back (serialization framing aside)
   * gives a valid table with the same entries and an identical grid.
   */
  method Reload(table: SpatialTable) returns (loaded: SpatialTable)
    requires table.Valid()
    ensures loaded.Valid() && fresh(loaded.grid)
    ensures loaded.Model() == table.Model()
  {
    loaded := new SpatialTable.FromSerialize(table.ToSerialize());
    SpatialProps.LocationsDetermineGrid(loaded.Model(), table.Model());
  }
}
