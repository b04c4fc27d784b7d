/**
 * What each operation of the spatial table promises: which inputs it rejects
 * and that a rejection changes nothing, which entries and slots a success
 * changes, that the two stores stay in agreement, and that the grid can be
 * rebuilt from the location index alone.
 */
module SpatialProps {
  import opened Basics
  import opened LayerTable
  import opened SpatialSpec

  // ---------------------------------------------------------------- new, clear

  /** A fresh or cleared table tracks nothing and every slot of every cell is empty. */
  lemma BlankIsValid(size: Size)
    ensures Valid(New(size))
    ensures New(size).locs == map[]
    ensures forall c, layer :: c in New(size).cells ==> Slot(New(size), c, layer) == None
  {
  }

  /** `clear` forgets every entry, empties every slot and keeps the size. */
  lemma ClearEmpties(t: Table)
    ensures Valid(Clear(t))
    ensures Clear(t).size == t.size && Clear(t).locs == map[]
    ensures forall c :: c in Clear(t).cells <==> IsValid(c, t.size)
    ensures forall c, layer :: c in Clear(t).cells ==> Slot(Clear(t), c, layer) == None
  {
  }

  // ---------------------------------------------------------------- update

  /**
   * `update` with a layered location fails when the coordinate is out of
   * bounds or the slot holds any entity (the caller itself included), and then
   * changes nothing; in every other case it succeeds.
   */
  lemma UpdateResult(t: Table, entity: Entity, location: Location)
    requires Valid(t) && UpdateDefined(t, entity, location)
    ensures var out := Update(t, entity, location);
      && (location.layer.Some? && !IsValid(location.coord, t.size) ==>
            out == Outcome(t, Err(DestinationOutOfBounds)))
      && (location.layer.Some? && IsValid(location.coord, t.size) &&
          Slot(t, location.coord, location.layer.value).Some? ==>
            out == Outcome(t, Err(UpdateError.OccupiedBy(Slot(t, location.coord, location.layer.value).value))))
      && (out.result.Ok? <==>
            location.layer.None? ||
            (IsValid(location.coord, t.size) && Slot(t, location.coord, location.layer.value).None?))
  {
  }

  /**
   * A successful `update` stores exactly the given location, writes the entity
   * into the new slot (if layered), empties its previous slot (if any) and
   * changes no other entry or slot.
   */
  lemma UpdateRelocates(t: Table, entity: Entity, location: Location)
    requires Valid(t) && UpdateDefined(t, entity, location)
    requires Update(t, entity, location).result.Ok?
    ensures Relocated(t, Update(t, entity, location).table, entity, location)
  {
  }

  /** `update` keeps the two stores in agreement, whatever it returns. */
  lemma UpdatePreservesValid(t: Table, entity: Entity, location: Location)
    requires Valid(t) && UpdateDefined(t, entity, location)
    ensures Valid(Update(t, entity, location).table)
  {
    if Update(t, entity, location).result.Ok? {
      UpdateRelocates(t, entity, location);
      RelocatePreservesValid(t, Update(t, entity, location).table, entity, location);
    }
  }

  /**
   * Re-issuing an entity's own layered location is not a no-op: the slot is
   * occupied by the entity itself.
   */
  lemma UpdateReissueIsOccupied(t: Table, entity: Entity)
    requires Valid(t) && entity in t.locs && t.locs[entity].layer.Some?
    ensures UpdateDefined(t, entity, t.locs[entity])
    ensures Update(t, entity, t.locs[entity]) == Outcome(t, Err(UpdateError.OccupiedBy(entity)))
  {
  }

  /** Re-issuing an in-bounds layerless location changes nothing. */
  lemma UpdateReissueLayerless(t: Table, entity: Entity)
    requires Valid(t) && entity in t.locs && t.locs[entity].layer.None?
    requires IsValid(t.locs[entity].coord, t.size)
    ensures Update(t, entity, t.locs[entity]) == Outcome(t, Ok)
  {
  }

  /**
   * The agreement does not guarantee what `update` demands of a tracked
   * entity: neither `update` with a layerless location nor `update_coord`
   * checks bounds when there is no layer, so either can track an entity at an
   * out-of-bounds coordinate.
   */
  lemma LayerlessOutOfBoundsReachable()
    ensures var t0, e, c := New(Size(10, 10)), Entity(0), Coord(-1, -1);
      && Valid(t0)
      && UpdateDefined(t0, e, Location(c, None))
      && Update(t0, e, Location(c, None)) == UpdateCoord(t0, e, c)
      && var t := UpdateCoord(t0, e, c).table;
         Valid(t) && e in t.locs && t.locs[e] == Location(c, None) && !IsValid(c, t.size)
  {
    BlankIsValid(Size(10, 10));
  }

  /**
   * From such a state, an `update` of the entity that is rejected at the claim
   * step returns its error, every other `update` of it (layered or not)
   * reaches the panicking lookup of the old coordinate, and every
   * `update_layer` of it reaches the panicking `unwrap`.
   */
  lemma LayerlessOutOfBounds(t: Table, entity: Entity, location: Location, layer: Layer)
    requires Valid(t) && entity in t.locs && t.locs[entity].layer.None?
    requires !IsValid(t.locs[entity].coord, t.size)
    ensures UpdateDefined(t, entity, location) <==>
      location.layer.Some? &&
      (!IsValid(location.coord, t.size) || Slot(t, location.coord, location.layer.value).Some?)
    ensures !UpdateLayerDefined(t, entity, layer)
  {
  }

  // ---------------------------------------------------------------- update_coord

  /** `update_coord` of an untracked entity tracks it at the coordinate with no layer, without a bounds check. */
  lemma UpdateCoordUntracked(t: Table, entity: Entity, coord: Coord)
    requires Valid(t) && entity !in t.locs
    ensures UpdateCoord(t, entity, coord) ==
      Outcome(t.(locs := t.locs[entity := Location(coord, None)]), Ok)
  {
  }

  /** `update_coord` to the current coordinate succeeds and changes nothing. */
  lemma UpdateCoordSameCoord(t: Table, entity: Entity)
    requires Valid(t) && entity in t.locs
    ensures UpdateCoord(t, entity, t.locs[entity].coord) == Outcome(t, Ok)
  {
  }

  /** `update_coord` of a layerless entity changes its coordinate only. */
  lemma UpdateCoordLayerless(t: Table, entity: Entity, coord: Coord)
    requires Valid(t) && entity in t.locs && t.locs[entity].layer.None?
    ensures UpdateCoord(t, entity, coord) ==
      Outcome(t.(locs := t.locs[entity := Location(coord, None)]), Ok)
  {
  }

  /**
   * `update_coord` of a layered entity to another coordinate fails as `update`
   * does (out of bounds, or the same layer's slot occupied), and then changes
   * nothing; otherwise it moves the entity to the same layer at the new
   * coordinate.
   */
  lemma UpdateCoordLayered(t: Table, entity: Entity, coord: Coord)
    requires Valid(t) && entity in t.locs && t.locs[entity].layer.Some?
    requires coord != t.locs[entity].coord
    ensures var layer, out := t.locs[entity].layer.value, UpdateCoord(t, entity, coord);
      && (!IsValid(coord, t.size) ==> out == Outcome(t, Err(DestinationOutOfBounds)))
      && (IsValid(coord, t.size) && Slot(t, coord, layer).Some? ==>
            out == Outcome(t, Err(UpdateError.OccupiedBy(Slot(t, coord, layer).value))))
      && (out.result.Ok? <==> IsValid(coord, t.size) && Slot(t, coord, layer).None?)
      && (out.result.Ok? ==> Relocated(t, out.table, entity, Location(coord, Some(layer))))
  {
  }

  /** `update_coord` keeps the two stores in agreement, whatever it returns. */
  lemma UpdateCoordPreservesValid(t: Table, entity: Entity, coord: Coord)
    requires Valid(t)
    ensures Valid(UpdateCoord(t, entity, coord).table)
  {
    var out := UpdateCoord(t, entity, coord);
    if entity !in t.locs {
      UpdatePreservesValid(t, entity, Location(coord, None));
    } else if coord != t.locs[entity].coord && out.result.Ok? {
      var location := t.locs[entity];
      if location.layer.None? {
        forall c, layer | c in t.cells
          ensures Slot(out.table, c, layer) == Moved(t, entity, location.(coord := coord), c, layer)
        {
        }
        RelocatePreservesValid(t, out.table, entity, location.(coord := coord));
      } else {
        UpdateCoordLayered(t, entity, coord);
        RelocatePreservesValid(t, out.table, entity, location.(coord := coord));
      }
    }
  }

  /** Once `update_coord` has succeeded, repeating it succeeds and changes nothing. */
  lemma UpdateCoordIdempotent(t: Table, entity: Entity, coord: Coord)
    requires Valid(t) && UpdateCoord(t, entity, coord).result.Ok?
    ensures Valid(UpdateCoord(t, entity, coord).table)
    ensures var t' := UpdateCoord(t, entity, coord).table;
      UpdateCoord(t', entity, coord) == Outcome(t', Ok)
  {
    UpdateCoordPreservesValid(t, entity, coord);
    var t' := UpdateCoord(t, entity, coord).table;
    assert entity in t'.locs && t'.locs[entity].coord == coord;
  }

  // ---------------------------------------------------------------- update_layer

  /** In a valid table, only a layerless entity can be at an out-of-bounds coordinate. */
  lemma LayeredUpdateLayerDefined(t: Table, entity: Entity, layer: Layer)
    requires Valid(t) && entity in t.locs && t.locs[entity].layer.Some?
    ensures UpdateLayerDefined(t, entity, layer)
  {
  }

  /**
   * `update_layer` fails with `EntityHasNoCoord` for an untracked entity,
   * succeeds with no change for the current layer, fails with the occupant of
   * the target slot of the same cell, and otherwise moves the entity to that
   * slot keeping its coordinate.
   */
  lemma UpdateLayerResult(t: Table, entity: Entity, layer: Layer)
    requires Valid(t) && UpdateLayerDefined(t, entity, layer)
    ensures var out := UpdateLayer(t, entity, layer);
      && (entity !in t.locs ==> out == Outcome(t, Err(UpdateLayerError.EntityHasNoCoord)))
      && (entity in t.locs && t.locs[entity].layer == Some(layer) ==> out == Outcome(t, Ok))
      && (entity in t.locs && t.locs[entity].layer != Some(layer) ==>
            var c := t.locs[entity].coord;
            && (Slot(t, c, layer).Some? ==>
                  out == Outcome(t, Err(UpdateLayerError.OccupiedBy(Slot(t, c, layer).value))))
            && (Slot(t, c, layer).None? ==>
                  out.result.Ok? && Relocated(t, out.table, entity, Location(c, Some(layer)))))
  {
  }

  /** `update_layer` keeps the two stores in agreement, whatever it returns. */
  lemma UpdateLayerPreservesValid(t: Table, entity: Entity, layer: Layer)
    requires Valid(t) && UpdateLayerDefined(t, entity, layer)
    ensures Valid(UpdateLayer(t, entity, layer).table)
  {
    UpdateLayerResult(t, entity, layer);
    if entity in t.locs && t.locs[entity].layer != Some(layer) {
      var c := t.locs[entity].coord;
      if Slot(t, c, layer).None? {
        RelocatePreservesValid(t, UpdateLayer(t, entity, layer).table, entity, Location(c, Some(layer)));
      }
    }
  }

  /** Once `update_layer` has succeeded, repeating it succeeds and changes nothing. */
  lemma UpdateLayerIdempotent(t: Table, entity: Entity, layer: Layer)
    requires Valid(t) && UpdateLayerDefined(t, entity, layer)
    requires UpdateLayer(t, entity, layer).result.Ok?
    ensures var t' := UpdateLayer(t, entity, layer).table;
      && Valid(t') && UpdateLayerDefined(t', entity, layer)
      && UpdateLayer(t', entity, layer) == Outcome(t', Ok)
  {
    UpdateLayerPreservesValid(t, entity, layer);
    var t' := UpdateLayer(t, entity, layer).table;
    assert entity in t'.locs && t'.locs[entity].layer == Some(layer);
  }

  // ---------------------------------------------------------------- clear_layer

  /**
   * `clear_layer` fails for an untracked entity and changes nothing, succeeds
   * with no change for a layerless one, and otherwise keeps the coordinate,
   * drops the layer and empties only the entity's slot.
   */
  lemma ClearLayerResult(t: Table, entity: Entity)
    requires Valid(t)
    ensures var out := ClearLayer(t, entity);
      && (entity !in t.locs ==> out == Outcome(t, Err(EntityHasNoCoord.EntityHasNoCoord)))
      && (entity in t.locs && t.locs[entity].layer.None? ==> out == Outcome(t, Ok))
      && (entity in t.locs && t.locs[entity].layer.Some? ==>
            out.result.Ok? && Relocated(t, out.table, entity, Location(t.locs[entity].coord, None)))
  {
  }

  /** `clear_layer` keeps the two stores in agreement, whatever it returns. */
  lemma ClearLayerPreservesValid(t: Table, entity: Entity)
    requires Valid(t)
    ensures Valid(ClearLayer(t, entity).table)
  {
    ClearLayerResult(t, entity);
    if entity in t.locs && t.locs[entity].layer.Some? {
      RelocatePreservesValid(t, ClearLayer(t, entity).table, entity, Location(t.locs[entity].coord, None));
    }
  }

  // ---------------------------------------------------------------- remove

  /** `remove` of an untracked entity is a no-op; of a tracked one, it forgets only that entity. */
  lemma RemoveResult(t: Table, entity: Entity)
    requires Valid(t)
    ensures entity !in t.locs ==> Remove(t, entity) == t
    ensures entity in t.locs ==> Forgotten(t, Remove(t, entity), entity)
  {
  }

  /** `remove` keeps the two stores in agreement. */
  lemma RemovePreservesValid(t: Table, entity: Entity)
    requires Valid(t)
    ensures Valid(Remove(t, entity))
  {
    RemoveResult(t, entity);
    if entity in t.locs {
      ForgetPreservesValid(t, Remove(t, entity), entity);
    }
  }

  // ---------------------------------------------------------------- reconstruction

  /** The entries of a valid table can always be rebuilt: none is out of bounds or doubly claimed. */
  lemma ValidIsRebuildable(t: Table)
    ensures Valid(t) ==> Rebuildable(t.locs, t.size)
  {
  }

  /**
   * One turn of the rebuild loop: when part of the entries has been replayed,
   * the slot of a further layered entry is still empty (the `assert!` of
   * `from_serialize`), and replaying that entry keeps the agreement.
   */
  lemma ReplayClaimsFreeSlot(t: Table, entries: map<Entity, Location>, entity: Entity)
    requires Valid(t) && Rebuildable(entries, t.size)
    requires forall e :: e in t.locs ==> e in entries && t.locs[e] == entries[e]
    requires entity in entries && entity !in t.locs
    ensures var location := entries[entity];
      location.layer.Some? ==> Slot(t, location.coord, location.layer.value) == None
    ensures Valid(Replay(t, entity, entries[entity]))
  {
    var location := entries[entity];
    var after := Replay(t, entity, location);
    forall c, layer | c in t.cells
      ensures Slot(after, c, layer) == Moved(t, entity, location, c, layer)
    {
    }
    RelocatePreservesValid(t, after, entity, location);
  }

  /**
   * The location index determines the grid: two valid tables of the same size
   * with the same entries are identical. Rebuilding the grid from the entries
   * of a valid table therefore reproduces its grid.
   */
  lemma LocationsDetermineGrid(t1: Table, t2: Table)
    requires Valid(t1) && Valid(t2)
    requires t1.size == t2.size && t1.locs == t2.locs
    ensures t1 == t2
  {
    forall c | c in t1.cells
      ensures c in t2.cells && t1.cells[c] == t2.cells[c]
    {
      forall layer
        ensures t1.cells[c].Select(layer) == t2.cells[c].Select(layer)
      {
        SlotAgrees(t1, t2, c, layer);
        SlotAgrees(t2, t1, c, layer);
      }
      LayersExtensional(t1.cells[c], t2.cells[c]);
    }
    assert t1.cells.Keys == t2.cells.Keys;
  }

  /** An entity in a slot of `t1` occupies the same slot of `t2`. */
  lemma SlotAgrees(t1: Table, t2: Table, c: Coord, layer: Layer)
    requires Valid(t1) && Valid(t2)
    requires t1.size == t2.size && t1.locs == t2.locs
    requires c in t1.cells
    ensures c in t2.cells
    ensures Slot(t1, c, layer).Some? ==> Slot(t2, c, layer) == Slot(t1, c, layer)
  {
  }
}
