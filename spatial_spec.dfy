/**
 * The spatial table as a value: the location index (entity to location) and
 * the occupancy grid (coordinate to layer record), the invariant under which
 * the two agree, and one function per operation of `SpatialTable`. The
 * functions follow the Rust code branch for branch; where the Rust code would
 * panic the function has a precondition instead.
 */
module SpatialSpec {
  import opened Basics
  import opened LayerTable

  /** Where an entity is: a coordinate and, optionally, the layer it occupies there. */
  datatype Location = Location(coord: Coord, layer: Option<Layer>)

  /** `From<(Coord, L)> for Location`: a pair makes a layered location. */
  function LocationFrom(coord: Coord, layer: Layer): Location {
    Location(coord, Some(layer))
  }

  /** Every layered location is the conversion of its own coordinate and layer. */
  lemma LocationFromInverse(l: Location)
    requires l.layer.Some?
    ensures LocationFrom(l.coord, l.layer.value) == l
  {
  }

  /** The conversion loses nothing: distinct pairs give distinct locations, and none is layerless. */
  lemma LocationFromInjective(c1: Coord, x1: Layer, c2: Coord, x2: Layer)
    ensures LocationFrom(c1, x1).layer.Some?
    ensures LocationFrom(c1, x1) == LocationFrom(c2, x2) <==> c1 == c2 && x1 == x2
  {
  }

  datatype UpdateError = OccupiedBy(occupant: Entity) | DestinationOutOfBounds
  datatype UpdateLayerError = OccupiedBy(occupant: Entity) | EntityHasNoCoord
  datatype EntityHasNoCoord = EntityHasNoCoord

  /** `Result<(), E>`. */
  datatype Result<+E> = Ok | Err(error: E)

  /**
   * The two stores: `locs` is `location_component`, `cells` is `spatial_grid`
   * (a record for every in-bounds coordinate).
   */
  datatype Table = Table(size: Size, locs: map<Entity, Location>, cells: map<Coord, Layers>)

  /** What an operation leaves behind and what it returns. */
  datatype Outcome<+E> = Outcome(table: Table, result: Result<E>)

  /** The entity (if any) in the `layer` slot of cell `c`. */
  function Slot(t: Table, c: Coord, layer: Layer): Option<Entity>
    requires c in t.cells
  {
    t.cells[c].Select(layer)
  }

  /** The grid has a record for exactly the in-bounds coordinates. */
  ghost predicate Covers(t: Table) {
    forall c :: c in t.cells <==> IsValid(c, t.size)
  }

  /** Every layered entry has its coordinate in bounds and its slot holds the entity. */
  ghost predicate Claimed(t: Table) {
    forall e :: e in t.locs && t.locs[e].layer.Some? ==>
      IsValid(t.locs[e].coord, t.size) && t.locs[e].coord in t.cells &&
      Slot(t, t.locs[e].coord, t.locs[e].layer.value) == Some(e)
  }

  /** Every occupied slot is matched by the location of its occupant. */
  ghost predicate Tracked(t: Table) {
    forall c, layer :: c in t.cells && Slot(t, c, layer).Some? ==>
      Slot(t, c, layer).value in t.locs &&
      t.locs[Slot(t, c, layer).value] == Location(c, Some(layer))
  }

  /** The two-way agreement between location index and occupancy grid. */
  ghost predicate Valid(t: Table) {
    Covers(t) && Claimed(t) && Tracked(t)
  }

  /**
   * The agreement read at one cell: a slot holds an entity exactly when that
   * entity's location is this cell and that layer.
   */
  lemma CellAgreement(t: Table, c: Coord)
    ensures Valid(t) && c in t.cells ==> forall layer, e ::
      t.cells[c].Select(layer) == Some(e) <==> e in t.locs && t.locs[e] == Location(c, Some(layer))
  {
    if Valid(t) && c in t.cells {
      forall layer, e
        ensures t.cells[c].Select(layer) == Some(e) <==> e in t.locs && t.locs[e] == Location(c, Some(layer))
      {
        assert Slot(t, c, layer) == t.cells[c].Select(layer);
        if e in t.locs && t.locs[e] == Location(c, Some(layer)) {
          assert Slot(t, t.locs[e].coord, t.locs[e].layer.value) == Some(e);
        }
      }
    }
  }

  /** A grid with every record at its default. */
  function Blank(size: Size): (cells: map<Coord, Layers>)
  {
    map c | c in Coords(size) :: Default()
  }

  /** `SpatialTable::new`. */
  function New(size: Size): Table {
    Table(size, map[], Blank(size))
  }

  /** `SpatialTable::clear`. */
  function Clear(t: Table): Table {
    Table(t.size, map[], Blank(t.size))
  }

  /** The first step of `update`: the grid after the destination slot is claimed, or why not. */
  datatype Staged = Staged(cells: map<Coord, Layers>) | Rejected(error: UpdateError)

  /**
   * `update`, lines up to the claim: a layered destination must be in bounds
   * and its slot empty, and is then claimed for `entity`.
   */
  function Destination(t: Table, entity: Entity, location: Location): Staged
    requires Covers(t)
  {
    match location.layer
    case None => Staged(t.cells)
    case Some(layer) =>
      if !IsValid(location.coord, t.size) then Rejected(DestinationOutOfBounds)
      else match InsertLayer(t.cells[location.coord], entity, layer)
        case Occupied(occupant) => Rejected(UpdateError.OccupiedBy(occupant))
        case Inserted(cell) => Staged(t.cells[location.coord := cell])
  }

  /**
   * `update` looks up the cell of the entity's previous coordinate with the
   * panicking accessor whenever the claim succeeded and the entity was tracked,
   * whether or not it had a layer: that coordinate must then be in bounds.
   */
  ghost predicate UpdateDefined(t: Table, entity: Entity, location: Location)
    requires Covers(t)
  {
    entity in t.locs && Destination(t, entity, location).Staged? ==>
      IsValid(t.locs[entity].coord, t.size)
  }

  /** `SpatialTable::update`. */
  function Update(t: Table, entity: Entity, location: Location): Outcome<UpdateError>
    requires Valid(t) && UpdateDefined(t, entity, location)
  {
    match Destination(t, entity, location)
    case Rejected(error) => Outcome(t, Err(error))
    case Staged(cells) =>
      var locs := t.locs[entity := location];
      if entity in t.locs && t.locs[entity].layer.Some? then
        var original := t.locs[entity];
        var (cell, _) := TakeLayer(cells[original.coord], original.layer.value);
        Outcome(Table(t.size, locs, cells[original.coord := cell]), Ok)
      else
        Outcome(Table(t.size, locs, cells), Ok)
  }

  /** `SpatialTable::update_coord`. */
  function UpdateCoord(t: Table, entity: Entity, coord: Coord): Outcome<UpdateError>
    requires Valid(t)
  {
    if entity in t.locs then
      var location := t.locs[entity];
      if coord == location.coord then Outcome(t, Ok)
      else
        var locs := t.locs[entity := location.(coord := coord)];
        match location.layer
        case None => Outcome(Table(t.size, locs, t.cells), Ok)
        case Some(layer) =>
          match Destination(t, entity, Location(coord, Some(layer)))
          case Rejected(error) => Outcome(t, Err(error))
          case Staged(cells) =>
            var (source, _) := TakeLayer(cells[location.coord], layer);
            Outcome(Table(t.size, locs, cells[location.coord := source]), Ok)
    else
      Update(t, entity, Location(coord, None))
  }

  /**
   * `update_layer` unwraps the cell of the entity's coordinate whenever the
   * layer changes: that coordinate must then be in bounds.
   */
  ghost predicate UpdateLayerDefined(t: Table, entity: Entity, layer: Layer) {
    entity in t.locs && t.locs[entity].layer != Some(layer) ==>
      IsValid(t.locs[entity].coord, t.size)
  }

  /** `SpatialTable::update_layer`. */
  function UpdateLayer(t: Table, entity: Entity, layer: Layer): Outcome<UpdateLayerError>
    requires Valid(t) && UpdateLayerDefined(t, entity, layer)
  {
    if entity in t.locs then
      var location := t.locs[entity];
      if Some(layer) == location.layer then Outcome(t, Ok)
      else
        var cell := t.cells[location.coord];
        match cell.Select(layer)
        case Some(occupant) => Outcome(t, Err(UpdateLayerError.OccupiedBy(occupant)))
        case None =>
          var claimed := cell.Set(layer, Some(entity));
          var moved := match location.layer
            case None => claimed
            case Some(current) => claimed.Set(current, None);
          Outcome(Table(t.size, t.locs[entity := location.(layer := Some(layer))],
                        t.cells[location.coord := moved]), Ok)
    else
      Outcome(t, Err(UpdateLayerError.EntityHasNoCoord))
  }

  /** `SpatialTable::clear_layer`. */
  function ClearLayer(t: Table, entity: Entity): Outcome<EntityHasNoCoord>
    requires Valid(t)
  {
    if entity in t.locs then
      var location := t.locs[entity];
      match location.layer
      case None => Outcome(t, Ok)
      case Some(layer) =>
        var cell := t.cells[location.coord].Set(layer, None);
        Outcome(Table(t.size, t.locs[entity := location.(layer := None)],
                      t.cells[location.coord := cell]), Ok)
    else
      Outcome(t, Err(EntityHasNoCoord.EntityHasNoCoord))
  }

  /** `SpatialTable::remove`. */
  function Remove(t: Table, entity: Entity): Table
    requires Valid(t)
  {
    if entity in t.locs then
      var location := t.locs[entity];
      var locs := t.locs - {entity};
      match location.layer
      case None => Table(t.size, locs, t.cells)
      case Some(layer) =>
        var (cell, _) := TakeLayer(t.cells[location.coord], layer);
        Table(t.size, locs, t.cells[location.coord := cell])
    else
      t
  }

  /**
   * What `from_serialize` needs of the entries so that it does not panic: every
   * layered entry is in bounds, and no two layered entries claim the same slot.
   */
  ghost predicate Rebuildable(entries: map<Entity, Location>, size: Size) {
    && (forall e :: e in entries && entries[e].layer.Some? ==> IsValid(entries[e].coord, size))
    && (forall e1, e2 ::
          e1 in entries && e2 in entries && entries[e1].layer.Some? && entries[e1] == entries[e2]
          ==> e1 == e2)
  }

  /** One turn of the loop of `from_serialize`: track `entity` and claim its slot. */
  function Replay(t: Table, entity: Entity, location: Location): Table
    requires Covers(t)
    requires location.layer.Some? ==> IsValid(location.coord, t.size)
  {
    var cells := match location.layer
      case None => t.cells
      case Some(layer) =>
        t.cells[location.coord := t.cells[location.coord].Set(layer, Some(entity))];
    Table(t.size, t.locs[entity := location], cells)
  }

  /** The slot `(c, layer)` once `entity` has moved from its entry in `before` to `location`. */
  ghost function Moved(before: Table, entity: Entity, location: Location, c: Coord, layer: Layer): Option<Entity>
    requires c in before.cells
  {
    if location == Location(c, Some(layer)) then Some(entity)
    else if entity in before.locs && before.locs[entity] == Location(c, Some(layer)) then None
    else Slot(before, c, layer)
  }

  /**
   * `after` is `before` with `entity` moved to `location`: its entry is
   * replaced, it occupies the slot of `location` (if layered), its previous
   * slot (if any) is empty, and no other entry or slot differs.
   */
  ghost predicate Relocated(before: Table, after: Table, entity: Entity, location: Location) {
    && after.size == before.size
    && after.locs == before.locs[entity := location]
    && after.cells.Keys == before.cells.Keys
    && forall c, layer :: c in before.cells ==>
         Slot(after, c, layer) == Moved(before, entity, location, c, layer)
  }

  /**
   * `after` is `before` with `entity` forgotten: its entry is gone, its slot
   * (if any) is empty, and no other entry or slot differs.
   */
  ghost predicate Forgotten(before: Table, after: Table, entity: Entity) {
    && after.size == before.size
    && after.locs == before.locs - {entity}
    && after.cells.Keys == before.cells.Keys
    && forall c, layer :: c in before.cells ==>
         Slot(after, c, layer) ==
           if entity in before.locs && before.locs[entity] == Location(c, Some(layer)) then None
           else Slot(before, c, layer)
  }

  /**
   * Moving an entity to an in-bounds location whose slot is free (or already
   * its own) keeps the two stores in agreement.
   */
  lemma RelocatePreservesValid(before: Table, after: Table, entity: Entity, location: Location)
    requires Valid(before) && Relocated(before, after, entity, location)
    requires location.layer.Some? ==>
      IsValid(location.coord, before.size) &&
      Slot(before, location.coord, location.layer.value) in {None, Some(entity)}
    ensures Valid(after)
  {
  }

  /** Forgetting an entity keeps the two stores in agreement. */
  lemma ForgetPreservesValid(before: Table, after: Table, entity: Entity)
    requires Valid(before) && Forgotten(before, after, entity)
    ensures Valid(after)
  {
  }
}
