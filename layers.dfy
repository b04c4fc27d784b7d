/**
 * The per-cell layer record, as `declare_layers_module!` generates it for the
 * two layers of the crate's own test: one optional entity slot per layer, a
 * default with every slot empty, and a total selector in which distinct
 * layers never share a slot.
 */
module LayerTable {
  import opened Basics

  /** The closed set of occupancy classes of a cell. */
  datatype Layer = Feature | Character

  /** One optional entity per layer (`LayerTable<Option<Entity>>`). */
  datatype Layers = Layers(feature: Option<Entity>, character: Option<Entity>) {

    /** Reading the slot that `select_field_mut` selects. */
    function Select(layer: Layer): Option<Entity> {
      match layer
      case Feature => feature
      case Character => character
    }

    /** Writing `v` through the slot that `select_field_mut` selects. */
    function Set(layer: Layer, v: Option<Entity>): (r: Layers)
      ensures r.Select(layer) == v
      ensures forall other :: other != layer ==> r.Select(other) == Select(other)
    {
      match layer
      case Feature => this.(feature := v)
      case Character => this.(character := v)
    }
  }

  /** `Default` for the record: every slot empty. */
  function Default(): (r: Layers)
    ensures forall layer :: r.Select(layer) == None
  {
    Layers(None, None)
  }

  /** A record is determined by what its slots select. */
  lemma LayersExtensional(a: Layers, b: Layers)
    requires forall layer :: a.Select(layer) == b.Select(layer)
    ensures a == b
  {
    assert a.Select(Feature) == b.Select(Feature);
    assert a.Select(Character) == b.Select(Character);
  }

  /** The outcome of `insert_layer`: the updated cell, or the entity that blocked it. */
  datatype Insertion = Inserted(cell: Layers) | Occupied(occupant: Entity)

  /**
   * `insert_layer`: claim the slot of `layer` for `entity`. Any occupant, the
   * entity itself included, blocks the claim.
   */
  function InsertLayer(cell: Layers, entity: Entity, layer: Layer): (r: Insertion)
    ensures r.Occupied? <==> cell.Select(layer).Some?
    ensures r.Occupied? ==> cell.Select(layer) == Some(r.occupant)
    ensures r.Inserted? ==> r.cell.Select(layer) == Some(entity)
    ensures r.Inserted? ==> forall other :: other != layer ==> r.cell.Select(other) == cell.Select(other)
  {
    match cell.Select(layer)
    case Some(occupant) => Occupied(occupant)
    case None => Inserted(cell.Set(layer, Some(entity)))
  }

  /**
   * `clear_layer` (the free helper): empty the slot of `layer` and return what
   * it held.
   */
  function TakeLayer(cell: Layers, layer: Layer): (r: (Layers, Option<Entity>))
    ensures r.1 == cell.Select(layer)
    ensures r.0.Select(layer) == None
    ensures forall other :: other != layer ==> r.0.Select(other) == cell.Select(other)
  {
    (cell.Set(layer, None), cell.Select(layer))
  }
}
