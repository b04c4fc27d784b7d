# spatial-table in Dafny

A model of `SpatialTable` from the Rust crate `spatial-table`, with proofs.
The table is a two-way index over a bounded 2-D grid of cells:

- a sparse store maps each tracked entity to its `Location`: a coordinate and an optional layer;
- a dense grid holds one layer record per cell, with one optional entity slot per layer.

Every mutator checks the grid first, claims the destination slot, and only
then releases the old slot. The model proves that each mutator keeps the two
stores in agreement. It also proves that every error leaves the table
untouched, and that the grid can be rebuilt from the location entries alone.

## Modules

- `Basics` (basics.dfy): entities, coordinates, grid sizes and the bounds test `IsValid`.
- `LayerTable` (layers.dfy): the layer record that `declare_layers_module!` generates for the crate's own test layers, `Feature` and `Character`.
  - `Select`: the total slot selector.
  - `Default`: the all-empty record.
  - The free helpers `insert_layer` and `clear_layer`, as `InsertLayer` and `TakeLayer`.
- `SpatialSpec` (spatial_spec.dfy): the table as a value `Table(size, locs, cells)`.
  - The invariant `Valid` has three parts: the cells cover the grid exactly; every filled slot is claimed by that entity's location; every layered location is in bounds with its slot holding the entity.
  - One function per operation, following the Rust code branch for branch.
  - The frame predicates `Relocated` and `Forgotten` describe a successful move or removal.
  - Two lemmas show that such frames keep `Valid`.
- `SpatialProps` (spatial_props.dfy): for each operation, its result, its error cases, what it changes and what it preserves; then reconstruction.
- `SpatialTables` (spatial_table.dfy): the imperative table.
  - `class SpatialTable` has the location map and an `array2<Layers>` grid that is updated in place.
  - `GridSize` is `grid_size` (src/lib.rs:215-217): the dimensions of the array, fixed at construction.
  - Each method is proved to leave exactly the state its `SpatialSpec` function gives, and to keep `Valid()`.
  - The `debug_assert`s of the Rust code are `assert` statements here, proved from the invariant.
  - `to_serialize` and `from_serialize` are `ToSerialize` and the constructor `FromSerialize`. The rebuild loop is proved against `SpatialSpec.Replay`.
- `Scenario` (scenario.dfy): the crate's unit test, replayed phase by phase. Every expected result in it is derived from the method contracts and the invariant alone.

Panics of the source become preconditions; they are not hidden:

- `update` calls `get_checked_mut` on the entity's previous coordinate even when that location has no layer. This is `SpatialSpec.UpdateDefined`.
- `update_layer` calls `unwrap` on the current cell. This is `SpatialSpec.UpdateLayerDefined`.
- `from_serialize` calls `get_checked_mut` and `assert!(slot.is_none())`. This is `SpatialSpec.Rebuildable`.

An entity tracked without a layer may sit at an out-of-bounds coordinate. Neither `update` with a layerless location nor `update_coord` checks bounds when there is no layer (src/lib.rs:238, 245, 261, 276, 279). `SpatialProps.LayerlessOutOfBoundsReachable` shows that both routes reach this state. From that state, `SpatialProps.LayerlessOutOfBounds` shows two things:

- an `update` of the entity that the claim step rejects returns its error, but any other `update` of it, layered or not, panics at the lookup of the old coordinate (src/lib.rs:246);
- any `update_layer` of it panics at the `unwrap` (src/lib.rs:289-293).

## Model

| member | source | states |
|---|---|---|
| LayerTable.Layers.Set | src/lib.rs:42-49 | writing one layer's slot sets exactly that slot; every other layer reads as before (distinct layers never alias) |
| LayerTable.Default | src/lib.rs:34-40 | the default record has every slot empty |
| LayerTable.LayersExtensional | src/lib.rs:44-48 | a record is determined by what its layer slots select |
| LayerTable.InsertLayer | src/lib.rs:403-415 | the claim fails iff the slot is occupied (the caller itself included), reporting the occupant; on success the slot holds the entity and other layers are untouched |
| LayerTable.TakeLayer | src/lib.rs:416-418 | returns what the slot held, leaves it empty, other layers untouched |
| SpatialSpec.LocationFromInverse | src/lib.rs:180-187 | every layered location is the conversion of its own coordinate and layer, so the conversion reaches exactly the layered locations |
| SpatialSpec.LocationFromInjective | src/lib.rs:180-187 | the conversion always yields a layered location, and two pairs convert to the same location iff they are equal |
| SpatialSpec.CellAgreement | src/lib.rs:249-253 | in a valid table, slot `layer` of cell `c` holds `e` iff `e`'s location is `(c, Some(layer))` |
| SpatialSpec.RelocatePreservesValid | src/lib.rs:233-328 | moving an entity to an in-bounds layered location whose slot is free or its own, or to a layerless one, with only its old and new slots changed, keeps the invariant |
| SpatialSpec.ForgetPreservesValid | src/lib.rs:329-335 | dropping an entity's entry and emptying only its own slot keeps the invariant |
| SpatialProps.BlankIsValid | src/lib.rs:198-205 | a new table is valid, tracks nothing, and every slot of every cell is empty |
| SpatialProps.ClearEmpties | src/lib.rs:206-211 | after clear: valid, same size, no entries, cells exactly the in-bounds coordinates, every slot empty |
| SpatialProps.UpdateResult | src/lib.rs:233-244 | a layered out-of-bounds destination gives DestinationOutOfBounds and an occupied slot gives OccupiedBy(occupant), each with the table unchanged; update succeeds iff the location is layerless or in bounds with a free slot |
| SpatialProps.UpdateRelocates | src/lib.rs:243-257 | a successful update stores exactly the given location, puts the entity in the new slot, empties its previous slot, and changes no other entry or slot |
| SpatialProps.UpdatePreservesValid | src/lib.rs:233-257 | update keeps the two stores in agreement, on success and on error |
| SpatialProps.UpdateReissueIsOccupied | src/lib.rs:409-410 | re-issuing an entity's own layered location is not a no-op: it fails with OccupiedBy(the entity itself) and changes nothing |
| SpatialProps.UpdateReissueLayerless | src/lib.rs:245-256 | re-issuing an in-bounds layerless location succeeds and leaves the table as it was |
| SpatialProps.LayerlessOutOfBoundsReachable | src/lib.rs:238-245 | on a new 10x10 table, a layerless `update` to (-1,-1) and `update_coord` to (-1,-1) of an untracked entity give the same outcome: a valid table tracking it out of bounds |
| SpatialProps.LayerlessOutOfBounds | src/lib.rs:238-246 | for an entity tracked layerless out of bounds: `update` is defined exactly when the claim step rejects a layered destination (out of bounds or occupied), so every other `update` panics on the old coordinate; `update_layer` to any layer panics on the `unwrap` (src/lib.rs:289-293) |
| SpatialProps.UpdateCoordUntracked | src/lib.rs:278-280 | an untracked entity becomes tracked at `(coord, None)` with no bounds check and no grid change |
| SpatialProps.UpdateCoordSameCoord | src/lib.rs:260 | passing the current coordinate succeeds and changes nothing |
| SpatialProps.UpdateCoordLayerless | src/lib.rs:259-276 | a tracked layerless entity only has its coordinate replaced, in or out of bounds; the grid is unchanged |
| SpatialProps.UpdateCoordLayered | src/lib.rs:261-275 | for a layered entity and a new coordinate: out of bounds gives DestinationOutOfBounds, an occupied slot gives OccupiedBy(occupant), both with no change; success iff in bounds and free, and then the entity moves with its layer kept |
| SpatialProps.UpdateCoordPreservesValid | src/lib.rs:258-281 | update_coord keeps the invariant in every branch |
| SpatialProps.UpdateCoordIdempotent | src/lib.rs:258-281 | after a successful update_coord, repeating it succeeds and changes nothing |
| SpatialProps.LayeredUpdateLayerDefined | src/lib.rs:289-293 | for a layered entity of a valid table the unwrap in update_layer cannot panic |
| SpatialProps.UpdateLayerResult | src/lib.rs:282-310 | untracked gives EntityHasNoCoord, the current layer gives Ok, an occupied target gives OccupiedBy(occupant), each with no change; otherwise the entity keeps its coordinate, moves into the target slot and its old slot empties |
| SpatialProps.UpdateLayerPreservesValid | src/lib.rs:282-310 | update_layer keeps the invariant |
| SpatialProps.UpdateLayerIdempotent | src/lib.rs:288 | after a successful update_layer, repeating it succeeds and changes nothing |
| SpatialProps.ClearLayerResult | src/lib.rs:311-328 | untracked gives EntityHasNoCoord with no change; layerless gives Ok with no change; layered keeps the coordinate, drops the layer and empties only its own slot |
| SpatialProps.ClearLayerPreservesValid | src/lib.rs:311-328 | clear_layer keeps the invariant |
| SpatialProps.RemoveResult | src/lib.rs:329-335 | removing an untracked entity is a no-op; a tracked one loses its entry and only its own slot is emptied |
| SpatialProps.RemovePreservesValid | src/lib.rs:329-335 | remove keeps the invariant |
| SpatialProps.ValidIsRebuildable | src/lib.rs:337-359 | the entries of a valid table are in bounds when layered and never claim one slot twice, so from_serialize cannot panic on them |
| SpatialProps.ReplayClaimsFreeSlot | src/lib.rs:347-354 | during the rebuild, each entry's slot is still empty (the `assert!` holds), and claiming it keeps the partial table valid |
| SpatialProps.LocationsDetermineGrid | src/lib.rs:344-359 | two valid tables with the same size and entries are equal: the grid is a function of the entries |
| SpatialProps.SlotAgrees | src/lib.rs:344-359 | two valid tables with the same size and entries agree on every filled slot |
| SpatialTables.SpatialTable.constructor | src/lib.rs:198-205 | a fresh grid of the given size (what `GridSize`, the model of `grid_size`, then reports for the table's whole life), valid, equal to the specification's new table |
| SpatialTables.SpatialTable.Clear | src/lib.rs:206-211 | the loop over all cells leaves every cell at its default and no entries; the table is valid and equals the specification's clear |
| SpatialTables.SpatialTable.LayersAt | src/lib.rs:218-220 | a record exactly for in-bounds coordinates, the grid's own; in a valid table its slots agree with the location map both ways |
| SpatialTables.SpatialTable.LayersAtChecked | src/lib.rs:221-223 | for an in-bounds coordinate, the record whose slots agree with the location map both ways |
| SpatialTables.SpatialTable.LocationOf | src/lib.rs:224-226 | a location exactly for tracked entities, the stored one |
| SpatialTables.SpatialTable.CoordOf | src/lib.rs:227-229 | the stored coordinate exactly for tracked entities |
| SpatialTables.SpatialTable.LayerOf | src/lib.rs:230-232 | a layer exactly for tracked layered entities; in a valid table that slot of its cell holds it |
| SpatialTables.SpatialTable.Update | src/lib.rs:233-257 | the grid and map become the specification's update, the result is its result, the invariant holds and the debug assertion is proved |
| SpatialTables.SpatialTable.UpdateCoord | src/lib.rs:258-281 | the new state and result are the specification's update_coord; the invariant holds and the debug assertion is proved |
| SpatialTables.SpatialTable.UpdateLayer | src/lib.rs:282-310 | the new state and result are the specification's update_layer; the invariant holds and both debug assertions are proved |
| SpatialTables.SpatialTable.ClearLayer | src/lib.rs:311-328 | the new state and result are the specification's clear_layer; the invariant holds and both debug assertions are proved |
| SpatialTables.SpatialTable.Remove | src/lib.rs:329-335 | the new state is the specification's remove and the invariant holds |
| SpatialTables.SpatialTable.ToSerialize | src/lib.rs:337-342 | the entries and the grid size; for a valid table they satisfy what from_serialize needs |
| SpatialTables.SpatialTable.FromSerialize | src/lib.rs:344-359 | from entries that are in bounds and claim no slot twice, a fresh valid table with exactly those entries and that size |
| SpatialTables.Reload | src/lib.rs:428-445 | serialising then deserialising a valid table gives a valid table with a fresh, identical grid and the same entries |
| Scenario.PlaceFirst | src/lib.rs:461-502 | an out-of-bounds placement is rejected and tracks nothing; (4,2) is then placed |
| Scenario.MoveAndBlock | src/lib.rs:504-531 | the feature moves to (6,7); a second feature on that slot is refused with OccupiedBy(a) |
| Scenario.PlaceSecond | src/lib.rs:533-553 | b is placed at (6,8); moving it onto a's slot is refused and b stays at (6,8) |
| Scenario.PlaceCharacter | src/lib.rs:555-581 | a character shares (6,7) with the feature; both cells read back as placed |
| Scenario.Relayer | src/lib.rs:583-613 | re-selecting a's layer is Ok, taking c's layer is refused, b can switch to Character and back |
| Scenario.RemoveFirst | src/lib.rs:615-622 | removing a empties only its feature slot |
| Scenario.MoveIntoFreed | src/lib.rs:623-640 | b moves into the freed slot and its old cell becomes empty |
| Scenario.ClearB | src/lib.rs:642-651 | clearing b's layer keeps its coordinate, drops its layer and empties its slot |

## Left out

- Serde framing: the `Serialize`/`Deserialize` impls and the encoding of `SpatialSerialize` are an external crate's business. Only the entries-and-size value and the rebuild loop are modelled. `SpatialTables.Reload` stands for the round trip.
- The macro machinery: `declare_layers_module!` and its serialisable twin are not modelled as macros. Only the record each generates, for the two layers of the crate's test, is modelled.
- The callback combinators `map`, `for_each`, `for_each_enumerate` and the `option_*` family: they take closures over the record and add nothing to the table's behaviour.
- `enumerate`: its order is fixed by `grid_2d`, which is not part of this model.
- `unwrap_occupied_by` on both error enums: a panicking accessor with no bearing on the table's state.
- `entity_table` and `grid_2d` internals: `ComponentTable` becomes a `map`, `Grid` an `array2`, and an `Entity` a plain value with equality. `EntityAllocator` is not modelled; the scenario uses three distinct handles.
- Integer widths: coordinates are unbounded integers and sizes natural numbers. The source uses `i32` and `u32`, but the table does no arithmetic on them, only comparisons, so nothing wraps.
- Release builds: there the `debug_assert`s are skipped. Here they are proof obligations, discharged from the invariant.
- SpatialSpec.Update: requires `UpdateDefined` where the source panics (a tracked entity whose stored coordinate is out of bounds); the panic itself is not modelled.
- SpatialSpec.UpdateLayer: requires `UpdateLayerDefined` where the source's `unwrap` would panic; the panic itself is not modelled.
- SpatialTables.SpatialTable.FromSerialize: requires `Rebuildable` where the source's `get_checked_mut` or `assert!` would panic; the panic itself is not modelled.
- The order in which `from_serialize` visits the entries: the loop picks any remaining entry. The result is proved the same for every order.
