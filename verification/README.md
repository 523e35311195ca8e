# Entity store, data sheets and staged effects — a Dafny model

This project models the state core of a turn-based tabletop-RPG simulation
written in Rust. It has three parts.

- **The entity store** (`src/entity_store.rs`). Entities are dense indices
  counted up from 0. There is one `Vec<Option<T>>` column per component
  type `T`, and a column is found by downcasting each boxed column in turn.
  The operations are `new`, `add_entity`, `remove_entity`, `add_component`,
  `remove_component` and `get_component`, plus the column helpers
  `push_none` and `set_none`.
- **The data sheet** (`src/data.rs`). A character's records (`Health`,
  the six ability scores) sit in one heterogeneous list. `query::<T>` and
  `query_mut::<T>` hand out the records of one concrete type, in list order.
- **The effect pipeline** (`src/effects.rs`). An entity's effects sit in an
  ordered list. For each entity, `EffectSystem::run` walks the four stages of
  `StageOrder`. At each stage every effect that is `ready` for it runs
  `update` on the entity's data sheet. `FastHealing(n)` is ready only at
  `Healing`, and it adds `n` to every `Health` record.

How the Rust is rendered in Dafny:

- Rust's runtime types become data. A store column carries a `TypeTag`, and
  "downcast succeeds" means "the tag matches". A data-sheet record is a
  constructor of the closed datatype `DataItem`, and its Rust type is its
  `DataKind`.
- Every operation is a pure function from the old state to the new one.
- Each panic in the Rust code is handled in one of two ways:
  - Out-of-bounds indexing and `Vec::insert` past the end become
    preconditions, stated with the exact bound the code indexes with
    (`ColumnHasAtLeast`).
  - The `i32` overflow of `x.0 += n` in `FastHealing::update` is a panic in a
    debug build. Here the update, and with it the pass, returns `None`.

The game loop in `src/game.rs` calls a store API that
`src/entity_store.rs` does not define:
- `set_component` (`src/game.rs:26`);
- an `Action` type (`src/game.rs:1`);
- `get_future_component` (`src/game.rs:57`, `:71`);
- `commit` (`src/game.rs:62`);
- `action.insertions.set_component` (`src/game.rs:74`).

This model follows `src/entity_store.rs` as it stands, with positional
`Vec`s and no action layer. The corrected `SetComponent` below writes a
cell in place, but it keeps `add_component`'s `entity >= entities_count`
guard. On the empty store that `Game::new` builds (`src/game.rs:13`), no
entity has been added, so the call at `src/game.rs:26` would change nothing
under either `add_component` or `SetComponent`.

Modelling the code as written brought out two places where `Vec::insert`
is used where an in-place assignment is evidently meant (see "Findings").
The model keeps the as-written operations (`AddComponent`, `RemoveEntity`)
and proves what they really do. It also defines the corrected operations
(`SetComponent`, `ClearEntity`) with the intended properties proved.

Files:

- `optional.dfy`: the `Option` type.
- `int32.dfy`: the `i32` range.
- `entity_store.dfy`: module `EntityStore`.
- `store_findings.dfy`: module `StoreFindings`, concrete counterexamples for
  the two findings.
- `data.dfy`: module `Data`.
- `effects.dfy`: module `Effects`.

## Model

| member | source | states |
|---|---|---|
| `EntityStore.New` | src/entity_store.rs:11-16 | A new store has no entities and no columns, and it satisfies the store invariant (unique column types, every column covers every entity). |
| `EntityStore.AddEntity` | src/entity_store.rs:18-25 | Returns the old entity count as the new id and raises the count by one. Every column keeps its cells and gains exactly one `None` at the end. The invariant is preserved. |
| `EntityStore.AddEntityKeepsReads` | src/entity_store.rs:18-25 | Adding an entity changes no existing entity's read of any component type. |
| `EntityStore.PushNone` | src/entity_store.rs:109-111 | `push_none` appends exactly one `None` and leaves every earlier cell in place. |
| `EntityStore.Insert` | src/entity_store.rs:52 | `Vec::insert(i, x)`: `x` lands at `i`, cells below `i` stay, cells from `i` on move up by one, and the length grows by one. |
| `EntityStore.SetNone` | src/entity_store.rs:113-115 | `set_none` inserts a `None` at the entity's index: the cell reads `None`, lower cells stay, and every later cell moves up by one. |
| `EntityStore.FindColumn` | src/entity_store.rs:47-55 | The downcast loop finds the first column of the requested type and no earlier one. It finds nothing exactly when no column has the type. |
| `EntityStore.ValidColumnsInBounds` | src/entity_store.rs:94 | Under the store invariant, indexing any live entity in the column found never panics. |
| `EntityStore.GetComponent` | src/entity_store.rs:84-98 | An entity id at or above the count reads `None`. An unregistered type reads `None`. A `Some` result is a cell of a column of that type at that entity. Under the invariant, the result is that column's cell. |
| `EntityStore.AddComponent` | src/entity_store.rs:37-70 | Out-of-range entities leave the store unchanged. Otherwise the entity then reads the component back, the entity count is unchanged, and the invariant is preserved. |
| `EntityStore.AddComponentNewColumn` | src/entity_store.rs:57-69 | An unregistered type gets one new column, appended last. The column is as long as the entity count, holds the component at the entity and `None` at every other cell, and the old columns are untouched. |
| `EntityStore.AddComponentExistingColumn` | src/entity_store.rs:47-55 | A registered type's column grows by one: lower cells stay, the component lands at the entity, and the old cells from the entity on move up by one. Other columns are untouched. |
| `EntityStore.AddComponentOtherTypes` | src/entity_store.rs:37-70 | `add_component` never changes what any entity reads for another component type. |
| `EntityStore.AddComponentShiftsHigherEntities` | src/entity_store.rs:52 | On a registered type, every higher live entity afterwards reads what its lower neighbour read before. |
| `EntityStore.AddComponentKeepsLowerEntities` | src/entity_store.rs:52 | On a registered type, every lower entity keeps its read. |
| `EntityStore.RemoveComponent` | src/entity_store.rs:72-82 | An unregistered type leaves the store unchanged. Otherwise exactly one cell, the entity's cell in the first column of the type, becomes `None`. The entity then reads `None`, and the invariant is preserved. |
| `EntityStore.RemoveComponentFrame` | src/entity_store.rs:72-82 | `remove_component` changes no other (type, entity) read. |
| `EntityStore.RemoveEntity` | src/entity_store.rs:27-35 | Every column receives `set_none` at the entity, and the count is unchanged. The entity reads `None` for every type, and the invariant is preserved. |
| `EntityStore.RemoveEntityShiftsHigherEntities` | src/entity_store.rs:27-35 | Every higher live entity afterwards reads, for every type, what its lower neighbour read before. |
| `EntityStore.RemoveEntityKeepsLowerEntities` | src/entity_store.rs:27-35 | Every entity below the removed one keeps its reads, whenever every column reaches the removed entity, which `Vec::insert` inside `set_none` demands. |
| `EntityStore.SetComponent` | src/entity_store.rs:37-70 | Corrected `add_component`, which overwrites the cell in place. Read-after-write gives the component. It preserves both the invariant and the one-cell-per-entity invariant `Exact`. |
| `EntityStore.SetComponentFrame` | src/entity_store.rs:37-70 | The overwrite changes no other (type, entity) read. |
| `EntityStore.ClearEntity` | src/entity_store.rs:113-115 | Corrected `remove_entity`, in which `set_none` clears in place. The entity reads `None` for every type, no column changes length, and both invariants are preserved. |
| `EntityStore.ClearEntityFrame` | src/entity_store.rs:27-35 | Clearing one entity changes no other entity's reads. |
| `EntityStore.AddEntityFreshUnderExact` | src/entity_store.rs:18-25 | With one cell per entity, a freshly added entity reads `None` for every type, and the store stays exact. |
| `StoreFindings.InsertMovesComponentToNeighbour` | src/entity_store.rs:47-55 | Writes 10 to entity 0, 20 to entity 1, then 30 to entity 0. Entity 1 then reads 10, and an entity added afterwards reads the 20. |
| `StoreFindings.OverwriteKeepsNeighbour` | src/entity_store.rs:47-55 | The same writes with the overwrite: entity 0 reads 30, entity 1 reads 20, and a new entity reads nothing. |
| `StoreFindings.TwoWritesAsWritten` | src/entity_store.rs:47-69 | With the code as written, `add_component` of 10 to entity 0 and then 20 to entity 1 builds the column `[10, 20, None]` over two entities. |
| `StoreFindings.RemoveEntityMovesComponentToNeighbour` | src/entity_store.rs:113-115 | Using the as-written operations only: after those two writes, entity 0 reads 10 and entity 1 reads 20. `remove_entity(0)` then leaves entity 0 reading nothing and entity 1 reading 10. |
| `StoreFindings.ClearEntityKeepsNeighbour` | src/entity_store.rs:113-115 | After writing 10 to entity 0 and 20 to entity 1 with the corrected `SetComponent`, clearing entity 0 in place empties its cell and leaves entity 1 with its own 20. |
| `Data.DefaultHealth` | src/data.rs:55-58 | The default `Health` record holds 0 hit points. |
| `Data.DefaultAbilityScore` | src/data.rs:69-76 | The default ability score has base, effective score and modifier all 0. |
| `Data.New` | src/data.rs:24-26 | A new data sheet has no records. |
| `Data.With` | src/data.rs:28-31 | `with` appends exactly one record at the end and keeps the earlier ones. |
| `Data.BuildKeepsOrder` | src/data.rs:28-31 | A chain of `with` calls holds exactly the records given, in the order given. |
| `Data.Query` | src/data.rs:33-37 | `query::<T>` yields only records of type `T`, no more of them than the sheet holds. It yields nothing exactly when the sheet has no `T`. |
| `Data.QueryIsOrderedFilter` | src/data.rs:33-37 | The k-th result of `query::<T>` is the record at the k-th position holding a `T`. Those positions are strictly increasing and are exactly the positions of the `T` records. |
| `Data.QueryWith` | src/data.rs:28-37 | After `with(d)`, `query::<T>` yields the old results followed by `d` when `d` is a `T`. |
| `Data.QueryMut` | src/data.rs:39-43 | Writing one function `f` through every reference `query_mut::<T>` yields replaces each `T` record by `f` of it, changes no other record, and keeps the sheet's length. |
| `Data.AssignInOrderPlaces` | src/data.rs:39-43 | Assigning the k-th value to the k-th record of the kind puts it at the k-th matching position. |
| `Data.AssignInOrderKeepsOthers` | src/data.rs:39-43 | Assigning through the references of one kind changes no record of another kind. |
| `Data.QueryMutAssign` | src/data.rs:39-43 | Assigning `ws` through the references `query_mut::<T>` yields, in `query::<T>`'s order: the k-th value lands at the k-th matching position, every item of another type stays, the length is kept, and `query::<T>` afterwards reads back exactly `ws`. |
| `Data.QueryMutAssignKeepsOtherKinds` | src/data.rs:39-43 | Assigning through `query_mut::<T>` leaves every other type querying back unchanged. |
| `Data.QueryMutIsAssignOfMap` | src/data.rs:39-43 | Writing `f` through every reference is the same as assigning `f` of the k-th queried record through the k-th reference. |
| `Data.QueryMutKeepsPositions` | src/data.rs:39-43 | After `query_mut` the records of every type sit at the positions they sat at before. |
| `Data.QueryMutWritesQueried` | src/data.rs:39-43 | After `query_mut::<T>`, `query::<T>` yields the written values of exactly what it yielded before. |
| `Data.QueryMutKeepsOtherKinds` | src/data.rs:39-43 | After `query_mut::<T>`, every other type queries back unchanged. |
| `Effects.New` | src/effects.rs:11-15 | A new effect list is empty. |
| `Effects.With` | src/effects.rs:17-20 | `with` appends exactly one effect at the end and keeps the earlier ones. |
| `Effects.BuildKeepsOrder` | src/effects.rs:17-20 | A chain of `with` calls holds exactly the effects given, in the order given. |
| `Effects.StageOrderVisitsEachStageOnce` | src/effects.rs:36-41 | Every stage occurs in `StageOrder`, none occurs twice, and `Healing` is last. |
| `Effects.Ready` | src/effects.rs:79-81 | `FastHealing::ready` holds exactly at the final stage of `StageOrder`, which is `Healing`. |
| `Effects.ReadyAtOneStageOfPass` | src/effects.rs:79-81 | Over the four stages of a pass, an effect is ready at exactly one index of `StageOrder`, the last one. |
| `Effects.HealKeepsKind` | src/effects.rs:84-87 | The write `x.0 += n` through a `&mut Health` leaves a `Health` record. |
| `Effects.Update` | src/effects.rs:83-88 | `FastHealing::update` fails (panics) exactly when some `Health` record plus the amount leaves `i32`. Otherwise it raises every `Health` record by the amount and leaves every other record as it was. |
| `Effects.ApplyStage` | src/effects.rs:55-59 | A stage at which no effect is ready leaves the sheet unchanged. |
| `Effects.Run` | src/effects.rs:53-61 | The `while` loop over `StageOrder` computes the staged pass, and that pass equals applying the updates of the schedule, one by one. |
| `Effects.RunFollowsSchedule` | src/effects.rs:53-61 | Running the stages one after the other equals applying the schedule's (stage, effect) updates in order. |
| `Effects.ScheduleIsOrderedReadyPairs` | src/effects.rs:53-61 | The schedule holds a (stage, effect) pair exactly when the effect is ready at that stage. Pairs are ordered by stage, then by list position. |
| `Effects.FastHealingScheduledOnce` | src/effects.rs:79-81 | Every `FastHealing` updates exactly once per pass, in the `Healing` stage, in list order. |
| `Effects.RunStagesNoneReady` | src/effects.rs:54-59 | Stages at which no effect is ready leave the sheet as it was. |
| `Effects.HealingStageAddsTotal` | src/effects.rs:55-59 | The `Healing` stage succeeds exactly when every `Health` record's running totals fit in `i32`. It then raises each `Health` record by the sum of the amounts and leaves other records as they were. |
| `Effects.RunAddsTotalHealing` | src/effects.rs:51-63 | A whole pass for one entity raises every `Health` record by the sum of its `FastHealing` amounts. It fails exactly when some running total leaves `i32`. |

## Left out

- `EffectSystem::run` joins the data-sheet and effect storages of the
  `specs` ECS library over all entities. Only the per-entity body is
  modelled. The entities are independent of each other, and the join is
  library code.
- `Effects.Update`: models a debug build, where overflow panics. A release
  build wraps `x.0 += n` modulo 2^32 instead, and that is not modelled.
- `EntityStore.AddEntity`: the `usize` entity counter is unbounded here.
  Overflowing it needs 2^64 entities.
- `as_any` and `as_any_mut` (the `Any` plumbing in both `src/entity_store.rs`
  and `src/data.rs`) are replaced by tags and kinds. Rust's guarantee that a
  column's values have the column's type is not modelled: all columns share
  one value type `V`.
- `Effect::reset` is an empty default method, and nothing calls it.
- Mutation is modelled as returning a new value. Rust's borrows and
  `Box`es have no counterpart.
- The `Component` storage declarations are left out. They only register
  types with the ECS library.
- `src/game.rs`, `src/rule.rs`, `src/dice.rs`, `src/main.rs`,
  `src/document.rs` and `src/data_character.rs` are not part of this model:
  they wire the game loop, rules, dice, console output and character
  content around the core.
- The action layer that `src/game.rs` calls is not modelled. This covers
  `Action` (line 1), `get_future_component` (lines 57 and 71), `commit`
  (line 62) and `set_component` (lines 26 and 74). `src/entity_store.rs`
  defines none of these, so there is no code to model. `SetComponent` is
  this model's in-place write; it is not a model of `set_component`, which
  as called at line 26 would also have to create entity 0.

## Findings

| source | as written | input that shows it | evidently intended | confidence | as-written member | corrected member |
|---|---|---|---|---|---|---|
| src/entity_store.rs:52 | `add_component` on a registered type calls `Vec::insert(entity, Some(c))`. This grows the column and shifts every later entity's component up by one. | Two entities. Write 10 to entity 0, 20 to entity 1, then 30 to entity 0. Entity 1 then reads 10, and a third entity added afterwards reads 20. | `component_vec[entity] = Some(c)`: overwrite the entity's cell in place. | high; not executed | `StoreFindings.InsertMovesComponentToNeighbour` | `EntityStore.SetComponent` |
| src/entity_store.rs:113-115 | `set_none` calls `Vec::insert(entity, None)`, so `remove_entity` grows every column and shifts every later entity's components up by one. | Two entities. `add_component` writes 10 to entity 0, then 20 to entity 1. After `remove_entity(0)`, entity 1 reads 10. | `self[entity] = None`: clear the cell in place. | high; not executed | `StoreFindings.RemoveEntityMovesComponentToNeighbour` | `EntityStore.ClearEntity` |
