/** Model of the type-erased entity/component store of src/entity_store.rs.

    The store keeps a count of created entities and an ordered list of
    columns, one `Vec<Option<T>>` per component type `T`. Rust finds a
    column by downcasting each boxed column to `Vec<Option<T>>` in turn; here
    every column carries the `TypeTag` of its component type and a downcast
    is "the first column whose tag equals the requested one". The component
    values themselves are a type parameter `V`. */
module EntityStore {

  import opened Optional

  /** Entities are dense indices (a Rust `usize`). */
  type EntityId = nat

  /** Stands for the Rust component type a column holds. */
  datatype TypeTag = TypeTag(name: string)

  /** One `Vec<Option<T>>`: cell `e` holds entity `e`'s component, if any. */
  datatype Column<V> = Column(tag: TypeTag, cells: seq<Option<V>>)

  datatype Store<V> = Store(entitiesCount: nat, columns: seq<Column<V>>)

  // ---------------------------------------------------------------------
  // Vec primitives

  /** `Vec::insert(i, x)`: `x` lands at index `i` and every entry from `i`
      on moves up by one; it panics unless `i <= len`. */
  function Insert<T>(s: seq<T>, i: nat, x: T): (r: seq<T>)
    requires i <= |s|
    ensures |r| == |s| + 1
    ensures forall j :: 0 <= j < i ==> r[j] == s[j]
    ensures r[i] == x
    ensures forall j :: i < j <= |s| ==> r[j] == s[j - 1]
  {
    s[..i] + [x] + s[i..]
  }

  /** `ComponentVec::push_none`: one `None` at the end, nothing else moves. */
  function PushNone<V>(cells: seq<Option<V>>): (r: seq<Option<V>>)
    ensures |r| == |cells| + 1
    ensures r[..|cells|] == cells
    ensures r[|cells|] == None
  {
    cells + [None]
  }

  /** `ComponentVec::set_none`, which calls `Vec::insert`: a `None` is
      inserted at `entity` and later cells shift up instead of `entity`'s
      cell being cleared in place. */
  function SetNone<V>(cells: seq<Option<V>>, entity: EntityId): (r: seq<Option<V>>)
    requires entity <= |cells|
    ensures |r| == |cells| + 1
    ensures r[entity] == None
    ensures forall j :: 0 <= j < entity ==> r[j] == cells[j]
    ensures forall j :: entity <= j < |cells| ==> r[j + 1] == cells[j]
  {
    Insert(cells, entity, None)
  }

  // ---------------------------------------------------------------------
  // Column lookup and invariants

  /** The downcast loop: index of the first column tagged `tag`. */
  function FindColumn<V>(columns: seq<Column<V>>, tag: TypeTag): (r: Option<nat>)
    ensures r.Some? ==> r.value < |columns| && columns[r.value].tag == tag
    ensures r.Some? ==> forall j :: 0 <= j < r.value ==> columns[j].tag != tag
    ensures r.None? <==> forall j :: 0 <= j < |columns| ==> columns[j].tag != tag
    decreases |columns|
  {
    if |columns| == 0 then None
    else if columns[0].tag == tag then Some(0)
    else
      match FindColumn(columns[1..], tag)
      case None => None
      case Some(i) => Some(i + 1)
  }

  /** A column whose tag no earlier column has is the one found. */
  lemma FindColumnIsFirst<V>(columns: seq<Column<V>>, tag: TypeTag, i: nat)
    requires i < |columns| && columns[i].tag == tag
    requires forall j :: 0 <= j < i ==> columns[j].tag != tag
    ensures FindColumn(columns, tag) == Some(i)
  {
  }

  /** Lookup depends only on the sequence of tags. */
  lemma FindColumnSameTags<V>(a: seq<Column<V>>, b: seq<Column<V>>, tag: TypeTag)
    requires |a| == |b|
    requires forall i :: 0 <= i < |a| ==> a[i].tag == b[i].tag
    ensures FindColumn(a, tag) == FindColumn(b, tag)
  {
    match FindColumn(a, tag)
    case None =>
    case Some(i) => FindColumnIsFirst(b, tag, i);
  }

  lemma FindColumnSameTagsAll<V>(a: seq<Column<V>>, b: seq<Column<V>>)
    requires |a| == |b|
    requires forall i :: 0 <= i < |a| ==> a[i].tag == b[i].tag
    ensures forall tag :: FindColumn(a, tag) == FindColumn(b, tag)
  {
    forall tag ensures FindColumn(a, tag) == FindColumn(b, tag) {
      FindColumnSameTags(a, b, tag);
    }
  }

  /** Appending a column does not change where other tags are found. */
  lemma FindColumnAppended<V>(columns: seq<Column<V>>, col: Column<V>, tag: TypeTag)
    requires tag != col.tag
    ensures FindColumn(columns + [col], tag) == FindColumn(columns, tag)
  {
    match FindColumn(columns, tag)
    case None =>
    case Some(k) => FindColumnIsFirst(columns + [col], tag, k);
  }

  lemma FindColumnAppendedAll<V>(columns: seq<Column<V>>, col: Column<V>)
    ensures forall tag :: tag != col.tag ==> FindColumn(columns + [col], tag) == FindColumn(columns, tag)
  {
    forall tag | tag != col.tag ensures FindColumn(columns + [col], tag) == FindColumn(columns, tag) {
      FindColumnAppended(columns, col, tag);
    }
  }

  /** At most one column per component type. */
  predicate UniqueTags<V>(columns: seq<Column<V>>) {
    forall i, j :: 0 <= i < j < |columns| ==> columns[i].tag != columns[j].tag
  }

  /** Every column has a cell for every created entity. */
  predicate CoversCount<V>(s: Store<V>) {
    forall i :: 0 <= i < |s.columns| ==> s.entitiesCount <= |s.columns[i].cells|
  }

  /** The invariant every operation of the store preserves. */
  predicate Valid<V>(s: Store<V>) {
    UniqueTags(s.columns) && CoversCount(s)
  }

  /** The column for `tag`, if there is one, has at least `n` cells: the
      bound under which indexing (`n = entity + 1`) or `Vec::insert`
      (`n = entity`) does not panic. */
  predicate ColumnHasAtLeast<V>(s: Store<V>, tag: TypeTag, n: nat) {
    match FindColumn(s.columns, tag)
    case None => true
    case Some(i) => n <= |s.columns[i].cells|
  }

  /** In a valid store every live entity can be read and written. */
  lemma ValidColumnsInBounds<V>(s: Store<V>, tag: TypeTag, entity: EntityId)
    requires Valid(s) && entity < s.entitiesCount
    ensures ColumnHasAtLeast(s, tag, entity + 1)
  {
  }

  // ---------------------------------------------------------------------
  // Operations, as written

  /** `EntityStore::new`. */
  function New<V>(): (s: Store<V>)
    ensures s.entitiesCount == 0 && |s.columns| == 0
    ensures Valid(s)
  {
    Store(0, [])
  }

  function PushNoneAll<V>(columns: seq<Column<V>>): (r: seq<Column<V>>)
    ensures |r| == |columns|
    ensures forall i :: 0 <= i < |columns| ==>
      r[i].tag == columns[i].tag && r[i].cells == PushNone(columns[i].cells)
  {
    seq(|columns|, i requires 0 <= i < |columns| => Column(columns[i].tag, PushNone(columns[i].cells)))
  }

  /** `EntityStore::add_entity`: returns the old count as the new id, raises
      the count by one and appends one `None` to every column. */
  function AddEntity<V>(s: Store<V>): (r: (Store<V>, EntityId))
    ensures r.1 == s.entitiesCount
    ensures r.0.entitiesCount == s.entitiesCount + 1
    ensures |r.0.columns| == |s.columns|
    ensures forall i :: 0 <= i < |s.columns| ==>
      && r.0.columns[i].tag == s.columns[i].tag
      && |r.0.columns[i].cells| == |s.columns[i].cells| + 1
      && r.0.columns[i].cells[..|s.columns[i].cells|] == s.columns[i].cells
      && r.0.columns[i].cells[|s.columns[i].cells|] == None
    ensures Valid(s) ==> Valid(r.0)
  {
    (Store(s.entitiesCount + 1, PushNoneAll(s.columns)), s.entitiesCount)
  }

  /** `EntityStore::get_component`. */
  function GetComponent<V>(s: Store<V>, tag: TypeTag, entity: EntityId): (r: Option<V>)
    requires entity < s.entitiesCount ==> ColumnHasAtLeast(s, tag, entity + 1)
    ensures entity >= s.entitiesCount ==> r == None
    ensures (forall i :: 0 <= i < |s.columns| ==> s.columns[i].tag != tag) ==> r == None
    ensures r.Some? ==> exists i :: 0 <= i < |s.columns| && s.columns[i].tag == tag && entity < |s.columns[i].cells| && s.columns[i].cells[entity] == r
    ensures Valid(s) && entity < s.entitiesCount ==>
      forall i :: 0 <= i < |s.columns| && s.columns[i].tag == tag ==> r == s.columns[i].cells[entity]
  {
    if entity >= s.entitiesCount then None
    else
      match FindColumn(s.columns, tag)
      case None => None
      case Some(i) => s.columns[i].cells[entity]
  }

  function NewColumnCells<V>(count: nat, entity: EntityId, component: V): (r: seq<Option<V>>)
    ensures |r| == count
    ensures forall j :: 0 <= j < count ==> r[j] == if j == entity then Some(component) else None
  {
    seq(count, j requires 0 <= j < count => if j == entity then Some(component) else None)
  }

  /** `Vec::insert` of `Some(component)` into column `i` at `entity`. */
  function InsertIntoColumn<V>(s: Store<V>, i: nat, entity: EntityId, component: V): (r: Store<V>)
    requires i < |s.columns| && entity <= |s.columns[i].cells|
    ensures r.entitiesCount == s.entitiesCount
    ensures |r.columns| == |s.columns|
    ensures forall k :: 0 <= k < |s.columns| && k != i ==> r.columns[k] == s.columns[k]
    ensures r.columns[i].tag == s.columns[i].tag
    ensures r.columns[i].cells == Insert(s.columns[i].cells, entity, Some(component))
    ensures forall tag :: FindColumn(r.columns, tag) == FindColumn(s.columns, tag)
    ensures CoversCount(s) ==> CoversCount(r)
    ensures UniqueTags(s.columns) ==> UniqueTags(r.columns)
  {
    var r := s.(columns := s.columns[i := Column(s.columns[i].tag, Insert(s.columns[i].cells, entity, Some(component)))]);
    FindColumnSameTagsAll(s.columns, r.columns);
    r
  }

  /** A fresh column for `tag`, appended after the existing ones. */
  function AppendColumn<V>(s: Store<V>, entity: EntityId, tag: TypeTag, component: V): (r: Store<V>)
    requires FindColumn(s.columns, tag).None?
    ensures r.entitiesCount == s.entitiesCount
    ensures |r.columns| == |s.columns| + 1
    ensures r.columns[..|s.columns|] == s.columns
    ensures r.columns[|s.columns|] == Column(tag, NewColumnCells(s.entitiesCount, entity, component))
    ensures FindColumn(r.columns, tag) == Some(|s.columns|)
    ensures forall t :: t != tag ==> FindColumn(r.columns, t) == FindColumn(s.columns, t)
    ensures CoversCount(s) ==> CoversCount(r)
    ensures UniqueTags(s.columns) ==> UniqueTags(r.columns)
  {
    var r := s.(columns := s.columns + [Column(tag, NewColumnCells(s.entitiesCount, entity, component))]);
    FindColumnIsFirst(r.columns, tag, |s.columns|);
    FindColumnAppendedAll(s.columns, r.columns[|s.columns|]);
    r
  }

  /** `EntityStore::add_component`. Out-of-range entities are ignored. A
      registered type's column gets the component by `Vec::insert` at
      `entity`, so later cells of that column move up by one; an
      unregistered type gets a new column, appended last, holding the
      component at `entity` and `None` elsewhere. */
  function AddComponent<V>(s: Store<V>, entity: EntityId, tag: TypeTag, component: V): (r: Store<V>)
    requires entity < s.entitiesCount ==> ColumnHasAtLeast(s, tag, entity)
    ensures r.entitiesCount == s.entitiesCount
    ensures entity >= s.entitiesCount ==> r == s
    ensures entity < s.entitiesCount ==> ColumnHasAtLeast(r, tag, entity + 1)
    ensures entity < s.entitiesCount ==> GetComponent(r, tag, entity) == Some(component)
    ensures Valid(s) ==> Valid(r)
  {
    if entity >= s.entitiesCount then s
    else
      match FindColumn(s.columns, tag)
      case Some(i) => InsertIntoColumn(s, i, entity, component)
      case None => AppendColumn(s, entity, tag, component)
  }

  /** An unregistered type gets exactly one new column, appended last, as
      long as the entity count, with the component at `entity` and `None`
      everywhere else; existing columns are untouched. */
  lemma AddComponentNewColumn<V>(s: Store<V>, entity: EntityId, tag: TypeTag, component: V)
    requires entity < s.entitiesCount && FindColumn(s.columns, tag).None?
    ensures var r := AddComponent(s, entity, tag, component);
      && |r.columns| == |s.columns| + 1
      && r.columns[..|s.columns|] == s.columns
      && r.columns[|s.columns|].tag == tag
      && |r.columns[|s.columns|].cells| == s.entitiesCount
      && r.columns[|s.columns|].cells[entity] == Some(component)
      && forall j :: 0 <= j < s.entitiesCount && j != entity ==> r.columns[|s.columns|].cells[j] == None
  {
  }

  /** A registered type's column grows by one: cells below `entity` stay,
      the component lands at `entity`, and the old cells from `entity` on
      move up by one. Every other column is untouched. */
  lemma AddComponentExistingColumn<V>(s: Store<V>, entity: EntityId, tag: TypeTag, component: V)
    requires entity < s.entitiesCount && FindColumn(s.columns, tag).Some?
    requires ColumnHasAtLeast(s, tag, entity)
    ensures var r := AddComponent(s, entity, tag, component);
      var i := FindColumn(s.columns, tag).value;
      var cells := s.columns[i].cells;
      && |r.columns| == |s.columns|
      && (forall k :: 0 <= k < |s.columns| && k != i ==> r.columns[k] == s.columns[k])
      && r.columns[i].tag == tag
      && |r.columns[i].cells| == |cells| + 1
      && r.columns[i].cells[..entity] == cells[..entity]
      && r.columns[i].cells[entity] == Some(component)
      && (forall j :: entity <= j < |cells| ==> r.columns[i].cells[j + 1] == cells[j])
  {
    var i := FindColumn(s.columns, tag).value;
    var cells := s.columns[i].cells;
    var r := AddComponent(s, entity, tag, component);
    assert r.columns[i].cells == Insert(cells, entity, Some(component));
  }

  /** `EntityStore::remove_component`: the first column of type `tag` gets
      `None` at `entity`, in place; without such a column nothing happens.
      There is no check against the entity count, only the index bound. */
  function RemoveComponent<V>(s: Store<V>, entity: EntityId, tag: TypeTag): (r: Store<V>)
    requires ColumnHasAtLeast(s, tag, entity + 1)
    ensures r.entitiesCount == s.entitiesCount
    ensures FindColumn(s.columns, tag).None? ==> r == s
    ensures FindColumn(s.columns, tag).Some? ==>
      var i := FindColumn(s.columns, tag).value;
      && |r.columns| == |s.columns|
      && (forall k :: 0 <= k < |s.columns| && k != i ==> r.columns[k] == s.columns[k])
      && r.columns[i].tag == tag
      && |r.columns[i].cells| == |s.columns[i].cells|
      && r.columns[i].cells[entity] == None
      && (forall j :: 0 <= j < |s.columns[i].cells| && j != entity ==> r.columns[i].cells[j] == s.columns[i].cells[j])
    ensures ColumnHasAtLeast(r, tag, entity + 1)
    ensures GetComponent(r, tag, entity) == None
    ensures Valid(s) ==> Valid(r)
  {
    match FindColumn(s.columns, tag)
    case None => s
    case Some(i) => ClearInColumn(s, i, entity)
  }

  /** `None` written over cell `entity` of column `i`. */
  function ClearInColumn<V>(s: Store<V>, i: nat, entity: EntityId): (r: Store<V>)
    requires i < |s.columns| && entity < |s.columns[i].cells|
    ensures r.entitiesCount == s.entitiesCount
    ensures |r.columns| == |s.columns|
    ensures forall k :: 0 <= k < |s.columns| && k != i ==> r.columns[k] == s.columns[k]
    ensures r.columns[i].tag == s.columns[i].tag
    ensures r.columns[i].cells == s.columns[i].cells[entity := None]
    ensures forall tag :: FindColumn(r.columns, tag) == FindColumn(s.columns, tag)
    ensures CoversCount(s) ==> CoversCount(r)
    ensures UniqueTags(s.columns) ==> UniqueTags(r.columns)
  {
    var r := s.(columns := s.columns[i := Column(s.columns[i].tag, s.columns[i].cells[entity := None])]);
    FindColumnSameTagsAll(s.columns, r.columns);
    r
  }

  function SetNoneAll<V>(columns: seq<Column<V>>, entity: EntityId): (r: seq<Column<V>>)
    requires forall i :: 0 <= i < |columns| ==> entity <= |columns[i].cells|
    ensures |r| == |columns|
    ensures forall i :: 0 <= i < |columns| ==>
      r[i].tag == columns[i].tag && r[i].cells == SetNone(columns[i].cells, entity)
  {
    seq(|columns|, i requires 0 <= i < |columns| => Column(columns[i].tag, SetNone(columns[i].cells, entity)))
  }

  /** `EntityStore::remove_entity`: `set_none` on every column, with no
      bounds check and no change to the count. Because `set_none` inserts,
      every column grows by one and entities above `entity` shift up. */
  function RemoveEntity<V>(s: Store<V>, entity: EntityId): (r: Store<V>)
    requires forall i :: 0 <= i < |s.columns| ==> entity <= |s.columns[i].cells|
    ensures r.entitiesCount == s.entitiesCount
    ensures |r.columns| == |s.columns|
    ensures forall i :: 0 <= i < |s.columns| ==>
      && r.columns[i].tag == s.columns[i].tag
      && |r.columns[i].cells| == |s.columns[i].cells| + 1
      && r.columns[i].cells[entity] == None
      && (forall j :: 0 <= j < entity ==> r.columns[i].cells[j] == s.columns[i].cells[j])
      && (forall j :: entity <= j < |s.columns[i].cells| ==> r.columns[i].cells[j + 1] == s.columns[i].cells[j])
    ensures forall tag :: GetComponent(r, tag, entity) == None
    ensures Valid(s) ==> Valid(r)
  {
    var r := Store(s.entitiesCount, SetNoneAll(s.columns, entity));
    FindColumnSameTagsAll(s.columns, r.columns);
    r
  }

  // ---------------------------------------------------------------------
  // What the operations as written do to the other cells

  /** Adding an entity leaves every existing entity's reads as they were. */
  lemma AddEntityKeepsReads<V>(s: Store<V>, tag: TypeTag, entity: EntityId)
    requires Valid(s) && entity < s.entitiesCount
    ensures ColumnHasAtLeast(AddEntity(s).0, tag, entity + 1)
    ensures GetComponent(AddEntity(s).0, tag, entity) == GetComponent(s, tag, entity)
  {
    var r := AddEntity(s).0;
    FindColumnSameTagsAll(s.columns, r.columns);
    match FindColumn(s.columns, tag)
    case None =>
    case Some(i) =>
      assert r.columns[i].cells[..|s.columns[i].cells|][entity] == s.columns[i].cells[entity];
  }

  /** `add_component` never disturbs another component type. */
  lemma AddComponentOtherTypes<V>(s: Store<V>, entity: EntityId, tag: TypeTag, component: V, t: TypeTag, e: EntityId)
    requires Valid(s) && t != tag && e < s.entitiesCount
    ensures Valid(AddComponent(s, entity, tag, component))
    ensures GetComponent(AddComponent(s, entity, tag, component), t, e) == GetComponent(s, t, e)
  {
    var r := AddComponent(s, entity, tag, component);
    ValidColumnsInBounds(r, t, e);
    if entity < s.entitiesCount {
      match FindColumn(s.columns, tag)
      case Some(i) =>
      case None =>
        FindColumnAppended(s.columns, r.columns[|s.columns|], t);
        assert r.columns == s.columns + [r.columns[|s.columns|]];
    }
  }

  /** On a registered type, `add_component` keeps the cells of lower
      entities and hands every higher live entity the component its lower
      neighbour held before: the `Vec::insert` shift. */
  lemma AddComponentShiftsHigherEntities<V>(s: Store<V>, entity: EntityId, tag: TypeTag, component: V, e: EntityId)
    requires Valid(s) && FindColumn(s.columns, tag).Some?
    requires entity < e < s.entitiesCount
    ensures GetComponent(AddComponent(s, entity, tag, component), tag, e) == GetComponent(s, tag, e - 1)
  {
    var i := FindColumn(s.columns, tag).value;
    AddComponentExistingColumn(s, entity, tag, component);
  }

  lemma AddComponentKeepsLowerEntities<V>(s: Store<V>, entity: EntityId, tag: TypeTag, component: V, e: EntityId)
    requires Valid(s) && e < entity < s.entitiesCount
    ensures GetComponent(AddComponent(s, entity, tag, component), tag, e) == GetComponent(s, tag, e)
  {
    var r := AddComponent(s, entity, tag, component);
    match FindColumn(s.columns, tag)
    case Some(i) =>
      AddComponentExistingColumn(s, entity, tag, component);
      assert r.columns[i].cells[..entity][e] == s.columns[i].cells[..entity][e];
    case None =>
  }

  /** `remove_component` clears one cell and no other. */
  lemma RemoveComponentFrame<V>(s: Store<V>, entity: EntityId, tag: TypeTag, t: TypeTag, e: EntityId)
    requires Valid(s) && ColumnHasAtLeast(s, tag, entity + 1)
    requires e < s.entitiesCount && (t != tag || e != entity)
    ensures Valid(RemoveComponent(s, entity, tag))
    ensures GetComponent(RemoveComponent(s, entity, tag), t, e) == GetComponent(s, t, e)
  {
    var r := RemoveComponent(s, entity, tag);
    ValidColumnsInBounds(r, t, e);
    FindColumnSameTagsAll(s.columns, r.columns);
  }

  /** `remove_entity` hands every higher live entity the components its
      lower neighbour held, for every type, and leaves lower entities be. */
  lemma RemoveEntityShiftsHigherEntities<V>(s: Store<V>, entity: EntityId, tag: TypeTag, e: EntityId)
    requires Valid(s) && entity < e < s.entitiesCount
    ensures GetComponent(RemoveEntity(s, entity), tag, e) == GetComponent(s, tag, e - 1)
  {
    var r := RemoveEntity(s, entity);
    FindColumnSameTagsAll(s.columns, r.columns);
  }

  lemma RemoveEntityKeepsLowerEntities<V>(s: Store<V>, entity: EntityId, tag: TypeTag, e: EntityId)
    requires Valid(s) && e < entity && e < s.entitiesCount
    requires forall i :: 0 <= i < |s.columns| ==> entity <= |s.columns[i].cells|
    ensures GetComponent(RemoveEntity(s, entity), tag, e) == GetComponent(s, tag, e)
  {
    var r := RemoveEntity(s, entity);
    FindColumnSameTagsAll(s.columns, r.columns);
  }

  // ---------------------------------------------------------------------
  // Overwriting in place, as the names `add_component` and `set_none`
  // promise

  /** Every column has exactly one cell per created entity. */
  predicate Exact<V>(s: Store<V>) {
    UniqueTags(s.columns) && forall i :: 0 <= i < |s.columns| ==> |s.columns[i].cells| == s.entitiesCount
  }

  /** `Some(component)` written over cell `entity` of column `i`. */
  function OverwriteInColumn<V>(s: Store<V>, i: nat, entity: EntityId, component: V): (r: Store<V>)
    requires i < |s.columns| && entity < |s.columns[i].cells|
    ensures r.entitiesCount == s.entitiesCount
    ensures |r.columns| == |s.columns|
    ensures forall k :: 0 <= k < |s.columns| && k != i ==> r.columns[k] == s.columns[k]
    ensures r.columns[i].tag == s.columns[i].tag
    ensures r.columns[i].cells == s.columns[i].cells[entity := Some(component)]
    ensures forall tag :: FindColumn(r.columns, tag) == FindColumn(s.columns, tag)
    ensures CoversCount(s) ==> CoversCount(r)
    ensures UniqueTags(s.columns) ==> UniqueTags(r.columns)
    ensures Exact(s) ==> Exact(r)
  {
    var r := s.(columns := s.columns[i := Column(s.columns[i].tag, s.columns[i].cells[entity := Some(component)])]);
    FindColumnSameTagsAll(s.columns, r.columns);
    r
  }

  /** `add_component` with the registered column overwritten at `entity`
      instead of grown by `Vec::insert`. */
  function SetComponent<V>(s: Store<V>, entity: EntityId, tag: TypeTag, component: V): (r: Store<V>)
    requires entity < s.entitiesCount ==> ColumnHasAtLeast(s, tag, entity + 1)
    ensures r.entitiesCount == s.entitiesCount
    ensures entity >= s.entitiesCount ==> r == s
    ensures entity < s.entitiesCount ==> ColumnHasAtLeast(r, tag, entity + 1)
    ensures entity < s.entitiesCount ==> GetComponent(r, tag, entity) == Some(component)
    ensures Valid(s) ==> Valid(r)
    ensures Exact(s) ==> Exact(r)
  {
    if entity >= s.entitiesCount then s
    else
      match FindColumn(s.columns, tag)
      case Some(i) => OverwriteInColumn(s, i, entity, component)
      case None => AppendColumn(s, entity, tag, component)
  }

  /** Overwriting changes the one cell written and nothing else. */
  lemma SetComponentFrame<V>(s: Store<V>, entity: EntityId, tag: TypeTag, component: V, t: TypeTag, e: EntityId)
    requires Valid(s) && e < s.entitiesCount && (t != tag || e != entity)
    ensures Valid(SetComponent(s, entity, tag, component))
    ensures GetComponent(SetComponent(s, entity, tag, component), t, e) == GetComponent(s, t, e)
  {
    var r := SetComponent(s, entity, tag, component);
    ValidColumnsInBounds(r, t, e);
    if entity < s.entitiesCount {
      match FindColumn(s.columns, tag)
      case Some(i) =>
        OverwriteKeepsOtherCells(s, i, entity, component, t, e);
      case None =>
        if t != tag {
          FindColumnAppended(s.columns, r.columns[|s.columns|], t);
          assert r.columns == s.columns + [r.columns[|s.columns|]];
        }
    }
  }

  lemma OverwriteKeepsOtherCells<V>(s: Store<V>, i: nat, entity: EntityId, component: V, t: TypeTag, e: EntityId)
    requires Valid(s) && i < |s.columns| && entity < s.entitiesCount && e < s.entitiesCount
    requires t != s.columns[i].tag || e != entity
    ensures GetComponent(OverwriteInColumn(s, i, entity, component), t, e) == GetComponent(s, t, e)
  {
    var r := OverwriteInColumn(s, i, entity, component);
    match FindColumn(s.columns, t)
    case None =>
    case Some(k) =>
      if k == i {
        assert r.columns[i].cells[e] == s.columns[i].cells[e];
      }
  }

  function ClearAll<V>(columns: seq<Column<V>>, entity: EntityId): (r: seq<Column<V>>)
    requires forall i :: 0 <= i < |columns| ==> entity < |columns[i].cells|
    ensures |r| == |columns|
    ensures forall i :: 0 <= i < |columns| ==>
      r[i].tag == columns[i].tag && r[i].cells == columns[i].cells[entity := None]
  {
    seq(|columns|, i requires 0 <= i < |columns| => Column(columns[i].tag, columns[i].cells[entity := None]))
  }

  /** `remove_entity` with `set_none` assigning `None` in place: every
      type's cell for `entity` is cleared and no column grows. */
  function ClearEntity<V>(s: Store<V>, entity: EntityId): (r: Store<V>)
    requires forall i :: 0 <= i < |s.columns| ==> entity < |s.columns[i].cells|
    ensures r.entitiesCount == s.entitiesCount
    ensures |r.columns| == |s.columns|
    ensures forall i :: 0 <= i < |s.columns| ==> |r.columns[i].cells| == |s.columns[i].cells|
    ensures forall tag :: GetComponent(r, tag, entity) == None
    ensures Valid(s) ==> Valid(r)
    ensures Exact(s) ==> Exact(r)
  {
    var r := Store(s.entitiesCount, ClearAll(s.columns, entity));
    FindColumnSameTagsAll(s.columns, r.columns);
    r
  }

  /** Clearing one entity changes no other entity's reads. */
  lemma ClearEntityFrame<V>(s: Store<V>, entity: EntityId, t: TypeTag, e: EntityId)
    requires Valid(s) && entity < s.entitiesCount
    requires e < s.entitiesCount && e != entity
    ensures Valid(ClearEntity(s, entity))
    ensures GetComponent(ClearEntity(s, entity), t, e) == GetComponent(s, t, e)
  {
    var r := ClearEntity(s, entity);
    FindColumnSameTagsAll(s.columns, r.columns);
  }

  /** With one cell per entity, a freshly added entity reads `None` for
      every type, and the store stays exact. */
  lemma AddEntityFreshUnderExact<V>(s: Store<V>, tag: TypeTag)
    requires Exact(s)
    ensures Exact(AddEntity(s).0)
    ensures GetComponent(AddEntity(s).0, tag, s.entitiesCount) == None
  {
    var r := AddEntity(s).0;
    FindColumnSameTagsAll(s.columns, r.columns);
  }
}
