/** Concrete stores on which `Vec::insert` in `add_component` and in
    `set_none` moves one entity's component onto another entity, next to
    the same steps with the in-place overwrite. */
module StoreFindings {

  import opened Optional
  import opened EntityStore

  const Pos := TypeTag("Pos")

  /** Two entities and no components. */
  function TwoEntities(): (s: Store<int>)
    ensures s.entitiesCount == 2 && |s.columns| == 0
  {
    AddEntity(AddEntity(New<int>()).0).0
  }

  /** Giving entity 0 the first `Pos` makes a two-cell column, either way. */
  lemma FirstComponent(s0: Store<int>, x: int)
    requires s0 == TwoEntities()
    ensures AddComponent(s0, 0, Pos, x).columns == [Column(Pos, [Some(x), None])]
    ensures SetComponent(s0, 0, Pos, x).columns == [Column(Pos, [Some(x), None])]
  {
    var s1 := AddComponent(s0, 0, Pos, x);
    AddComponentNewColumn(s0, 0, Pos, x);
    assert |s1.columns| == 1;
    var cells := s1.columns[0].cells;
    assert cells[0] == Some(x) && cells[1] == None;
    assert cells == [Some(x), None];
  }

  /** One step on a store whose only column is `Pos`, for each operation. */
  lemma OnlyPosColumn(s: Store<int>, cells: seq<Option<int>>, entity: EntityId, x: int)
    requires s.columns == [Column(Pos, cells)] && entity < s.entitiesCount && entity < |cells|
    ensures AddComponent(s, entity, Pos, x).columns == [Column(Pos, Insert(cells, entity, Some(x)))]
    ensures SetComponent(s, entity, Pos, x).columns == [Column(Pos, cells[entity := Some(x)])]
    ensures RemoveEntity(s, entity).columns == [Column(Pos, Insert(cells, entity, None))]
    ensures ClearEntity(s, entity).columns == [Column(Pos, cells[entity := None])]
    ensures AddEntity(s).0.columns == [Column(Pos, cells + [None])]
    ensures GetComponent(s, Pos, entity) == cells[entity]
  {
    FindColumnIsFirst(s.columns, Pos, 0);
  }

  /** Entity 0 gets 10, entity 1 gets 20, then entity 0 gets 30: as written,
      the last write pushes 10 onto entity 1, and a third entity added
      afterwards reads the 20 nobody gave it. */
  lemma InsertMovesComponentToNeighbour()
    ensures var s := AddComponent(AddComponent(AddComponent(TwoEntities(), 0, Pos, 10), 1, Pos, 20), 0, Pos, 30);
      && GetComponent(s, Pos, 0) == Some(30)
      && GetComponent(s, Pos, 1) == Some(10)
      && GetComponent(AddEntity(s).0, Pos, 2) == Some(20)
  {
    var s0 := TwoEntities();
    var s1 := AddComponent(s0, 0, Pos, 10);
    FirstComponent(s0, 10);
    var c1 := s1.columns[0].cells;
    OnlyPosColumn(s1, c1, 1, 20);
    var s2 := AddComponent(s1, 1, Pos, 20);
    var c2 := Insert(c1, 1, Some(20));
    OnlyPosColumn(s2, c2, 0, 30);
    var s3 := AddComponent(s2, 0, Pos, 30);
    var c3 := Insert(c2, 0, Some(30));
    assert c3[1] == Some(10) && c3[2] == Some(20);
    OnlyPosColumn(s3, c3, 1, 0);
    var s4 := AddEntity(s3).0;
    OnlyPosColumn(s4, c3 + [None], 2, 0);
  }

  /** The same writes with the overwrite: every entity reads its own last
      write and the new entity reads nothing. */
  lemma OverwriteKeepsNeighbour()
    ensures var s := SetComponent(SetComponent(SetComponent(TwoEntities(), 0, Pos, 10), 1, Pos, 20), 0, Pos, 30);
      && GetComponent(s, Pos, 0) == Some(30)
      && GetComponent(s, Pos, 1) == Some(20)
      && GetComponent(AddEntity(s).0, Pos, 2) == None
  {
    var s0 := TwoEntities();
    var s1 := SetComponent(s0, 0, Pos, 10);
    FirstComponent(s0, 10);
    var c1 := s1.columns[0].cells;
    OnlyPosColumn(s1, c1, 1, 20);
    var s2 := SetComponent(s1, 1, Pos, 20);
    var c2 := c1[1 := Some(20)];
    OnlyPosColumn(s2, c2, 0, 30);
    var s3 := SetComponent(s2, 0, Pos, 30);
    var c3 := c2[0 := Some(30)];
    OnlyPosColumn(s3, c3, 1, 0);
    var s4 := AddEntity(s3).0;
    OnlyPosColumn(s4, c3 + [None], 2, 0);
  }

  /** Entity 0 holding 10 and entity 1 holding 20. */
  const TwoPositions: Store<int> := Store(2, [Column(Pos, [Some(10), Some(20)])])

  /** Entity 0 holding 10 next to an empty entity 1. */
  lemma FirstPosition()
    ensures SetComponent(TwoEntities(), 0, Pos, 10) == Store(2, [Column(Pos, [Some(10), None])])
  {
    FirstComponent(TwoEntities(), 10);
  }

  lemma SecondPosition()
    ensures SetComponent(Store(2, [Column(Pos, [Some(10), None])]), 1, Pos, 20) == TwoPositions
  {
    var c1 := [Some(10), None];
    OnlyPosColumn(Store(2, [Column(Pos, c1)]), c1, 1, 20);
    assert c1[1 := Some(20)] == [Some(10), Some(20)];
  }

  /** `TwoPositions` is what two writes to two fresh entities produce. */
  lemma TwoPositionsReached()
    ensures SetComponent(SetComponent(TwoEntities(), 0, Pos, 10), 1, Pos, 20) == TwoPositions
  {
    FirstPosition();
    SecondPosition();
  }

  /** Entity 0 gets 10 and entity 1 gets 20, as written: the second write
      inserts in front of the trailing `None`. */
  lemma TwoWritesAsWritten()
    ensures AddComponent(AddComponent(TwoEntities(), 0, Pos, 10), 1, Pos, 20)
      == Store(2, [Column(Pos, [Some(10), Some(20), None])])
  {
    var s0 := TwoEntities();
    FirstComponent(s0, 10);
    var c1 := [Some(10), None];
    var s1 := AddComponent(s0, 0, Pos, 10);
    assert s1 == Store(2, [Column(Pos, c1)]);
    OnlyPosColumn(s1, c1, 1, 20);
    assert Insert(c1, 1, Some(20)) == [Some(10), Some(20), None];
  }

  /** With the operations as written only: entity 0 holds 10 and entity 1
      holds 20, and removing entity 0 leaves entity 1 reading entity 0's
      10. */
  lemma RemoveEntityMovesComponentToNeighbour()
    ensures var s := AddComponent(AddComponent(TwoEntities(), 0, Pos, 10), 1, Pos, 20);
      && GetComponent(s, Pos, 0) == Some(10)
      && GetComponent(s, Pos, 1) == Some(20)
      && GetComponent(RemoveEntity(s, 0), Pos, 0) == None
      && GetComponent(RemoveEntity(s, 0), Pos, 1) == Some(10)
  {
    TwoWritesAsWritten();
    var c := [Some(10), Some(20), None];
    var s := Store(2, [Column(Pos, c)]);
    OnlyPosColumn(s, c, 0, 0);
    OnlyPosColumn(s, c, 1, 0);
    var c' := Insert(c, 0, None);
    assert c'[1] == Some(10);
    OnlyPosColumn(RemoveEntity(s, 0), c', 1, 0);
  }

  /** With the corrected operations only: entity 0 holds 10 and entity 1
      holds 20, and clearing entity 0 in place leaves entity 1 its own 20. */
  lemma ClearEntityKeepsNeighbour()
    ensures var s := SetComponent(SetComponent(TwoEntities(), 0, Pos, 10), 1, Pos, 20);
      && GetComponent(s, Pos, 0) == Some(10)
      && GetComponent(s, Pos, 1) == Some(20)
      && GetComponent(ClearEntity(s, 0), Pos, 0) == None
      && GetComponent(ClearEntity(s, 0), Pos, 1) == Some(20)
  {
    TwoPositionsReached();
    var s := TwoPositions;
    var c := s.columns[0].cells;
    OnlyPosColumn(s, c, 0, 0);
    OnlyPosColumn(s, c, 1, 0);
    OnlyPosColumn(ClearEntity(s, 0), c[0 := None], 1, 0);
  }
}
