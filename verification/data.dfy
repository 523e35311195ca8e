/** Model of src/data.rs: a character's data sheet, a heterogeneous list of
    stat records queried by their concrete type.

    Rust boxes each record as `dyn Data` and queries by downcasting; here the
    records form a closed datatype and a record's concrete type is its
    `DataKind`. */
module Data {

  import opened Int32

  /** `AbilityScore`: the three numbers every ability carries. */
  datatype AbilityScore = AbilityScore(baseScore: i32, effectiveScore: i32, modifier: i32)

  /** One boxed record of the data sheet. */
  datatype DataItem =
    | Health(hp: i32)
    | Strength(score: AbilityScore)
    | Dexterity(score: AbilityScore)
    | Constitution(score: AbilityScore)
    | Intelligence(score: AbilityScore)
    | Charisma(score: AbilityScore)
    | Wisdom(score: AbilityScore)

  /** The concrete Rust type of a record, the `T` of `query::<T>`. */
  datatype DataKind =
    | HealthKind | StrengthKind | DexterityKind | ConstitutionKind
    | IntelligenceKind | CharismaKind | WisdomKind

  function KindOf(d: DataItem): DataKind {
    match d
    case Health(_) => HealthKind
    case Strength(_) => StrengthKind
    case Dexterity(_) => DexterityKind
    case Constitution(_) => ConstitutionKind
    case Intelligence(_) => IntelligenceKind
    case Charisma(_) => CharismaKind
    case Wisdom(_) => WisdomKind
  }

  /** `Health::default`. */
  function DefaultHealth(): (h: DataItem)
    ensures KindOf(h) == HealthKind && h.hp == 0
  {
    Health(0)
  }

  /** `AbilityScore::default`. */
  function DefaultAbilityScore(): (a: AbilityScore)
    ensures a.baseScore == 0 && a.effectiveScore == 0 && a.modifier == 0
  {
    AbilityScore(0, 0, 0)
  }

  /** `DataSheetComponent`: the records in insertion order. */
  datatype DataSheet = DataSheet(data: seq<DataItem>)

  /** `DataSheetComponent::new`. */
  function New(): (s: DataSheet)
    ensures |s.data| == 0
  {
    DataSheet([])
  }

  /** `DataSheetComponent::with`: pushes one record at the end. */
  function With(s: DataSheet, d: DataItem): (r: DataSheet)
    ensures |r.data| == |s.data| + 1
    ensures r.data[..|s.data|] == s.data
    ensures r.data[|s.data|] == d
  {
    DataSheet(s.data + [d])
  }

  /** A sheet built as `new().with(items[0]).with(items[1])...`. */
  function Build(items: seq<DataItem>): DataSheet
    decreases |items|
  {
    if |items| == 0 then New()
    else With(Build(items[..|items| - 1]), items[|items| - 1])
  }

  /** A chain of `with` calls keeps the records in the order given. */
  lemma {:induction false} BuildKeepsOrder(items: seq<DataItem>)
    ensures Build(items).data == items
    decreases |items|
  {
    if |items| > 0 {
      BuildKeepsOrder(items[..|items| - 1]);
      assert items[..|items| - 1] + [items[|items| - 1]] == items;
    }
  }

  // ---------------------------------------------------------------------
  // query

  /** The `filter_map` of `query`: the records of kind `kind`, in order. */
  function Filter(items: seq<DataItem>, kind: DataKind): (r: seq<DataItem>)
    ensures |r| <= |items|
    ensures forall k :: 0 <= k < |r| ==> KindOf(r[k]) == kind
    decreases |items|
  {
    if |items| == 0 then []
    else
      var last := items[|items| - 1];
      var front := Filter(items[..|items| - 1], kind);
      assert forall j :: 0 <= j < |items| - 1 ==> items[..|items| - 1][j] == items[j];
      front + (if KindOf(last) == kind then [last] else [])
  }

  /** A filter comes back empty exactly when no record has the kind. */
  lemma {:induction false} FilterEmptyIff(items: seq<DataItem>, kind: DataKind)
    ensures Filter(items, kind) == [] <==> forall j :: 0 <= j < |items| ==> KindOf(items[j]) != kind
    decreases |items|
  {
    if |items| > 0 {
      var n := |items| - 1;
      FilterEmptyIff(items[..n], kind);
      assert forall j :: 0 <= j < n ==> items[..n][j] == items[j];
    }
  }

  /** `DataSheetComponent::query::<T>`. */
  function Query(s: DataSheet, kind: DataKind): (r: seq<DataItem>)
    ensures |r| <= |s.data|
    ensures forall k :: 0 <= k < |r| ==> KindOf(r[k]) == kind
    ensures r == [] <==> forall j :: 0 <= j < |s.data| ==> KindOf(s.data[j]) != kind
  {
    FilterEmptyIff(s.data, kind);
    Filter(s.data, kind)
  }

  /** The positions of the records of kind `kind`, in order. */
  function Positions(items: seq<DataItem>, kind: DataKind): (r: seq<nat>)
    ensures forall k :: 0 <= k < |r| ==> r[k] < |items| && KindOf(items[r[k]]) == kind
    decreases |items|
  {
    if |items| == 0 then []
    else
      var n := |items| - 1;
      var front := Positions(items[..n], kind);
      assert forall j :: 0 <= j < n ==> items[..n][j] == items[j];
      front + (if KindOf(items[n]) == kind then [n] else [])
  }

  /** Filtering and positions split off the last record the same way. */
  lemma FilterPositionsLast(items: seq<DataItem>, kind: DataKind)
    requires |items| > 0
    ensures var n := |items| - 1;
      && Filter(items, kind) == Filter(items[..n], kind) + (if KindOf(items[n]) == kind then [items[n]] else [])
      && Positions(items, kind) == Positions(items[..n], kind) + (if KindOf(items[n]) == kind then [n] else [])
  {
  }

  lemma {:induction false} FilterAtPositions(items: seq<DataItem>, kind: DataKind)
    ensures |Filter(items, kind)| == |Positions(items, kind)|
    ensures forall k :: 0 <= k < |Positions(items, kind)| ==>
      Filter(items, kind)[k] == items[Positions(items, kind)[k]]
    decreases |items|
  {
    if |items| > 0 {
      var n := |items| - 1;
      var front := items[..n];
      FilterAtPositions(front, kind);
      FilterPositionsLast(items, kind);
      var pf := Positions(front, kind);
      var ff := Filter(front, kind);
      forall k | 0 <= k < |pf|
        ensures Filter(items, kind)[k] == items[Positions(items, kind)[k]]
      {
        assert Filter(items, kind)[k] == ff[k];
        assert Positions(items, kind)[k] == pf[k];
        assert front[pf[k]] == items[pf[k]];
      }
    }
  }

  /** Positions increase strictly. */
  lemma {:induction false} PositionsIncrease(items: seq<DataItem>, kind: DataKind)
    ensures var idx := Positions(items, kind);
      forall a, b :: 0 <= a < b < |idx| ==> idx[a] < idx[b]
    decreases |items|
  {
    if |items| > 0 {
      var n := |items| - 1;
      var front := Positions(items[..n], kind);
      PositionsIncrease(items[..n], kind);
      FilterPositionsLast(items, kind);
      var idx := Positions(items, kind);
      forall a, b | 0 <= a < b < |idx|
        ensures idx[a] < idx[b]
      {
        if b < |front| {
          assert idx[a] == front[a] && idx[b] == front[b];
        } else {
          assert idx[a] == front[a] < n;
          assert idx[b] == n;
        }
      }
    }
  }

  /** Positions miss no record of the kind. */
  lemma {:induction false} PositionsComplete(items: seq<DataItem>, kind: DataKind)
    ensures forall j :: 0 <= j < |items| && KindOf(items[j]) == kind ==> j in Positions(items, kind)
    decreases |items|
  {
    if |items| > 0 {
      var n := |items| - 1;
      PositionsComplete(items[..n], kind);
      FilterPositionsLast(items, kind);
      forall j | 0 <= j < |items| && KindOf(items[j]) == kind
        ensures j in Positions(items, kind)
      {
        if j < n {
          assert items[..n][j] == items[j];
        }
      }
    }
  }

  /** `query` is an order-preserving filter: its k-th result is the record
      at the k-th matching position, and the matching positions are exactly
      the records of the requested kind, in increasing order. */
  lemma QueryIsOrderedFilter(s: DataSheet, kind: DataKind)
    ensures var idx := Positions(s.data, kind);
      && |Query(s, kind)| == |idx|
      && (forall k :: 0 <= k < |idx| ==> idx[k] < |s.data| && Query(s, kind)[k] == s.data[idx[k]])
      && (forall a, b :: 0 <= a < b < |idx| ==> idx[a] < idx[b])
      && (forall j :: 0 <= j < |s.data| ==> (KindOf(s.data[j]) == kind <==> j in idx))
  {
    FilterAtPositions(s.data, kind);
    PositionsIncrease(s.data, kind);
    PositionsComplete(s.data, kind);
  }

  /** `with` extends a query by the new record exactly when it has the
      queried kind, and leaves the earlier results in place. */
  lemma QueryWith(s: DataSheet, d: DataItem, kind: DataKind)
    ensures Query(With(s, d), kind) == Query(s, kind) + (if KindOf(d) == kind then [d] else [])
  {
    assert With(s, d).data[..|s.data|] == s.data;
  }

  // ---------------------------------------------------------------------
  // query_mut

  /** A write through `&mut T` cannot change a record's concrete type. */
  ghost predicate KeepsKind(f: DataItem -> DataItem, kind: DataKind) {
    forall d {:trigger f(d)} :: KindOf(d) == kind ==> KindOf(f(d)) == kind
  }

  /** `f` applied through every reference `query_mut` hands out. */
  function WriteThrough(items: seq<DataItem>, kind: DataKind, f: DataItem -> DataItem): (r: seq<DataItem>)
    requires KeepsKind(f, kind)
    ensures |r| == |items|
    ensures forall j :: 0 <= j < |items| ==> KindOf(r[j]) == KindOf(items[j])
    ensures forall j :: 0 <= j < |items| && KindOf(items[j]) == kind ==> r[j] == f(items[j])
    ensures forall j :: 0 <= j < |items| && KindOf(items[j]) != kind ==> r[j] == items[j]
    decreases |items|
  {
    if |items| == 0 then []
    else
      var n := |items| - 1;
      var front := WriteThrough(items[..n], kind, f);
      assert forall j :: 0 <= j < n ==> items[..n][j] == items[j];
      front + [if KindOf(items[n]) == kind then f(items[n]) else items[n]]
  }

  /** `DataSheetComponent::query_mut::<T>` followed by writing `f` through
      every reference it yields. */
  function QueryMut(s: DataSheet, kind: DataKind, f: DataItem -> DataItem): (r: DataSheet)
    requires KeepsKind(f, kind)
    ensures |r.data| == |s.data|
    ensures forall j :: 0 <= j < |s.data| && KindOf(s.data[j]) == kind ==> r.data[j] == f(s.data[j])
    ensures forall j :: 0 <= j < |s.data| && KindOf(s.data[j]) != kind ==> r.data[j] == s.data[j]
  {
    DataSheet(WriteThrough(s.data, kind, f))
  }

  function MapItems(f: DataItem -> DataItem, items: seq<DataItem>): (r: seq<DataItem>)
    ensures |r| == |items|
    ensures forall k :: 0 <= k < |items| ==> r[k] == f(items[k])
  {
    seq(|items|, k requires 0 <= k < |items| => f(items[k]))
  }

  /** Positions depend only on the kinds of the records. */
  lemma {:induction false} PositionsByKinds(a: seq<DataItem>, b: seq<DataItem>, kind: DataKind)
    requires |a| == |b|
    requires forall j :: 0 <= j < |a| ==> KindOf(a[j]) == KindOf(b[j])
    ensures Positions(a, kind) == Positions(b, kind)
    decreases |a|
  {
    if |a| > 0 {
      var n := |a| - 1;
      PositionsByKinds(a[..n], b[..n], kind);
      FilterPositionsLast(a, kind);
      FilterPositionsLast(b, kind);
    }
  }

  /** After `query_mut` the records of every kind sit where they sat. */
  lemma QueryMutKeepsPositions(s: DataSheet, kind: DataKind, f: DataItem -> DataItem, other: DataKind)
    requires KeepsKind(f, kind)
    ensures Positions(QueryMut(s, kind, f).data, other) == Positions(s.data, other)
  {
    PositionsByKinds(QueryMut(s, kind, f).data, s.data, other);
  }

  /** `query_mut` reaches the same records as `query`: afterwards the
      queried kind reads back as `f` of what it read before. */
  lemma QueryMutWritesQueried(s: DataSheet, kind: DataKind, f: DataItem -> DataItem)
    requires KeepsKind(f, kind)
    ensures Query(QueryMut(s, kind, f), kind) == MapItems(f, Query(s, kind))
  {
    var w := QueryMut(s, kind, f).data;
    PositionsByKinds(w, s.data, kind);
    FilterAtPositions(w, kind);
    FilterAtPositions(s.data, kind);
  }

  /** `query_mut` leaves every other kind reading back unchanged. */
  lemma QueryMutKeepsOtherKinds(s: DataSheet, kind: DataKind, f: DataItem -> DataItem, other: DataKind)
    requires KeepsKind(f, kind) && other != kind
    ensures Query(QueryMut(s, kind, f), other) == Query(s, other)
  {
    var w := QueryMut(s, kind, f).data;
    PositionsByKinds(w, s.data, other);
    FilterAtPositions(w, other);
    FilterAtPositions(s.data, other);
  }

  // ---------------------------------------------------------------------
  // query_mut, reference by reference

  /** `items` with the k-th record of kind `kind` replaced by `ws[k]`. */
  function AssignInOrder(items: seq<DataItem>, kind: DataKind, ws: seq<DataItem>): (r: seq<DataItem>)
    requires |ws| == |Positions(items, kind)|
    ensures |r| == |items|
    decreases |items|
  {
    if |items| == 0 then []
    else
      var n := |items| - 1;
      FilterPositionsLast(items, kind);
      if KindOf(items[n]) == kind then AssignInOrder(items[..n], kind, ws[..|ws| - 1]) + [ws[|ws| - 1]]
      else AssignInOrder(items[..n], kind, ws) + [items[n]]
  }

  /** The k-th matching position receives `ws[k]`. */
  lemma {:induction false} AssignInOrderPlaces(items: seq<DataItem>, kind: DataKind, ws: seq<DataItem>)
    requires |ws| == |Positions(items, kind)|
    ensures forall k :: 0 <= k < |ws| ==> AssignInOrder(items, kind, ws)[Positions(items, kind)[k]] == ws[k]
    decreases |items|
  {
    if |items| > 0 {
      var n := |items| - 1;
      FilterPositionsLast(items, kind);
      if KindOf(items[n]) == kind {
        AssignInOrderPlaces(items[..n], kind, ws[..|ws| - 1]);
        PlacesStepMatching(items, kind, ws);
      } else {
        AssignInOrderPlaces(items[..n], kind, ws);
        PlacesStepOther(items, kind, ws);
      }
    }
  }

  /** The inductive step of `AssignInOrderPlaces` when the last record has
      the kind: it takes the last value. */
  lemma PlacesStepMatching(items: seq<DataItem>, kind: DataKind, ws: seq<DataItem>)
    requires |items| > 0 && KindOf(items[|items| - 1]) == kind
    requires |ws| == |Positions(items, kind)|
    requires |ws| - 1 == |Positions(items[..|items| - 1], kind)|
    requires var n := |items| - 1; var wf := ws[..|ws| - 1];
      forall k :: 0 <= k < |wf| ==> AssignInOrder(items[..n], kind, wf)[Positions(items[..n], kind)[k]] == wf[k]
    ensures forall k :: 0 <= k < |ws| ==> AssignInOrder(items, kind, ws)[Positions(items, kind)[k]] == ws[k]
  {
    var n := |items| - 1;
    FilterPositionsLast(items, kind);
    var idx := Positions(items, kind);
    var front := Positions(items[..n], kind);
    var wf := ws[..|ws| - 1];
    var rf := AssignInOrder(items[..n], kind, wf);
    var r := AssignInOrder(items, kind, ws);
    assert r == rf + [ws[|ws| - 1]];
    forall k | 0 <= k < |ws|
      ensures r[idx[k]] == ws[k]
    {
      if k < |front| {
        assert idx[k] == front[k];
        assert rf[front[k]] == wf[k];
      }
    }
  }

  /** The inductive step of `AssignInOrderPlaces` when the last record has
      another kind: it is kept. */
  lemma PlacesStepOther(items: seq<DataItem>, kind: DataKind, ws: seq<DataItem>)
    requires |items| > 0 && KindOf(items[|items| - 1]) != kind
    requires |ws| == |Positions(items, kind)|
    requires |ws| == |Positions(items[..|items| - 1], kind)|
    requires var n := |items| - 1;
      forall k :: 0 <= k < |ws| ==> AssignInOrder(items[..n], kind, ws)[Positions(items[..n], kind)[k]] == ws[k]
    ensures forall k :: 0 <= k < |ws| ==> AssignInOrder(items, kind, ws)[Positions(items, kind)[k]] == ws[k]
  {
    var n := |items| - 1;
    FilterPositionsLast(items, kind);
    var idx := Positions(items, kind);
    var front := Positions(items[..n], kind);
    var rf := AssignInOrder(items[..n], kind, ws);
    var r := AssignInOrder(items, kind, ws);
    assert r == rf + [items[n]];
    forall k | 0 <= k < |ws|
      ensures r[idx[k]] == ws[k]
    {
      assert idx[k] == front[k];
      assert rf[front[k]] == ws[k];
    }
  }

  /** Every record of another kind stays where it is. */
  lemma {:induction false} AssignInOrderKeepsOthers(items: seq<DataItem>, kind: DataKind, ws: seq<DataItem>)
    requires |ws| == |Positions(items, kind)|
    ensures forall j :: 0 <= j < |items| && KindOf(items[j]) != kind ==> AssignInOrder(items, kind, ws)[j] == items[j]
    decreases |items|
  {
    if |items| > 0 {
      var n := |items| - 1;
      FilterPositionsLast(items, kind);
      var r := AssignInOrder(items, kind, ws);
      var wf := if KindOf(items[n]) == kind then ws[..|ws| - 1] else ws;
      AssignInOrderKeepsOthers(items[..n], kind, wf);
      var rf := AssignInOrder(items[..n], kind, wf);
      assert r == rf + [if KindOf(items[n]) == kind then ws[|ws| - 1] else items[n]];
      forall j | 0 <= j < n && KindOf(items[j]) != kind
        ensures r[j] == items[j]
      {
        assert items[..n][j] == items[j];
      }
    }
  }

  /** `query_mut::<T>` with `ws[k]` assigned through the k-th reference it
      yields. A `&mut T` can only hold a `T`, so every `ws[k]` has the
      queried kind. The references follow `query::<T>`'s order: `ws[k]`
      lands at the position of the k-th record `query` reports, every
      record of another kind stays, and `query::<T>` afterwards reads back
      exactly `ws`. */
  function QueryMutAssign(s: DataSheet, kind: DataKind, ws: seq<DataItem>): (r: DataSheet)
    requires |ws| == |Query(s, kind)|
    requires forall k :: 0 <= k < |ws| ==> KindOf(ws[k]) == kind
    ensures |r.data| == |s.data|
    ensures |Positions(s.data, kind)| == |ws|
    ensures forall k :: 0 <= k < |ws| ==> r.data[Positions(s.data, kind)[k]] == ws[k]
    ensures forall j :: 0 <= j < |s.data| && KindOf(s.data[j]) != kind ==> r.data[j] == s.data[j]
    ensures Query(r, kind) == ws
  {
    FilterAtPositions(s.data, kind);
    var w := AssignInOrder(s.data, kind, ws);
    AssignInOrderPlaces(s.data, kind, ws);
    AssignInOrderKeepsOthers(s.data, kind, ws);
    AssignInOrderKeepsKinds(s.data, kind, ws);
    PositionsByKinds(w, s.data, kind);
    FilterAtPositions(w, kind);
    DataSheet(w)
  }

  /** Assigning values of the queried kind keeps every record's kind. */
  lemma AssignInOrderKeepsKinds(items: seq<DataItem>, kind: DataKind, ws: seq<DataItem>)
    requires |ws| == |Positions(items, kind)|
    requires forall k :: 0 <= k < |ws| ==> KindOf(ws[k]) == kind
    ensures forall j :: 0 <= j < |items| ==> KindOf(AssignInOrder(items, kind, ws)[j]) == KindOf(items[j])
  {
    AssignInOrderPlaces(items, kind, ws);
    AssignInOrderKeepsOthers(items, kind, ws);
    PositionsComplete(items, kind);
    var idx := Positions(items, kind);
    forall j | 0 <= j < |items| && KindOf(items[j]) == kind
      ensures KindOf(AssignInOrder(items, kind, ws)[j]) == kind
    {
      var k :| 0 <= k < |idx| && idx[k] == j;
    }
  }

  /** Assigning through `query_mut::<T>` leaves every other kind reading
      back unchanged. */
  lemma QueryMutAssignKeepsOtherKinds(s: DataSheet, kind: DataKind, ws: seq<DataItem>, other: DataKind)
    requires |ws| == |Query(s, kind)|
    requires forall k :: 0 <= k < |ws| ==> KindOf(ws[k]) == kind
    requires other != kind
    ensures Query(QueryMutAssign(s, kind, ws), other) == Query(s, other)
  {
    FilterAtPositions(s.data, kind);
    var w := QueryMutAssign(s, kind, ws).data;
    AssignInOrderKeepsOthers(s.data, kind, ws);
    AssignInOrderKeepsKinds(s.data, kind, ws);
    PositionsByKinds(w, s.data, other);
    FilterAtPositions(w, other);
    FilterAtPositions(s.data, other);
  }

  /** Writing `f` through every reference is the case `ws[k] = f(query[k])`. */
  lemma QueryMutIsAssignOfMap(s: DataSheet, kind: DataKind, f: DataItem -> DataItem)
    requires KeepsKind(f, kind)
    ensures |MapItems(f, Query(s, kind))| == |Query(s, kind)|
    ensures forall k :: 0 <= k < |Query(s, kind)| ==> KindOf(MapItems(f, Query(s, kind))[k]) == kind
    ensures QueryMut(s, kind, f) == QueryMutAssign(s, kind, MapItems(f, Query(s, kind)))
  {
    var q := Query(s, kind);
    var ws := MapItems(f, q);
    FilterAtPositions(s.data, kind);
    AssignInOrderPlaces(s.data, kind, ws);
    AssignInOrderKeepsOthers(s.data, kind, ws);
    PositionsComplete(s.data, kind);
    var idx := Positions(s.data, kind);
    var a := QueryMut(s, kind, f).data;
    var b := QueryMutAssign(s, kind, ws).data;
    forall j | 0 <= j < |s.data|
      ensures a[j] == b[j]
    {
      if KindOf(s.data[j]) == kind {
        var k :| 0 <= k < |idx| && idx[k] == j;
        assert b[j] == ws[k] == f(q[k]);
      }
    }
    assert a == b;
  }
}
