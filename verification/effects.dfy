/** Model of src/effects.rs: per-entity effect lists and the staged pass of
    `EffectSystem::run` that applies them to the entity's data sheet.

    `Effect` is a closed datatype of the effects the source defines. An
    `i32` overflow in an update panics in Rust; here it makes the update,
    and with it the whole pass, come back `None`. */
module Effects {

  import opened Optional
  import opened Int32
  import opened Data

  // ---------------------------------------------------------------------
  // Effect lists

  datatype Effect = FastHealing(amount: i32)

  /** `EffectComponent`: an entity's effects in insertion order. */
  datatype EffectComponent = EffectComponent(effects: seq<Effect>)

  /** `EffectComponent::new`. */
  function New(): (c: EffectComponent)
    ensures |c.effects| == 0
  {
    EffectComponent([])
  }

  /** `EffectComponent::with`: pushes one effect at the end. */
  function With(c: EffectComponent, e: Effect): (r: EffectComponent)
    ensures |r.effects| == |c.effects| + 1
    ensures r.effects[..|c.effects|] == c.effects
    ensures r.effects[|c.effects|] == e
  {
    EffectComponent(c.effects + [e])
  }

  /** A component built as `new().with(es[0]).with(es[1])...`. */
  function Build(es: seq<Effect>): EffectComponent
    decreases |es|
  {
    if |es| == 0 then New()
    else With(Build(es[..|es| - 1]), es[|es| - 1])
  }

  /** A chain of `with` calls keeps the effects in the order given. */
  lemma {:induction false} BuildKeepsOrder(es: seq<Effect>)
    ensures Build(es).effects == es
    decreases |es|
  {
    if |es| > 0 {
      BuildKeepsOrder(es[..|es| - 1]);
      assert es[..|es| - 1] + [es[|es| - 1]] == es;
    }
  }

  // ---------------------------------------------------------------------
  // Stages

  datatype EffectStage = BaseValues | AdditiveModifiers | MultiplicativeModifiers | Healing

  /** `StageOrder`: the order in which one pass visits the stages. */
  const StageOrder: seq<EffectStage> := [BaseValues, AdditiveModifiers, MultiplicativeModifiers, Healing]

  /** Index of the last stage of a pass. */
  const LastStage: nat := |StageOrder| - 1

  /** Every stage is visited, each exactly once, `Healing` last. */
  lemma StageOrderVisitsEachStageOnce(st: EffectStage)
    ensures st in StageOrder
    ensures forall a, b :: 0 <= a < b < |StageOrder| ==> StageOrder[a] != StageOrder[b]
    ensures StageOrder[|StageOrder| - 1] == Healing
  {
  }

  /** `Effect::ready`; `FastHealing` is ready only in the final stage of a
      pass. */
  function Ready(e: Effect, stage: EffectStage): (r: bool)
    ensures r <==> stage == StageOrder[|StageOrder| - 1]
  {
    match e
    case FastHealing(_) => stage == Healing
  }

  /** Over one pass an effect is ready at exactly one index of
      `StageOrder`, the last. */
  lemma ReadyAtOneStageOfPass(e: Effect)
    ensures forall i :: 0 <= i < |StageOrder| ==> (Ready(e, StageOrder[i]) <==> i == |StageOrder| - 1)
  {
    forall i | 0 <= i < |StageOrder|
      ensures Ready(e, StageOrder[i]) <==> i == |StageOrder| - 1
    {
      StageOrderVisitsEachStageOnce(Healing);
    }
  }

  // ---------------------------------------------------------------------
  // One effect's update

  /** Adding `n` to every `Health` record stays within `i32`. */
  predicate CanHeal(s: DataSheet, n: int) {
    forall j :: 0 <= j < |s.data| && s.data[j].Health? ==> InI32(s.data[j].hp as int + n)
  }

  /** `after` is `before` with `n` added if it is a `Health` record, and
      `before` itself otherwise. */
  predicate Raised(before: DataItem, after: DataItem, n: int) {
    if before.Health? then after.Health? && after.hp as int == before.hp as int + n
    else after == before
  }

  /** The write `x.0 += n` through one `&mut Health`. */
  function Heal(n: int): DataItem -> DataItem {
    (d: DataItem) => if d.Health? && InI32(d.hp as int + n) then Health((d.hp as int + n) as i32) else d
  }

  lemma HealKeepsKind(n: int)
    ensures KeepsKind(Heal(n), HealthKind)
  {
  }

  /** `FastHealing::update`: adds the amount to every `Health` record of the
      sheet through `query_mut`; `None` when some sum leaves `i32`. */
  function Update(e: Effect, s: DataSheet): (r: Option<DataSheet>)
    ensures r.None? <==> !CanHeal(s, e.amount as int)
    ensures r.Some? ==> |r.value.data| == |s.data|
    ensures r.Some? ==> forall j :: 0 <= j < |s.data| ==> Raised(s.data[j], r.value.data[j], e.amount as int)
  {
    var n := e.amount as int;
    if CanHeal(s, n) then
      HealKeepsKind(n);
      Some(QueryMut(s, HealthKind, Heal(n)))
    else None
  }

  // ---------------------------------------------------------------------
  // The pass

  /** One stage of `run`: in list order, every effect ready at `stage`
      updates the sheet; a panicking update ends the pass. */
  function ApplyStage(s: DataSheet, es: seq<Effect>, stage: EffectStage): (r: Option<DataSheet>)
    ensures (forall i :: 0 <= i < |es| ==> !Ready(es[i], stage)) ==> r == Some(s)
    decreases |es|
  {
    if |es| == 0 then Some(s)
    else if Ready(es[0], stage) then
      match Update(es[0], s)
      case None => None
      case Some(next) => ApplyStage(next, es[1..], stage)
    else ApplyStage(s, es[1..], stage)
  }

  /** The stages of `stages`, one after the other. */
  function RunStages(s: DataSheet, es: seq<Effect>, stages: seq<EffectStage>): Option<DataSheet>
    decreases |stages|
  {
    if |stages| == 0 then Some(s)
    else
      match RunStages(s, es, stages[..|stages| - 1])
      case None => None
      case Some(mid) => ApplyStage(mid, es, stages[|stages| - 1])
  }

  /** The per-entity body of `EffectSystem::run`: a `while` loop over the
      indices of `StageOrder`, each pass applying the ready effects. */
  method Run(s: DataSheet, c: EffectComponent) returns (r: Option<DataSheet>)
    ensures r == RunStages(s, c.effects, StageOrder)
    ensures r == ApplySteps(s, c.effects, Schedule(c.effects))
  {
    var stage := 0;
    r := Some(s);
    while stage < |StageOrder|
      invariant 0 <= stage <= |StageOrder|
      invariant r == RunStages(s, c.effects, StageOrder[..stage])
    {
      assert StageOrder[..stage + 1][..stage] == StageOrder[..stage];
      if r.Some? {
        r := ApplyStage(r.value, c.effects, StageOrder[stage]);
      }
      stage := stage + 1;
    }
    assert StageOrder[..|StageOrder|] == StageOrder;
    RunFollowsSchedule(s, c.effects);
  }

  // ---------------------------------------------------------------------
  // The schedule: which effect updates in which stage, in which order

  /** Effect `effect` updating during stage `StageOrder[stage]`. */
  datatype Step = Step(stage: nat, effect: nat)

  /** `a` happens before `b`: an earlier stage, or the same stage and an
      earlier effect of the list. */
  predicate Before(a: Step, b: Step) {
    a.stage < b.stage || (a.stage == b.stage && a.effect < b.effect)
  }

  /** The steps of stage `st`, for the effects from index `k` on. */
  function StageSteps(es: seq<Effect>, st: nat, k: nat): (r: seq<Step>)
    requires st < |StageOrder|
    ensures forall m :: 0 <= m < |r| ==> r[m].stage == st && k <= r[m].effect < |es|
    decreases |es| - k
  {
    if k >= |es| then []
    else (if Ready(es[k], StageOrder[st]) then [Step(st, k)] else []) + StageSteps(es, st, k + 1)
  }

  /** A stage's steps are ready effects, in increasing list order. */
  lemma {:induction false} StageStepsOrdered(es: seq<Effect>, st: nat, k: nat)
    requires st < |StageOrder|
    ensures forall m :: 0 <= m < |StageSteps(es, st, k)| ==> Ready(es[StageSteps(es, st, k)[m].effect], StageOrder[st])
    ensures forall a, b :: 0 <= a < b < |StageSteps(es, st, k)| ==> StageSteps(es, st, k)[a].effect < StageSteps(es, st, k)[b].effect
    decreases |es| - k
  {
    if k < |es| {
      StageStepsOrdered(es, st, k + 1);
      var tail := StageSteps(es, st, k + 1);
      var head := if Ready(es[k], StageOrder[st]) then [Step(st, k)] else [];
      var r := StageSteps(es, st, k);
      assert r == head + tail;
      forall m | 0 <= m < |r|
        ensures Ready(es[r[m].effect], StageOrder[st])
      {
        if m >= |head| {
          assert r[m] == tail[m - |head|];
          assert Ready(es[tail[m - |head|].effect], StageOrder[st]);
        } else {
          assert r[m] == Step(st, k);
          assert Ready(es[k], StageOrder[st]);
        }
      }
      forall a, b | 0 <= a < b < |r|
        ensures r[a].effect < r[b].effect
      {
        assert r[b] == tail[b - |head|];
        if a >= |head| {
          assert r[a] == tail[a - |head|];
        }
      }
    }
  }

  /** A stage's steps miss no ready effect. */
  lemma {:induction false} StageStepsComplete(es: seq<Effect>, st: nat, k: nat)
    requires st < |StageOrder|
    ensures forall i :: k <= i < |es| && Ready(es[i], StageOrder[st]) ==> Step(st, i) in StageSteps(es, st, k)
    decreases |es| - k
  {
    if k < |es| {
      StageStepsComplete(es, st, k + 1);
      var tail := StageSteps(es, st, k + 1);
      var r := StageSteps(es, st, k);
      forall i | k <= i < |es| && Ready(es[i], StageOrder[st])
        ensures Step(st, i) in r
      {
        if i == k {
          assert r[0] == Step(st, k);
        } else {
          assert Step(st, i) in tail;
        }
      }
    }
  }

  /** The steps of the first `n` stages. */
  function ScheduleUpTo(es: seq<Effect>, n: nat): (r: seq<Step>)
    requires n <= |StageOrder|
    ensures forall m :: 0 <= m < |r| ==> r[m].stage < n && r[m].effect < |es|
    decreases n
  {
    if n == 0 then [] else ScheduleUpTo(es, n - 1) + StageSteps(es, n - 1, 0)
  }

  /** The steps of the first `n` stages are ready pairs, ordered by stage
      and then by list position. */
  lemma {:induction false} ScheduleUpToOrdered(es: seq<Effect>, n: nat)
    requires n <= |StageOrder|
    ensures forall m :: 0 <= m < |ScheduleUpTo(es, n)| ==>
      Ready(es[ScheduleUpTo(es, n)[m].effect], StageOrder[ScheduleUpTo(es, n)[m].stage])
    ensures forall a, b :: 0 <= a < b < |ScheduleUpTo(es, n)| ==> Before(ScheduleUpTo(es, n)[a], ScheduleUpTo(es, n)[b])
    decreases n
  {
    if n > 0 {
      ScheduleUpToOrdered(es, n - 1);
      StageStepsOrdered(es, n - 1, 0);
      var front := ScheduleUpTo(es, n - 1);
      var last := StageSteps(es, n - 1, 0);
      assert ScheduleUpTo(es, n) == front + last;
      forall a, b | 0 <= a < b < |front + last|
        ensures Before((front + last)[a], (front + last)[b])
      {
        if b < |front| {
        } else if a >= |front| {
          assert last[a - |front|].effect < last[b - |front|].effect;
        } else {
          assert front[a].stage < n - 1;
        }
      }
    }
  }

  /** The steps of the first `n` stages miss no ready pair. */
  lemma {:induction false} ScheduleUpToComplete(es: seq<Effect>, n: nat)
    requires n <= |StageOrder|
    ensures forall st, i :: 0 <= st < n && 0 <= i < |es| && Ready(es[i], StageOrder[st]) ==> Step(st, i) in ScheduleUpTo(es, n)
    decreases n
  {
    if n > 0 {
      ScheduleUpToComplete(es, n - 1);
      StageStepsComplete(es, n - 1, 0);
      assert ScheduleUpTo(es, n) == ScheduleUpTo(es, n - 1) + StageSteps(es, n - 1, 0);
    }
  }

  /** Every update one pass makes, in the order it makes them. */
  function Schedule(es: seq<Effect>): seq<Step> {
    ScheduleUpTo(es, |StageOrder|)
  }

  /** The schedule holds exactly the ready (stage, effect) pairs, strictly
      ordered by stage first and list position second: every update of an
      earlier stage comes before every update of a later one. */
  lemma ScheduleIsOrderedReadyPairs(es: seq<Effect>)
    ensures var sched := Schedule(es);
      && (forall a, b :: 0 <= a < b < |sched| ==> Before(sched[a], sched[b]))
      && (forall st, i :: 0 <= st < |StageOrder| && 0 <= i < |es| ==>
            (Step(st, i) in sched <==> Ready(es[i], StageOrder[st])))
  {
    ScheduleUpToOrdered(es, |StageOrder|);
    ScheduleUpToComplete(es, |StageOrder|);
  }

  /** The updates of `steps`, one after the other. */
  function ApplySteps(s: DataSheet, es: seq<Effect>, steps: seq<Step>): Option<DataSheet>
    requires forall m :: 0 <= m < |steps| ==> steps[m].effect < |es|
    decreases |steps|
  {
    if |steps| == 0 then Some(s)
    else
      match Update(es[steps[0].effect], s)
      case None => None
      case Some(next) => ApplySteps(next, es, steps[1..])
  }

  lemma {:induction false} ApplyStepsAppend(s: DataSheet, es: seq<Effect>, a: seq<Step>, b: seq<Step>)
    requires forall m :: 0 <= m < |a| ==> a[m].effect < |es|
    requires forall m :: 0 <= m < |b| ==> b[m].effect < |es|
    ensures ApplySteps(s, es, a + b) ==
      match ApplySteps(s, es, a)
      case None => None
      case Some(mid) => ApplySteps(mid, es, b)
    decreases |a|
  {
    if |a| > 0 {
      assert (a + b)[0] == a[0];
      assert (a + b)[1..] == a[1..] + b;
      match Update(es[a[0].effect], s)
      case None =>
        assert ApplySteps(s, es, a) == None;
        assert ApplySteps(s, es, a + b) == None;
      case Some(next) =>
        ApplyStepsAppend(next, es, a[1..], b);
        assert ApplySteps(s, es, a) == ApplySteps(next, es, a[1..]);
        assert ApplySteps(s, es, a + b) == ApplySteps(next, es, a[1..] + b);
    } else {
      assert a + b == b;
    }
  }

  /** One stage applies exactly its scheduled steps. */
  lemma {:induction false} StageFollowsSteps(s: DataSheet, es: seq<Effect>, st: nat, k: nat)
    requires st < |StageOrder| && k <= |es|
    ensures ApplyStage(s, es[k..], StageOrder[st]) == ApplySteps(s, es, StageSteps(es, st, k))
    decreases |es| - k
  {
    if k < |es| {
      assert es[k..][0] == es[k];
      assert es[k..][1..] == es[k + 1..];
      if Ready(es[k], StageOrder[st]) {
        match Update(es[k], s)
        case None =>
        case Some(next) => StageFollowsSteps(next, es, st, k + 1);
      } else {
        assert StageSteps(es, st, k) == StageSteps(es, st, k + 1);
        StageFollowsSteps(s, es, st, k + 1);
      }
    }
  }

  /** Running the first `n` stages is running `n - 1` and then stage `n - 1`. */
  lemma RunStagesPrefix(s: DataSheet, es: seq<Effect>, n: nat)
    requires 0 < n <= |StageOrder|
    ensures RunStages(s, es, StageOrder[..n]) ==
      match RunStages(s, es, StageOrder[..n - 1])
      case None => None
      case Some(mid) => ApplyStage(mid, es, StageOrder[n - 1])
  {
    assert StageOrder[..n][..n - 1] == StageOrder[..n - 1];
  }

  lemma {:induction false} RunFollowsScheduleUpTo(s: DataSheet, es: seq<Effect>, n: nat)
    requires n <= |StageOrder|
    ensures RunStages(s, es, StageOrder[..n]) == ApplySteps(s, es, ScheduleUpTo(es, n))
    decreases n
  {
    if n > 0 {
      RunStagesPrefix(s, es, n);
      RunFollowsScheduleUpTo(s, es, n - 1);
      var front := ScheduleUpTo(es, n - 1);
      var last := StageSteps(es, n - 1, 0);
      assert ScheduleUpTo(es, n) == front + last;
      ApplyStepsAppend(s, es, front, last);
      match RunStages(s, es, StageOrder[..n - 1])
      case None =>
      case Some(mid) =>
        assert es[0..] == es;
        StageFollowsSteps(mid, es, n - 1, 0);
    }
  }

  /** The staged pass is the schedule's updates applied in order. */
  lemma RunFollowsSchedule(s: DataSheet, es: seq<Effect>)
    ensures RunStages(s, es, StageOrder) == ApplySteps(s, es, Schedule(es))
  {
    RunFollowsScheduleUpTo(s, es, |StageOrder|);
    assert StageOrder[..|StageOrder|] == StageOrder;
  }

  // ---------------------------------------------------------------------
  // FastHealing over a whole pass

  /** A stage at which no effect is ready schedules nothing. */
  lemma {:induction false} NoStepsWhenNoneReady(es: seq<Effect>, st: nat, k: nat)
    requires st < |StageOrder|
    requires forall i :: k <= i < |es| ==> !Ready(es[i], StageOrder[st])
    ensures StageSteps(es, st, k) == []
    decreases |es| - k
  {
    if k < |es| {
      NoStepsWhenNoneReady(es, st, k + 1);
    }
  }

  /** In the `Healing` stage every effect from `k` on is scheduled, in list
      order. */
  lemma {:induction false} StageStepsOfHealing(es: seq<Effect>, k: nat)
    requires k <= |es|
    ensures |StageSteps(es, LastStage, k)| == |es| - k
    ensures forall m :: 0 <= m < |es| - k ==> StageSteps(es, LastStage, k)[m] == Step(LastStage, k + m)
    decreases |es| - k
  {
    if k < |es| {
      StageStepsOfHealing(es, k + 1);
      assert StageOrder[LastStage] == Healing;
      assert Ready(es[k], StageOrder[LastStage]);
      assert StageSteps(es, LastStage, k) == [Step(LastStage, k)] + StageSteps(es, LastStage, k + 1);
    }
  }

  /** Every `FastHealing` updates exactly once per pass, in the `Healing`
      stage, in list order. */
  lemma FastHealingScheduledOnce(es: seq<Effect>)
    ensures |Schedule(es)| == |es|
    ensures forall m :: 0 <= m < |es| ==> Schedule(es)[m] == Step(LastStage, m)
  {
    NoStepsWhenNoneReady(es, 0, 0);
    NoStepsWhenNoneReady(es, 1, 0);
    NoStepsWhenNoneReady(es, 2, 0);
    StageStepsOfHealing(es, 0);
    assert ScheduleUpTo(es, LastStage) == [];
  }

  /** Stages at which no effect is ready leave the sheet as it was. */
  lemma {:induction false} RunStagesNoneReady(s: DataSheet, es: seq<Effect>, stages: seq<EffectStage>)
    requires forall t, i :: 0 <= t < |stages| && 0 <= i < |es| ==> !Ready(es[i], stages[t])
    ensures RunStages(s, es, stages) == Some(s)
    decreases |stages|
  {
    if |stages| > 0 {
      RunStagesNoneReady(s, es, stages[..|stages| - 1]);
    }
  }

  /** The sum of the effects' amounts. */
  function Total(es: seq<Effect>): int
    decreases |es|
  {
    if |es| == 0 then 0 else es[0].amount as int + Total(es[1..])
  }

  /** Starting from `hp`, every running total of the amounts fits in `i32`. */
  predicate RunningTotalsFit(hp: int, es: seq<Effect>)
    decreases |es|
  {
    |es| == 0 || (InI32(hp + es[0].amount as int) && RunningTotalsFit(hp + es[0].amount as int, es[1..]))
  }

  /** The `Healing` stage runs the first effect's update, then the rest. */
  lemma HealingFirstStep(s: DataSheet, es: seq<Effect>)
    requires |es| > 0
    ensures Update(es[0], s).None? ==> ApplyStage(s, es, Healing) == None
    ensures Update(es[0], s).Some? ==> ApplyStage(s, es, Healing) == ApplyStage(Update(es[0], s).value, es[1..], Healing)
  {
  }

  /** Running totals from a raised record are the later running totals. */
  lemma RunningTotalsAfterStep(before: DataItem, after: DataItem, es: seq<Effect>)
    requires |es| > 0 && before.Health?
    requires Raised(before, after, es[0].amount as int)
    ensures RunningTotalsFit(before.hp as int, es) <==>
      InI32(before.hp as int + es[0].amount as int) && RunningTotalsFit(after.hp as int, es[1..])
  {
  }

  lemma RaisedTwice(a: DataItem, b: DataItem, c: DataItem, m: int, n: int)
    requires Raised(a, b, m) && Raised(b, c, n)
    ensures Raised(a, c, m + n)
  {
  }

  /** The `Healing` stage over `FastHealing` effects succeeds exactly when
      every `Health` record's running totals fit in `i32`; then it raises
      every `Health` record by the sum of the amounts and leaves the other
      records as they were. */
  lemma {:induction false} HealingStageAddsTotal(s: DataSheet, es: seq<Effect>)
    ensures ApplyStage(s, es, Healing).Some? <==>
      forall j :: 0 <= j < |s.data| && s.data[j].Health? ==> RunningTotalsFit(s.data[j].hp as int, es)
    ensures ApplyStage(s, es, Healing).Some? ==>
      var r := ApplyStage(s, es, Healing).value;
      |r.data| == |s.data| && forall j :: 0 <= j < |s.data| ==> Raised(s.data[j], r.data[j], Total(es))
    decreases |es|
  {
    if |es| == 0 {
      return;
    }
    var rest := es[1..];
    var n := es[0].amount as int;
    HealingFirstStep(s, es);
    var u := Update(es[0], s);
    if u.None? {
      var j :| 0 <= j < |s.data| && s.data[j].Health? && !InI32(s.data[j].hp as int + n);
      assert !RunningTotalsFit(s.data[j].hp as int, es);
    } else {
      var next := u.value;
      HealingStageAddsTotal(next, rest);
      forall j | 0 <= j < |s.data| && s.data[j].Health?
        ensures RunningTotalsFit(s.data[j].hp as int, es) <==> RunningTotalsFit(next.data[j].hp as int, rest)
      {
        RunningTotalsAfterStep(s.data[j], next.data[j], es);
      }
      var out := ApplyStage(next, rest, Healing);
      if out.Some? {
        assert Total(es) == n + Total(rest);
        forall j | 0 <= j < |s.data|
          ensures Raised(s.data[j], out.value.data[j], Total(es))
        {
          RaisedTwice(s.data[j], next.data[j], out.value.data[j], n, Total(rest));
        }
      }
    }
  }

  /** One pass over an entity whose effects are all `FastHealing` raises
      every `Health` record by the sum of their amounts, and fails (the
      Rust code panics) exactly when some running total leaves `i32`. */
  lemma RunAddsTotalHealing(s: DataSheet, es: seq<Effect>)
    ensures RunStages(s, es, StageOrder).Some? <==>
      forall j :: 0 <= j < |s.data| && s.data[j].Health? ==> RunningTotalsFit(s.data[j].hp as int, es)
    ensures RunStages(s, es, StageOrder).Some? ==>
      var r := RunStages(s, es, StageOrder).value;
      |r.data| == |s.data| && forall j :: 0 <= j < |s.data| ==> Raised(s.data[j], r.data[j], Total(es))
  {
    assert StageOrder[..3] == [BaseValues, AdditiveModifiers, MultiplicativeModifiers];
    RunStagesNoneReady(s, es, StageOrder[..3]);
    assert StageOrder[..4][..3] == StageOrder[..3];
    assert StageOrder[..4] == StageOrder;
    HealingStageAddsTotal(s, es);
  }
}
