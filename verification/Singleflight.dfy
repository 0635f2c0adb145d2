/**
 * Merging concurrent calls for one key (src/core/singleflight.rs), as a machine that takes one
 * atomic step of one caller at a time: join a cell through the shared map, begin the work of an
 * empty cell, finish it, read a finished cell, remove the key and return.
 *
 * A caller that has returned may call again. Callers are not cancelled.
 */
module Singleflight {
  type Key(==,!new)
  type Value(==,!new)
  type Error(==,!new)

  datatype Result = Ok(value: Value) | Err(error: Error)

  /** A write-once cell of the shared map. `begun` counts how often its work was begun. */
  datatype Cell = Cell(key: Key, content: Content, begun: nat)
  datatype Content = Empty | Running | Ready(result: Result)

  /** Where a caller is: outside, holding a cell, working for it, or holding its result. */
  datatype Phase = Idle | Joined(cell: nat) | Working(cell: nat) | Done(cell: nat, result: Result)

  datatype Return = Return(caller: nat, cell: nat, result: Result)

  datatype State = State(inflight: map<Key, nat>, cells: seq<Cell>, callers: seq<Phase>, returned: seq<Return>)

  datatype Action =
    | Join(t: nat, key: Key)
    | Begin(t: nat)
    | Finish(t: nat, result: Result)
    | Read(t: nat)
    | Remove(t: nat)

  function Init(callers: nat): State {
    State(map[], [], seq(callers, _ => Idle), [])
  }

  predicate InRange(s: State, a: Action) {
    a.t < |s.callers| && (!s.callers[a.t].Idle? ==> s.callers[a.t].cell < |s.cells|)
  }

  predicate Enabled(s: State, a: Action) {
    && InRange(s, a)
    && var phase := s.callers[a.t];
       match a
       case Join(_, key) => phase.Idle? && (key in s.inflight ==> s.inflight[key] < |s.cells|)
       case Begin(_) => phase.Joined? && s.cells[phase.cell].content.Empty?
       case Finish(_, _) => phase.Working?
       case Read(_) => phase.Joined? && s.cells[phase.cell].content.Ready?
       case Remove(_) => phase.Done?
  }

  function Apply(s: State, a: Action): State
    requires Enabled(s, a)
  {
    var phase := s.callers[a.t];
    match a
    case Join(t, key) =>
      if key in s.inflight then s.(callers := s.callers[t := Joined(s.inflight[key])])
      else
        s.(inflight := s.inflight[key := |s.cells|], cells := s.cells + [Cell(key, Empty, 0)],
           callers := s.callers[t := Joined(|s.cells|)])
    case Begin(t) =>
      var cell := s.cells[phase.cell];
      s.(cells := s.cells[phase.cell := cell.(content := Running, begun := cell.begun + 1)],
         callers := s.callers[t := Working(phase.cell)])
    case Finish(t, result) =>
      s.(cells := s.cells[phase.cell := s.cells[phase.cell].(content := Ready(result))],
         callers := s.callers[t := Done(phase.cell, result)])
    case Read(t) =>
      s.(callers := s.callers[t := Done(phase.cell, s.cells[phase.cell].content.result)])
    case Remove(t) =>
      s.(inflight := s.inflight - {s.cells[phase.cell].key}, callers := s.callers[t := Idle],
         returned := s.returned + [Return(t, phase.cell, phase.result)])
  }

  ghost predicate Legal(s: State, run: seq<Action>)
    decreases |run|
  {
    run != [] ==> Enabled(s, run[0]) && Legal(Apply(s, run[0]), run[1..])
  }

  ghost function After(s: State, run: seq<Action>): State
    requires Legal(s, run)
    decreases |run|
  {
    if run == [] then s else After(Apply(s, run[0]), run[1..])
  }

  lemma Then(s: State, a: Action, rest: seq<Action>)
    requires Enabled(s, a) && Legal(Apply(s, a), rest)
    ensures Legal(s, [a] + rest) && After(s, [a] + rest) == After(Apply(s, a), rest)
  {
    assert ([a] + rest)[1..] == rest;
  }

  // ------------------------------------------------------------------------------- the invariant

  /** The number of times a cell's work was begun is told by its content. */
  ghost predicate CellOk(c: Cell) {
    c.begun == if c.content.Empty? then 0 else 1
  }

  ghost predicate CallerOk(s: State, t: nat)
    requires t < |s.callers|
  {
    match s.callers[t]
    case Idle => true
    case Joined(c) => c < |s.cells|
    case Working(c) => c < |s.cells| && s.cells[c].content.Running?
    case Done(c, r) => c < |s.cells| && s.cells[c].content == Ready(r)
  }

  ghost predicate Holds(s: State, t: nat, c: nat) {
    t < |s.callers| && !s.callers[t].Idle? && s.callers[t].cell == c
  }

  ghost predicate Works(s: State, t: nat, c: nat) {
    t < |s.callers| && s.callers[t] == Working(c)
  }

  ghost predicate ReturnOk(s: State, r: Return) {
    r.cell < |s.cells| && s.cells[r.cell].content == Ready(r.result)
  }

  ghost predicate MappedOk(s: State, key: Key)
    requires key in s.inflight
  {
    var c := s.inflight[key];
    c < |s.cells| && s.cells[c].key == key && exists t :: Holds(s, t, c)
  }

  ghost predicate Inv(s: State) {
    && (forall c :: 0 <= c < |s.cells| ==> CellOk(s.cells[c]))
    && (forall t :: 0 <= t < |s.callers| ==> CallerOk(s, t))
    && (forall c :: 0 <= c < |s.cells| && s.cells[c].content.Running? ==> exists t :: Works(s, t, c))
    && (forall c :: 0 <= c < |s.cells| && s.cells[c].content.Empty? ==> exists t :: Holds(s, t, c))
    && (forall t, u, c :: Works(s, t, c) && Works(s, u, c) ==> t == u)
    && (forall i :: 0 <= i < |s.returned| ==> ReturnOk(s, s.returned[i]))
    && (forall key :: key in s.inflight ==> MappedOk(s, key))
  }

  lemma HoldersStay(s: State, a: Action)
    requires Inv(s) && Enabled(s, a)
    ensures forall t, c :: Holds(s, t, c) && !(a.Remove? && t == a.t) ==> Holds(Apply(s, a), t, c)
  {
  }

  lemma WorkersStay(s: State, a: Action)
    requires Inv(s) && Enabled(s, a)
    ensures forall t, c :: Works(s, t, c) && !(a.Finish? && t == a.t) ==> Works(Apply(s, a), t, c)
    ensures forall t, c :: Works(Apply(s, a), t, c) ==> Works(s, t, c) || (a.Begin? && t == a.t)
  {
  }

  /** Cells keep their keys, and a finished cell its result, for ever. */
  lemma CellsStay(s: State, a: Action)
    requires Inv(s) && Enabled(s, a)
    ensures var s' := Apply(s, a);
            && |s.cells| <= |s'.cells|
            && (forall c :: 0 <= c < |s.cells| ==> s'.cells[c].key == s.cells[c].key)
            && (forall c :: 0 <= c < |s.cells| && s.cells[c].content.Ready? ==> s'.cells[c] == s.cells[c])
            && (forall c :: 0 <= c < |s'.cells| ==> CellOk(s'.cells[c]))
  {
    assert CallerOk(s, a.t);
  }

  lemma CallersStayOk(s: State, a: Action)
    requires Inv(s) && Enabled(s, a)
    ensures forall t :: 0 <= t < |s.callers| ==> CallerOk(Apply(s, a), t)
  {
    forall t | 0 <= t < |s.callers| ensures CallerOk(Apply(s, a), t) {
      assert CallerOk(s, t) && CallerOk(s, a.t);
      if t != a.t && s.callers[t].Working? && a.Finish? {
        assert Works(s, t, s.callers[t].cell) && Works(s, a.t, s.callers[a.t].cell);
      }
    }
  }

  lemma UnfinishedStayAttended(s: State, a: Action)
    requires Inv(s) && Enabled(s, a)
    ensures var s' := Apply(s, a);
            && (forall c :: 0 <= c < |s'.cells| && s'.cells[c].content.Running? ==> exists t :: Works(s', t, c))
            && (forall c :: 0 <= c < |s'.cells| && s'.cells[c].content.Empty? ==> exists t :: Holds(s', t, c))
  {
    var s' := Apply(s, a);
    HoldersStay(s, a);
    WorkersStay(s, a);
    assert CallerOk(s, a.t);
    forall c | 0 <= c < |s'.cells| && s'.cells[c].content.Running? ensures exists t :: Works(s', t, c) {
      if a.Begin? && c == s.callers[a.t].cell {
        assert Works(s', a.t, c);
      } else {
        var t :| Works(s, t, c);
        assert Works(s', t, c);
      }
    }
    forall c | 0 <= c < |s'.cells| && s'.cells[c].content.Empty? ensures exists t :: Holds(s', t, c) {
      if c == |s.cells| {
        assert Holds(s', a.t, c);
      } else {
        var t :| Holds(s, t, c);
        assert Holds(s', t, c);
      }
    }
  }

  lemma MappingsStayOk(s: State, a: Action)
    requires Inv(s) && Enabled(s, a)
    ensures forall key :: key in Apply(s, a).inflight ==> MappedOk(Apply(s, a), key)
  {
    var s' := Apply(s, a);
    HoldersStay(s, a);
    CellsStay(s, a);
    assert CallerOk(s, a.t);
    forall key | key in s'.inflight ensures MappedOk(s', key) {
      if key in s.inflight {
        assert MappedOk(s, key);
        var t :| Holds(s, t, s.inflight[key]);
        assert Holds(s', t, s.inflight[key]);
      } else {
        assert Holds(s', a.t, |s.cells|);
      }
    }
  }

  lemma StepKeepsInv(s: State, a: Action)
    requires Inv(s) && Enabled(s, a)
    ensures Inv(Apply(s, a))
  {
    var s' := Apply(s, a);
    CellsStay(s, a);
    CallersStayOk(s, a);
    UnfinishedStayAttended(s, a);
    MappingsStayOk(s, a);
    forall i | 0 <= i < |s'.returned| ensures ReturnOk(s', s'.returned[i]) {
      if i < |s.returned| {
        assert ReturnOk(s, s.returned[i]);
      } else {
        assert CallerOk(s, a.t);
      }
    }
    forall t, u, c | Works(s', t, c) && Works(s', u, c) ensures t == u {
      OneWorker(s, a, t, u, c);
    }
  }

  lemma OneWorker(s: State, a: Action, t: nat, u: nat, c: nat)
    requires Inv(s) && Enabled(s, a) && Works(Apply(s, a), t, c) && Works(Apply(s, a), u, c)
    ensures t == u
  {
    WorkersStay(s, a);
    assert CallerOk(s, t) && CallerOk(s, u);
  }

  lemma {:induction false} RunKeepsInv(s: State, run: seq<Action>)
    requires Inv(s) && Legal(s, run)
    ensures Inv(After(s, run)) && |After(s, run).callers| == |s.callers|
    decreases |run|
  {
    if run == [] {
    } else {
      StepKeepsInv(s, run[0]);
      RunKeepsInv(Apply(s, run[0]), run[1..]);
    }
  }

  /**
   * In every interleaving: each cell's work is begun at most once, all calls that joined a cell
   * return the one result that was written to it, and when nobody holds a cell of a key the map
   * has no entry for the key.
   */
  lemma EveryRun(n: nat, run: seq<Action>)
    requires Legal(Init(n), run)
    ensures var s := After(Init(n), run);
            && (forall c :: 0 <= c < |s.cells| ==> s.cells[c].begun <= 1)
            && (forall i, j :: 0 <= i < |s.returned| && 0 <= j < |s.returned| && s.returned[i].cell == s.returned[j].cell ==>
                  s.returned[i].result == s.returned[j].result)
            && (forall i :: 0 <= i < |s.returned| ==>
                  var r := s.returned[i];
                  r.cell < |s.cells| && s.cells[r.cell].content == Ready(r.result) && s.cells[r.cell].begun == 1)
            && (forall key :: key in s.inflight ==> exists t :: InFlight(s, t, key))
  {
    RunKeepsInv(Init(n), run);
    var s := After(Init(n), run);
    forall key | key in s.inflight ensures exists t :: InFlight(s, t, key) {
      assert MappedOk(s, key);
      var t :| Holds(s, t, s.inflight[key]);
      assert InFlight(s, t, key);
    }
    forall i | 0 <= i < |s.returned| ensures ReturnOk(s, s.returned[i]) {}
  }

  /** The caller is in a call for the key. */
  ghost predicate InFlight(s: State, t: nat, key: Key) {
    t < |s.callers| && !s.callers[t].Idle? && s.callers[t].cell < |s.cells| && s.cells[s.callers[t].cell].key == key
  }

  // ---------------------------------------------------------------------------------- progress

  /** The most steps the caller has left in its call. */
  function StepsLeft(p: Phase): nat {
    match p
    case Idle => 0
    case Joined(_) => 3
    case Working(_) => 2
    case Done(_, _) => 1
  }

  function AllStepsLeft(callers: seq<Phase>): nat {
    if callers == [] then 0 else StepsLeft(callers[0]) + AllStepsLeft(callers[1..])
  }

  lemma {:induction false} UpdateStepsLeft(callers: seq<Phase>, t: nat, p: Phase)
    requires t < |callers|
    ensures AllStepsLeft(callers[t := p]) == AllStepsLeft(callers) - StepsLeft(callers[t]) + StepsLeft(p)
  {
    if t == 0 {
      assert callers[t := p][1..] == callers[1..];
    } else {
      UpdateStepsLeft(callers[1..], t - 1, p);
      assert callers[t := p][1..] == callers[1..][t - 1 := p];
    }
  }

  /** Whoever waits, waits for a worker that can finish: while a call is open some step other than a join is enabled. */
  lemma NoDeadlock(s: State, t: nat, result: Result)
    requires Inv(s) && t < |s.callers| && !s.callers[t].Idle?
    ensures exists a: Action :: !a.Join? && Enabled(s, a)
  {
    assert CallerOk(s, t);
    match s.callers[t]
    case Joined(c) =>
      if s.cells[c].content.Empty? {
        assert Enabled(s, Begin(t));
      } else if s.cells[c].content.Ready? {
        assert Enabled(s, Read(t));
      } else {
        var u :| Works(s, u, c);
        assert CallerOk(s, u) && Enabled(s, Finish(u, result));
      }
    case Working(c) =>
      assert Enabled(s, Finish(t, result));
    case Done(_, _) =>
      assert Enabled(s, Remove(t));
  }

  /** Without new calls the open ones drain: every step brings the end nearer. */
  lemma {:induction false} OpenCallsDrain(s: State, run: seq<Action>)
    requires Inv(s) && Legal(s, run) && forall i :: 0 <= i < |run| ==> !run[i].Join?
    ensures |run| + AllStepsLeft(After(s, run).callers) <= AllStepsLeft(s.callers)
    decreases |run|
  {
    if run == [] {
    } else {
      var a := run[0];
      assert CallerOk(s, a.t);
      StepKeepsInv(s, a);
      UpdateStepsLeft(s.callers, a.t, Apply(s, a).callers[a.t]);
      assert Apply(s, a).callers == s.callers[a.t := Apply(s, a).callers[a.t]];
      OpenCallsDrain(Apply(s, a), run[1..]);
    }
  }

  // -------------------------------------------------------------------------------- overlapping work

  ghost predicate Unfinished(s: State, c: nat) {
    c < |s.cells| && !s.cells[c].content.Ready?
  }

  /** Two executions for one key at the same time. */
  ghost predicate Overlap(s: State) {
    exists c, d :: Overlapping(s, c, d)
  }

  ghost predicate Overlapping(s: State, c: nat, d: nat) {
    && c < |s.cells| && d < |s.cells| && c != d && s.cells[c].key == s.cells[d].key
    && s.cells[c].content.Running? && s.cells[d].content.Running?
  }

  /** The step is not a removal of somebody else's cell whose work is still to be done. */
  ghost predicate Spares(s: State, a: Action)
    requires Enabled(s, a)
  {
    a.Remove? ==>
      var key := s.cells[s.callers[a.t].cell].key;
      key in s.inflight ==> !Unfinished(s, s.inflight[key])
  }

  ghost predicate Mapped(s: State, c: nat)
    requires c < |s.cells|
  {
    s.cells[c].key in s.inflight && s.inflight[s.cells[c].key] == c
  }

  /** Every cell with work to do is the one new callers find. */
  ghost predicate AllMapped(s: State) {
    forall c :: 0 <= c < |s.cells| && Unfinished(s, c) ==> Mapped(s, c)
  }

  ghost predicate AllSpare(s: State, run: seq<Action>)
    requires Legal(s, run)
    decreases |run|
  {
    run != [] ==> Spares(s, run[0]) && AllSpare(Apply(s, run[0]), run[1..])
  }

  lemma SparingStep(s: State, a: Action)
    requires Inv(s) && AllMapped(s) && Enabled(s, a) && Spares(s, a)
    ensures AllMapped(Apply(s, a))
  {
    var s' := Apply(s, a);
    assert CallerOk(s, a.t);
    forall c | 0 <= c < |s'.cells| && Unfinished(s', c) ensures Mapped(s', c) {
      if c < |s.cells| {
        assert Unfinished(s, c) && Mapped(s, c);
      }
    }
  }

  lemma MappedCellsDoNotOverlap(s: State)
    requires AllMapped(s)
    ensures !Overlap(s)
  {
    forall c: nat, d: nat ensures !Overlapping(s, c, d) {
      assert c < |s.cells| && Unfinished(s, c) ==> Mapped(s, c);
      assert d < |s.cells| && Unfinished(s, d) ==> Mapped(s, d);
    }
  }

  /** While every removal spares unfinished cells, no two executions of a key ever overlap. */
  lemma {:induction false} SparingRunsNeverOverlap(s: State, run: seq<Action>)
    requires Inv(s) && AllMapped(s) && Legal(s, run) && AllSpare(s, run)
    ensures AllMapped(After(s, run)) && !Overlap(After(s, run))
    decreases |run|
  {
    if run == [] {
      MappedCellsDoNotOverlap(s);
    } else {
      StepKeepsInv(s, run[0]);
      SparingStep(s, run[0]);
      SparingRunsNeverOverlap(Apply(s, run[0]), run[1..]);
    }
  }

  /**
   * The first removal that does not spare one lets two executions overlap within three more
   * steps, the last two by the very caller that removed.
   */
  lemma UnsparingRemoveLeadsToOverlap(s: State, a: Action) returns (next: seq<Action>)
    requires Inv(s) && Enabled(s, a) && !Spares(s, a)
    ensures Legal(s, [a] + next) && |next| <= 3 && Overlap(After(s, [a] + next))
  {
    assert CallerOk(s, a.t);
    var mine := s.callers[a.t].cell;
    var key := s.cells[mine].key;
    assert MappedOk(s, key);
    var d := s.inflight[key];
    var s1 := Apply(s, a);
    StepKeepsInv(s, a);
    var again := [Join(a.t, key), Begin(a.t)];
    if s.cells[d].content.Running? {
      OrphanOverlaps(s1, d, a.t, key);
      next := again;
    } else {
      var u :| Holds(s, u, d);
      assert CallerOk(s, u);
      var s2 := Apply(s1, Begin(u));
      StepKeepsInv(s1, Begin(u));
      OrphanOverlaps(s2, d, a.t, key);
      next := [Begin(u)] + again;
      Then(s1, Begin(u), again);
    }
    Then(s, a, next);
  }

  /** An idle caller starts a second execution next to a running cell that is not in the map. */
  lemma OrphanOverlaps(s: State, d: nat, t: nat, key: Key)
    requires Inv(s) && d < |s.cells| && s.cells[d].key == key && s.cells[d].content.Running?
    requires t < |s.callers| && s.callers[t].Idle? && key !in s.inflight
    ensures Legal(s, [Join(t, key), Begin(t)]) && Overlap(After(s, [Join(t, key), Begin(t)]))
  {
    var s1 := Apply(s, Join(t, key));
    var s2 := Apply(s1, Begin(t));
    assert Overlapping(s2, d, |s.cells|);
    Then(s1, Begin(t), []);
    Then(s, Join(t, key), [Begin(t)]);
    assert [Begin(t)] + [] == [Begin(t)];
    assert [Join(t, key)] + [Begin(t)] == [Join(t, key), Begin(t)];
  }

  /**
   * The documented claim, one execution per key at a time, holds of every run in which each
   * removal spares unfinished cells, and any run that reaches a removal that does not can go on
   * to break it.
   */
  lemma OneExecutionAtATime(n: nat, run: seq<Action>)
    requires Legal(Init(n), run)
    ensures AllSpare(Init(n), run) ==> !Overlap(After(Init(n), run))
    ensures forall a :: Enabled(After(Init(n), run), a) && !Spares(After(Init(n), run), a) ==>
              exists next :: Breaks(After(Init(n), run), [a] + next)
  {
    if AllSpare(Init(n), run) {
      SparingRunsNeverOverlap(Init(n), run);
    }
    RunKeepsInv(Init(n), run);
    var s := After(Init(n), run);
    forall a | Enabled(s, a) && !Spares(s, a) ensures exists next :: Breaks(s, [a] + next) {
      var next := UnsparingRemoveLeadsToOverlap(s, a);
      assert Breaks(s, [a] + next);
    }
  }

  ghost predicate Breaks(s: State, run: seq<Action>) {
    Legal(s, run) && Overlap(After(s, run))
  }

  /** Two callers suffice to reach such a removal: a late waiter removes a newer cell. */
  lemma LateWaiterRemovesNewerCell(key: Key, result: Result) returns (run: seq<Action>)
    ensures Legal(Init(2), run)
    ensures var s := After(Init(2), run);
            Enabled(s, Remove(1)) && !Spares(s, Remove(1))
  {
    var s1 := Apply(Init(2), Join(0, key));
    var s2 := Apply(s1, Join(1, key));
    var s3 := Apply(s2, Begin(0));
    var s4 := Apply(s3, Finish(0, result));
    var s5 := Apply(s4, Remove(0));
    var s6 := Apply(s5, Join(0, key));
    var s7 := Apply(s6, Begin(0));
    var s8 := Apply(s7, Read(1));
    assert Enabled(s8, Remove(1)) && !Spares(s8, Remove(1));
    hide *;
    run := FromBack(s7, Read(1), []);
    run := FromBack(s6, Begin(0), run);
    run := FromBack(s5, Join(0, key), run);
    run := FromBack(s4, Remove(0), run);
    run := FromBack(s3, Finish(0, result), run);
    run := FromBack(s2, Begin(0), run);
    run := FromBack(s1, Join(1, key), run);
    run := FromBack(Init(2), Join(0, key), run);
  }

  lemma FromBack(s: State, a: Action, rest: seq<Action>) returns (run: seq<Action>)
    requires Enabled(s, a) && Legal(Apply(s, a), rest)
    ensures run == [a] + rest && Legal(s, run) && After(s, run) == After(Apply(s, a), rest)
  {
    run := [a] + rest;
    Then(s, a, rest);
  }
}
