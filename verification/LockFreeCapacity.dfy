/**
 * The length counter of a shard of the lock-free cache (src/core/lockfree.rs) and its capacity:
 * what the counter tells in every run, how far the limit can be exceeded, and when it is kept.
 */
module LockFreeCapacity {
  import opened Basics
  import opened LockFreeShard

  // ---------------------------------------------------------------- the counter, the bound

  function PendingAdd(pc: Pc): int { if pc.InsertCount? then 1 else 0 }

  function PendingSub(pc: Pc): int { if pc.RemoveCount? || pc.ClearCount? then 1 else 0 }

  /** Inserts that have passed the capacity check but not yet linked or given up. */
  function Admitted(pc: Pc): int {
    if pc.InsertLoad? || pc.InsertScan? || pc.InsertCas? then 1 else 0
  }

  ghost function Sum(weight: Pc -> int, threads: seq<Thread>): int {
    if threads == [] then 0 else weight(threads[0].pc) + Sum(weight, threads[1..])
  }

  lemma {:induction false} SumUpdate(weight: Pc -> int, threads: seq<Thread>, i: nat, th: Thread)
    requires i < |threads|
    ensures Sum(weight, threads[i := th]) == Sum(weight, threads) - weight(threads[i].pc) + weight(th.pc)
  {
    if i == 0 {
      assert threads[i := th][1..] == threads[1..];
    } else {
      assert threads[i := th][1..] == threads[1..][i - 1 := th];
      SumUpdate(weight, threads[1..], i - 1, th);
    }
  }

  /** Adding and being admitted exclude each other, and a thread doing neither is missing from the sum. */
  lemma {:induction false} SumBound(threads: seq<Thread>, spare: int)
    ensures 0 <= Sum(PendingAdd, threads) && 0 <= Sum(Admitted, threads) && 0 <= Sum(PendingSub, threads) <= |threads|
    ensures Sum(PendingAdd, threads) + Sum(Admitted, threads) <= |threads|
    ensures 0 <= spare < |threads| && PendingAdd(threads[spare].pc) == 0 && Admitted(threads[spare].pc) == 0 ==>
              Sum(PendingAdd, threads) + Sum(Admitted, threads) <= |threads| - 1
  {
    if threads == [] {
    } else {
      SumBound(threads[1..], spare - 1);
    }
  }

  lemma {:induction false} SumIdle(weight: Pc -> int, threads: seq<Thread>)
    requires weight(Idle) == 0
    requires forall i :: 0 <= i < |threads| ==> threads[i].pc == Idle
    ensures Sum(weight, threads) == 0
  {
    if threads == [] {
    } else {
      SumIdle(weight, threads[1..]);
    }
  }

  /** List length minus adds still owed plus subtractions still owed. */
  ghost function Balance(s: State): int
    requires HeapOk(s.mem.heap) && Address(s.mem.heap, s.mem.head)
  {
    |Stack(s)| - Sum(PendingAdd, s.threads) + Sum(PendingSub, s.threads)
  }

  ghost predicate Counted(capacity: nat, s: State) {
    && Inv(s)
    && s.mem.len == Balance(s) % U64
    && |Stack(s)| + Sum(Admitted, s.threads) <= capacity + |s.threads| - 1
  }

  lemma AccessCounts(capacity: nat, m: Shared, pc: Pc, clock: int, time: int)
    requires HeapOk(m.heap) && Address(m.heap, m.head) && Knows(m.heap, pc) && Distinct(Chain(m.heap, m.head))
    ensures var (m', pc') := Access(capacity, m, pc, clock, time);
            && HeapOk(m'.heap) && Address(m'.heap, m'.head)
            && var list := |Chain(m'.heap, m'.head)| - |Chain(m.heap, m.head)|;
            && m'.len == (if PendingAdd(pc) == 1 then (m.len + 1) % U64
                          else if PendingSub(pc) == 1 then (m.len - 1) % U64 else m.len)
            && list - (PendingAdd(pc') - PendingAdd(pc)) + (PendingSub(pc') - PendingSub(pc))
               == PendingAdd(pc) - PendingSub(pc)
            && (pc.InsertCheck? && pc'.InsertLoad? ==> m.len < capacity)
            && (!pc.InsertCheck? ==> Admitted(pc') + list <= Admitted(pc))
  {
    AccessKeeps(capacity, m, pc, clock, time);
    EffectKeepsDistinct(m, pc, Access(capacity, m, pc, clock, time).0);
  }

  lemma WrapUp(x: int)
    ensures (x % U64 + 1) % U64 == (x + 1) % U64
    ensures (x % U64 - 1) % U64 == (x - 1) % U64
  {
    assert x == U64 * (x / U64) + x % U64;
  }

  /** A counter reading below the capacity is not a wrapped one, so it bounds the real balance. */
  lemma ReadingIsHonest(balance: int, capacity: nat, threads: nat)
    requires 0 - threads <= balance < U64 && capacity + threads <= U64
    requires balance % U64 < capacity
    ensures balance < capacity
  {
    assert balance % U64 == if balance < 0 then balance + U64 else balance;
  }

  /**
   * One step keeps the counter honest and the length bound. The word size premise says that
   * the capacity and the number of threads fit a machine word together.
   */
  lemma StepKeepsCounted(capacity: nat, s: State, m: Move)
    requires Counted(capacity, s) && Enabled(s, m) && capacity + 2 * |s.threads| <= U64
    ensures Counted(capacity, After(capacity, s, m))
  {
    StepKeepsInv(capacity, s, m);
    var s' := After(capacity, s, m);
    var pc, pc' := s.threads[m.thread].pc, s'.threads[m.thread].pc;
    SumsMove(capacity, s, m);
    SumBound(s.threads, m.thread);
    if m.action.Step? {
      AccessCounts(capacity, s.mem, pc, m.action.clock, s.time);
      assert (s'.mem, pc') == Access(capacity, s.mem, pc, m.action.clock, s.time);
      hide Sum, Chain, Inv, Access, After, Enabled;
      LengthFollows(s.mem.len, s'.mem.len, Balance(s), Balance(s'), PendingAdd(pc), PendingSub(pc));
      if pc.InsertCheck? && pc'.InsertLoad? {
        ReadingIsHonest(Balance(s), capacity, |s.threads|);
      }
    } else {
      hide Sum, Chain, Inv;
    }
  }

  lemma SumsMove(capacity: nat, s: State, m: Move)
    requires Inv(s) && Enabled(s, m)
    ensures var s' := After(capacity, s, m);
            var pc, pc' := s.threads[m.thread].pc, s'.threads[m.thread].pc;
            && |s'.threads| == |s.threads|
            && Sum(PendingAdd, s'.threads) == Sum(PendingAdd, s.threads) - PendingAdd(pc) + PendingAdd(pc')
            && Sum(PendingSub, s'.threads) == Sum(PendingSub, s.threads) - PendingSub(pc) + PendingSub(pc')
            && Sum(Admitted, s'.threads) == Sum(Admitted, s.threads) - Admitted(pc) + Admitted(pc')
  {
    var s' := After(capacity, s, m);
    var th' := s'.threads[m.thread];
    assert s'.threads == s.threads[m.thread := th'];
    hide Sum, After, Inv;
    SumUpdate(PendingAdd, s.threads, m.thread, th');
    SumUpdate(PendingSub, s.threads, m.thread, th');
    SumUpdate(Admitted, s.threads, m.thread, th');
  }

  /** The counter moves with the balance, wrapped as it is. */
  lemma LengthFollows(len: int, len': int, balance: int, balance': int, add: int, sub: int)
    requires len == balance % U64 && balance' == balance + add - sub
    requires (add == 0 || add == 1) && (sub == 0 || sub == 1) && (add == 0 || sub == 0)
    requires len' == if add == 1 then (len + 1) % U64 else if sub == 1 then (len - 1) % U64 else len
    ensures len' == balance' % U64
  {
    WrapUp(balance);
  }

  /**
   * With T threads the counter always equals list length - pending adds + pending
   * subtractions modulo 2^64, and the list never exceeds capacity + T - 1 entries although
   * the capacity check and the CAS are separate steps.
   */
  lemma {:induction false} CounterAndCapacity(capacity: nat, run: seq<State>, moves: seq<Move>, j: nat)
    requires IsRun(capacity, run, moves) && j < |run| && capacity + 2 * |run[0].threads| <= U64
    ensures Inv(run[j]) && |run[j].threads| == |run[0].threads|
    ensures run[j].mem.len == Balance(run[j]) % U64
    ensures |Stack(run[j])| <= capacity + |run[0].threads| - 1
    ensures Counted(capacity, run[j])
    ensures (forall i :: 0 <= i < |run[j].threads| ==> run[j].threads[i].pc == Idle)
            ==> run[j].mem.len == |Stack(run[j])| % U64
  {
    KeysStayDistinct(capacity, run, moves, j);
    if j == 0 {
      SumIdle(PendingAdd, run[0].threads);
      SumIdle(PendingSub, run[0].threads);
      SumIdle(Admitted, run[0].threads);
    } else {
      CounterAndCapacity(capacity, run, moves, j - 1);
      assert Enabled(run[j - 1], moves[j - 1]);
      StepKeepsCounted(capacity, run[j - 1], moves[j - 1]);
    }
    SumBound(run[j].threads, -1);
    if forall i :: 0 <= i < |run[j].threads| ==> run[j].threads[i].pc == Idle {
      SumIdle(PendingAdd, run[j].threads);
      SumIdle(PendingSub, run[j].threads);
    }
  }

  // ------------------------------------------------------------------ the bound is attained

  /** s is a state of some run with that many threads. */
  ghost predicate Reachable(capacity: nat, threads: nat, s: State) {
    exists run, moves :: EndsIn(capacity, threads, run, moves, s)
  }

  ghost predicate EndsIn(capacity: nat, threads: nat, run: seq<State>, moves: seq<Move>, s: State) {
    IsRun(capacity, run, moves) && |run[0].threads| == threads && run[|run| - 1] == s
  }

  /** Move k leads from state k to the next. */
  ghost predicate Follows(capacity: nat, run: seq<State>, moves: seq<Move>, k: nat) {
    && k < |moves| && k + 1 < |run| && Enabled(run[k], moves[k])
    && Address(run[k].mem.heap, run[k].mem.head)
    && PcAddresses(run[k].mem.heap, run[k].threads[moves[k].thread].pc)
    && run[k + 1] == After(capacity, run[k], moves[k])
  }

  lemma StartsRun(capacity: nat, run: seq<State>, moves: seq<Move>)
    requires IsRun(capacity, run, moves)
    ensures |run| == |moves| + 1 && Initial(run[0])
  {
  }

  lemma StepOfRun(capacity: nat, run: seq<State>, moves: seq<Move>, k: nat)
    requires IsRun(capacity, run, moves) && k < |moves|
    ensures Follows(capacity, run, moves, k)
  {
    assert Enabled(run[k], moves[k]);
  }

  lemma SameStep(capacity: nat, run: seq<State>, moves: seq<Move>, run': seq<State>, moves': seq<Move>, k: nat)
    requires Follows(capacity, run, moves, k) && k < |moves'| && k + 1 < |run'|
    requires run'[k] == run[k] && run'[k + 1] == run[k + 1] && moves'[k] == moves[k]
    ensures Follows(capacity, run', moves', k)
  {
  }

  lemma RunOfSteps(capacity: nat, run: seq<State>, moves: seq<Move>)
    requires |run| == |moves| + 1 && Initial(run[0])
    requires forall k: nat :: k < |moves| ==> Follows(capacity, run, moves, k)
    ensures IsRun(capacity, run, moves)
  {
    forall j | 0 <= j < |moves|
      ensures && Enabled(run[j], moves[j])
              && Address(run[j].mem.heap, run[j].mem.head)
              && PcAddresses(run[j].mem.heap, run[j].threads[moves[j].thread].pc)
              && run[j + 1] == After(capacity, run[j], moves[j])
    {
      assert Follows(capacity, run, moves, j);
    }
  }

  lemma {:induction false} EveryStateIsReachable(capacity: nat, run: seq<State>, moves: seq<Move>, j: nat)
    requires IsRun(capacity, run, moves) && j < |run|
    ensures Reachable(capacity, |run[0].threads|, run[j])
  {
    var run', moves' := run[..j + 1], moves[..j];
    StartsRun(capacity, run, moves);
    hide IsRun, Follows, Initial;
    forall k: nat | k < j ensures Follows(capacity, run', moves', k) {
      StepOfRun(capacity, run, moves, k);
      SameStep(capacity, run, moves, run', moves', k);
    }
    RunOfSteps(capacity, run', moves');
    assert EndsIn(capacity, |run[0].threads|, run', moves', run[j]);
  }

  lemma ReachableKeepsInv(capacity: nat, threads: nat, s: State)
    requires Reachable(capacity, threads, s)
    ensures Inv(s) && |s.threads| == threads
  {
    var run, moves :| EndsIn(capacity, threads, run, moves, s);
    KeysStayDistinct(capacity, run, moves, |run| - 1);
  }

  lemma RunGrows(capacity: nat, run: seq<State>, moves: seq<Move>, m: Move)
    requires IsRun(capacity, run, moves) && Enabled(run[|run| - 1], m) && Inv(run[|run| - 1])
    ensures IsRun(capacity, run + [After(capacity, run[|run| - 1], m)], moves + [m])
  {
    var run', moves' := run + [After(capacity, run[|run| - 1], m)], moves + [m];
    assert Follows(capacity, run', moves', |moves|);
    StartsRun(capacity, run, moves);
    hide IsRun, Follows, Inv, After;
    forall k: nat | k < |moves| ensures Follows(capacity, run', moves', k) {
      StepOfRun(capacity, run, moves, k);
      SameStep(capacity, run, moves, run', moves', k);
    }
    RunOfSteps(capacity, run', moves');
  }

  lemma OneStepFurther(capacity: nat, threads: nat, s: State, m: Move)
    requires Reachable(capacity, threads, s) && Enabled(s, m)
    ensures Inv(s) && |s.threads| == threads
    ensures Reachable(capacity, threads, After(capacity, s, m)) && Inv(After(capacity, s, m))
  {
    ReachableKeepsInv(capacity, threads, s);
    var run, moves :| EndsIn(capacity, threads, run, moves, s);
    var s' := After(capacity, s, m);
    RunGrows(capacity, run, moves, m);
    assert EndsIn(capacity, threads, run + [s'], moves + [m], s');
    ReachableKeepsInv(capacity, threads, s');
  }

  /** s' differs from s in thread i and perhaps in memory, and is reachable. */
  ghost predicate Onward(capacity: nat, s: State, i: nat, s': State) {
    && Reachable(capacity, |s.threads|, s') && Inv(s') && i < |s.threads| == |s'.threads|
    && s'.threads == s.threads[i := s'.threads[i]]
  }

  /** An undisturbed scan for an absent key reaches the end of the list. */
  lemma {:induction false} ScanToEnd(capacity: nat, s: State, i: nat) returns (s': State)
    requires Reachable(capacity, |s.threads|, s) && Inv(s) && i < |s.threads|
    requires s.threads[i].pc.InsertScan? && s.threads[i].pc.head == s.mem.head
    requires !Has(Chain(s.mem.heap, s.threads[i].pc.cur), s.threads[i].pc.entry.key)
    ensures Onward(capacity, s, i, s') && s'.mem == s.mem
    ensures s'.threads[i].pc.InsertCas? && s'.threads[i].pc.head == s.mem.head
    ensures s'.threads[i].pc.entry == s.threads[i].pc.entry
    decreases s.threads[i].pc.cur + 1
  {
    var pc := s.threads[i].pc;
    var m := Move(i, Step(0));
    OneStepFurther(capacity, |s.threads|, s, m);
    var next := After(capacity, s, m);
    if pc.cur == NULL {
      s' := next;
    } else {
      ChainUnrolls(s.mem.heap, pc.cur);
      FindUnrolls(s.mem.heap[pc.cur].entry, Chain(s.mem.heap, s.mem.heap[pc.cur].next), pc.entry.key);
      hide Reachable, Inv, Chain, Find;
      s' := ScanToEnd(capacity, next, i);
    }
  }

  /** An admitted insert of an absent key, undisturbed, links its entry; the counter waits. */
  lemma LinkOne(capacity: nat, s: State, i: nat) returns (s': State)
    requires Reachable(capacity, |s.threads|, s) && Inv(s) && i < |s.threads| && s.threads[i].pc.InsertLoad?
    requires !Has(Stack(s), s.threads[i].pc.entry.key)
    ensures Onward(capacity, s, i, s') && s'.mem.len == s.mem.len
    ensures s'.threads[i].pc.InsertCount? && s'.threads[i].pc.entry == s.threads[i].pc.entry
    ensures Stack(s') == [s.threads[i].pc.entry] + Stack(s)
  {
    var m := Move(i, Step(0));
    OneStepFurther(capacity, |s.threads|, s, m);
    var loaded := After(capacity, s, m);
    var ready := ScanToEnd(capacity, loaded, i);
    OneStepFurther(capacity, |s.threads|, ready, m);
    s' := After(capacity, ready, m);
    hide Reachable, Has, Chain;
    EffectKeepsDistinct(ready.mem, ready.threads[i].pc, s'.mem);
  }

  /** An idle thread whose counter reading is below the capacity gets past the check. */
  lemma AdmitOne(capacity: nat, s: State, i: nat, e: Entry) returns (s': State)
    requires Reachable(capacity, |s.threads|, s) && i < |s.threads| && s.threads[i].pc.Idle? && s.mem.len < capacity
    ensures Onward(capacity, s, i, s') && s'.mem == s.mem && s'.threads[i].pc == InsertLoad(e)
  {
    var m := Move(i, Invoke(Insert(e)));
    OneStepFurther(capacity, |s.threads|, s, m);
    var invoked := After(capacity, s, m);
    OneStepFurther(capacity, |s.threads|, invoked, Move(i, Step(0)));
    s' := After(capacity, invoked, Move(i, Step(0)));
  }

  /** An insert that has linked its entry counts it and returns. */
  lemma CountOne(capacity: nat, s: State, i: nat) returns (s': State)
    requires Reachable(capacity, |s.threads|, s) && Inv(s) && i < |s.threads| && s.threads[i].pc.InsertCount?
    ensures Onward(capacity, s, i, s') && s'.threads[i].pc.Idle? && Stack(s') == Stack(s)
    ensures s'.mem.len == (s.mem.len + 1) % U64
  {
    OneStepFurther(capacity, |s.threads|, s, Move(i, Step(0)));
    var counted := After(capacity, s, Move(i, Step(0)));
    OneStepFurther(capacity, |s.threads|, counted, Move(i, Return));
    s' := After(capacity, counted, Move(i, Return));
  }

  /** The stack that inserting the entries one after the other leaves. */
  ghost function Pushed(entries: seq<Entry>): (stack: seq<Entry>)
    ensures |stack| == |entries|
  {
    if entries == [] then [] else [entries[|entries| - 1]] + Pushed(entries[..|entries| - 1])
  }

  lemma {:induction false} PushedLacks(entries: seq<Entry>, key: Key)
    requires forall i :: 0 <= i < |entries| ==> entries[i].key != key
    ensures !Has(Pushed(entries), key)
  {
    if entries == [] {
    } else {
      PushedLacks(entries[..|entries| - 1], key);
      FindUnrolls(entries[|entries| - 1], Pushed(entries[..|entries| - 1]), key);
    }
  }

  lemma PushedSnoc(entries: seq<Entry>, k: nat)
    requires k < |entries| && Distinct(entries)
    ensures Pushed(entries[..k + 1]) == [entries[k]] + Pushed(entries[..k])
    ensures !Has(Pushed(entries[..k]), entries[k].key)
  {
    assert entries[..k + 1][..k] == entries[..k];
    PushedLacks(entries[..k], entries[k].key);
  }

  ghost predicate AllIdle(s: State, from: nat) {
    forall i :: from <= i < |s.threads| ==> s.threads[i].pc.Idle?
  }

  /** One thread alone fills the shard with the first n entries. */
  lemma {:induction false} Fill(capacity: nat, threads: nat, entries: seq<Entry>, n: nat) returns (s: State)
    requires 0 < threads && n <= |entries| && Distinct(entries) && n <= capacity && n < U64
    ensures Reachable(capacity, threads, s) && Inv(s) && |s.threads| == threads && AllIdle(s, 0)
    ensures Stack(s) == Pushed(entries[..n]) && s.mem.len == n
  {
    if n == 0 {
      s := State(Shared([], NULL, 0), seq(threads, _ => Thread(Idle, 0)), 0);
      assert IsRun(capacity, [s], []);
      assert EndsIn(capacity, threads, [s], [], s);
    } else {
      var before := Fill(capacity, threads, entries, n - 1);
      PushedSnoc(entries, n - 1);
      hide Reachable, Inv, Stack, Pushed, Has;
      var admitted := AdmitOne(capacity, before, 0, entries[n - 1]);
      SameStack(before, admitted);
      var linked := LinkOne(capacity, admitted, 0);
      s := CountOne(capacity, linked, 0);
    }
  }

  lemma SameStack(s: State, s': State)
    requires Inv(s) && s'.mem == s.mem
    ensures HeapOk(s'.mem.heap) && Address(s'.mem.heap, s'.mem.head) && Stack(s') == Stack(s)
    ensures HeapOk(s.mem.heap) && Address(s.mem.heap, s.mem.head)
  {
  }

  /** The first n threads have all passed the check, each with its entry, and the list is as before. */
  lemma {:induction false} AdmitMany(capacity: nat, s0: State, batch: seq<Entry>, n: nat) returns (s: State)
    requires Reachable(capacity, |s0.threads|, s0) && Inv(s0) && AllIdle(s0, 0) && s0.mem.len < capacity
    requires n <= |batch| && n <= |s0.threads|
    ensures Reachable(capacity, |s0.threads|, s) && Inv(s) && |s.threads| == |s0.threads| && s.mem == s0.mem
    ensures (forall i :: 0 <= i < n ==> s.threads[i].pc == InsertLoad(batch[i])) && AllIdle(s, n)
  {
    if n == 0 {
      s := s0;
    } else {
      var before := AdmitMany(capacity, s0, batch, n - 1);
      hide Reachable, Inv;
      s := AdmitOne(capacity, before, n - 1, batch[n - 1]);
    }
  }

  /** Then n of them link their entries one after the other. */
  lemma {:induction false} LinkMany(capacity: nat, s0: State, entries: seq<Entry>, base: nat, n: nat) returns (s: State)
    requires Reachable(capacity, |s0.threads|, s0) && Inv(s0) && Distinct(entries) && base + n <= |entries|
    requires |entries| - base <= |s0.threads| && Stack(s0) == Pushed(entries[..base])
    requires forall i :: 0 <= i < |entries| - base ==> s0.threads[i].pc == InsertLoad(entries[base + i])
    ensures Reachable(capacity, |s0.threads|, s) && Inv(s) && |s.threads| == |s0.threads|
    ensures Stack(s) == Pushed(entries[..base + n])
    ensures forall i :: n <= i < |entries| - base ==> s.threads[i].pc == InsertLoad(entries[base + i])
  {
    if n == 0 {
      s := s0;
    } else {
      var before := LinkMany(capacity, s0, entries, base, n - 1);
      PushedSnoc(entries, base + n - 1);
      hide Reachable, Inv, Stack, Pushed, Has;
      s := LinkOne(capacity, before, n - 1);
    }
  }

  /**
   * The bound is attained, by every number of racing threads: with k of them, all past the
   * check when one place was left, the shard holds capacity - 1 + k entries.
   */
  lemma CapacityIsExceeded(capacity: nat, threads: nat, k: nat, entries: seq<Entry>) returns (s: State)
    requires 1 <= capacity <= U64 && 1 <= k <= threads
    requires |entries| == capacity - 1 + k && Distinct(entries)
    ensures Reachable(capacity, threads, s) && Inv(s) && |Stack(s)| == capacity - 1 + k
  {
    var full := Fill(capacity, threads, entries, capacity - 1);
    var admitted := AdmitMany(capacity, full, entries[capacity - 1..], k);
    SameStack(full, admitted);
    hide Reachable, Inv, Stack;
    s := LinkMany(capacity, admitted, entries, capacity - 1, k);
    assert entries[..capacity - 1 + k] == entries;
  }

  // ------------------------------------------------------------------- when the limit is kept

  /** Places from which the thread could touch the list. */
  predicate Touching(pc: Pc) {
    || pc.InsertLoad? || pc.InsertScan? || pc.InsertCas? || pc.RemoveNext? || pc.RemoveCas?
    || pc.ClearNext? || pc.ClearCas?
  }

  /** A shard of capacity zero admits nobody. */
  ghost predicate NothingAdmitted(s: State) {
    && s.mem.head == NULL && 0 <= s.mem.len
    && forall i {:trigger s.threads[i]} :: 0 <= i < |s.threads| ==> !Touching(s.threads[i].pc)
  }

  lemma AccessToNothing(m: Shared, pc: Pc, clock: int, time: int)
    requires m.head == NULL && 0 <= m.len && Address(m.heap, m.head) && PcAddresses(m.heap, pc) && !Touching(pc)
    ensures var (m', pc') := Access(0, m, pc, clock, time); m'.head == NULL && 0 <= m'.len && !Touching(pc')
  {
  }

  lemma StepAdmitsNobody(s: State, m: Move)
    requires NothingAdmitted(s) && Enabled(s, m)
    requires Address(s.mem.heap, s.mem.head) && PcAddresses(s.mem.heap, s.threads[m.thread].pc)
    ensures NothingAdmitted(After(0, s, m))
  {
    var s' := After(0, s, m);
    if m.action.Step? {
      AccessToNothing(s.mem, s.threads[m.thread].pc, m.action.clock, s.time);
    }
    assert !Touching(s'.threads[m.thread].pc);
    forall i | 0 <= i < |s'.threads| ensures !Touching(s'.threads[i].pc) {
      assert i != m.thread ==> s'.threads[i] == s.threads[i];
    }
  }

  lemma {:induction false} EmptyForEver(run: seq<State>, moves: seq<Move>, j: nat)
    requires IsRun(0, run, moves) && j < |run|
    ensures NothingAdmitted(run[j])
  {
    if j == 0 {
    } else {
      EmptyForEver(run, moves, j - 1);
      assert Enabled(run[j - 1], moves[j - 1]);
      hide NothingAdmitted;
      StepAdmitsNobody(run[j - 1], moves[j - 1]);
    }
  }

  /** No reachable state of the shard holds more entries than its capacity. */
  ghost predicate LimitIsKept(capacity: nat, threads: nat) {
    forall s :: Reachable(capacity, threads, s) ==> Inv(s) && |Stack(s)| <= capacity
  }

  /**
   * The capacity limit is kept in all runs exactly when one thread works on the shard, or its
   * capacity is zero - provided there are more keys than the capacity.
   */
  lemma LimitIsKeptIff(capacity: nat, threads: nat, entries: seq<Entry>)
    requires 1 <= threads && capacity + 2 * threads <= U64
    requires |entries| == capacity + 1 && Distinct(entries)
    ensures LimitIsKept(capacity, threads) <==> threads == 1 || capacity == 0
  {
    if threads == 1 || capacity == 0 {
      forall s | Reachable(capacity, threads, s) ensures Inv(s) && |Stack(s)| <= capacity {
        var run, moves :| EndsIn(capacity, threads, run, moves, s);
        CounterAndCapacity(capacity, run, moves, |run| - 1);
        if capacity == 0 {
          EmptyForEver(run, moves, |run| - 1);
        }
      }
    } else {
      var s := CapacityIsExceeded(capacity, threads, 2, entries);
    }
  }
}
