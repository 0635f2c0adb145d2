/**
 * One shard of the lock-free cache (src/core/lockfree.rs): a singly linked list that
 * threads change only by compare-and-swap on its head, beside a length counter that is
 * updated in a separate atomic step.
 *
 * The module is a step machine. Any number of threads run any calls; a scheduler picks a
 * thread, and that thread performs ONE atomic access: a load of the counter, a load of the
 * head, a visit of one list node, a compare-and-swap, or a counter update. All threads see
 * these accesses in one order: the machine is sequentially consistent. Shards share
 * nothing, so the cache is 64 independent copies of this machine.
 */
module LockFreeShard {
  import opened Basics

  type Key(==,!new)
  type Value(==,!new)

  /** What a list node carries: `expires` is the instant after which `get` ignores it. */
  datatype Entry = Entry(key: Key, value: Value, expires: Option<int>)

  // ---------------------------------------------------------------- the atomic keyed stack

  datatype Call = Insert(entry: Entry) | Get(key: Key) | Remove(key: Key) | Clear

  /** `Full`, `Exists` are insert's two `false` answers; `Accepted` is its `true`. */
  datatype Reply = Full | Exists | Accepted | Answer(found: Option<Value>) | Cleared

  function Find(stack: seq<Entry>, key: Key): Option<Entry> {
    if stack == [] then None
    else if stack[0].key == key then Some(stack[0])
    else Find(stack[1..], key)
  }

  predicate Has(stack: seq<Entry>, key: Key) {
    Find(stack, key).Some?
  }

  /** The expiry filter of `get`, applied at the instant the matching node is examined. */
  function Live(found: Option<Entry>, clock: int): Option<Value> {
    match found
    case None => None
    case Some(e) =>
      if e.expires.Some? && clock > e.expires.value then None else Some(e.value)
  }

  /** The sequential object: `call` on `before` may answer `reply` and leave `after`. */
  ghost predicate Atomic(call: Call, before: seq<Entry>, clock: int, reply: Reply, after: seq<Entry>) {
    match call
    case Insert(e) =>
      if Has(before, e.key)
      then reply == Exists && after == before
      else reply == Accepted && after == [e] + before
    case Get(k) =>
      reply == Answer(Live(Find(before, k), clock)) && after == before
    case Remove(k) =>
      // Only the top of the stack is ever removed.
      if before != [] && before[0].key == k
      then reply == Answer(Some(before[0].value)) && after == before[1..]
      else reply == Answer(None) && after == before
    case Clear =>
      // A clear pops one node at a time and answers once it has seen the stack empty.
      before == [] && reply == Cleared && after == before
  }

  ghost predicate Distinct(stack: seq<Entry>) {
    forall i, j :: 0 <= i < j < |stack| ==> stack[i].key != stack[j].key
  }

  lemma {:induction false} FindNone(stack: seq<Entry>, key: Key)
    ensures Has(stack, key) <==> exists i :: 0 <= i < |stack| && stack[i].key == key
  {
    if stack == [] {
    } else {
      FindNone(stack[1..], key);
      if stack[0].key != key && Has(stack[1..], key) {
        var i :| 0 <= i < |stack[1..]| && stack[1..][i].key == key;
        assert stack[i + 1].key == key;
      }
      if i :| 0 <= i < |stack| && stack[i].key == key && i > 0 {
        assert stack[1..][i - 1].key == key;
      }
    }
  }

  lemma PushKeepsDistinct(e: Entry, stack: seq<Entry>)
    requires Distinct(stack) && !Has(stack, e.key)
    ensures Distinct([e] + stack)
  {
    FindNone(stack, e.key);
    forall i, j | 0 <= i < j < |[e] + stack| ensures ([e] + stack)[i].key != ([e] + stack)[j].key {
      assert ([e] + stack)[j] == stack[j - 1];
    }
  }

  // ------------------------------------------------------------------------ shared memory

  const NULL: int := -1

  datatype Node = Node(entry: Entry, next: int)

  /**
   * `heap[a]` is the published node at address a. Nodes never change after publication and
   * the epoch guard keeps an address from being reused, so the heap only grows.
   */
  datatype Shared = Shared(heap: seq<Node>, head: int, len: int)

  ghost predicate HeapOk(heap: seq<Node>) {
    forall a {:trigger heap[a]} :: 0 <= a < |heap| ==> NULL <= heap[a].next < a
  }

  ghost predicate Address(heap: seq<Node>, a: int) {
    NULL <= a < |heap|
  }

  /** The list that starts at address a. */
  ghost function Chain(heap: seq<Node>, a: int): seq<Entry>
    requires HeapOk(heap) && Address(heap, a)
    decreases a + 1
  {
    if a == NULL then [] else [heap[a].entry] + Chain(heap, heap[a].next)
  }

  lemma {:induction false} ChainSurvives(heap: seq<Node>, node: Node, a: int)
    requires HeapOk(heap) && HeapOk(heap + [node]) && Address(heap, a)
    ensures Chain(heap + [node], a) == Chain(heap, a)
    decreases a + 1
  {
    if a == NULL {
    } else {
      ChainSurvives(heap, node, heap[a].next);
    }
  }

  // ------------------------------------------------------------------------------- threads

  /**
   * Where a thread stands. `at` is a history variable: the number of the step in which the
   * thread last loaded the head (or, once decided, the step of its successful CAS).
   */
  datatype Pc =
    | Idle
    | InsertCheck(entry: Entry)                                    // about to load the counter
    | InsertLoad(entry: Entry)                                     // about to load the head
    | InsertScan(entry: Entry, head: int, cur: int, at: int)       // about to examine cur
    | InsertCas(entry: Entry, head: int, at: int)                  // about to swing the head
    | InsertCount(entry: Entry, at: int)                           // about to add to the counter
    | GetLoad(key: Key)
    | GetScan(key: Key, cur: int, at: int)
    | RemoveLoad(key: Key)
    | RemoveNext(key: Key, head: int, at: int)                     // about to load head.next
    | RemoveCas(key: Key, head: int, next: int, at: int)
    | RemoveCount(key: Key, value: Value, at: int)                 // about to subtract
    | ClearLoad
    | ClearNext(head: int, at: int)
    | ClearCas(head: int, next: int, at: int)
    | ClearCount
    | Finished(call: Call, reply: Reply, at: int, clock: int)      // about to return

  /** `since` is the number of the step that invoked the current call. */
  datatype Thread = Thread(pc: Pc, since: int)

  datatype State = State(mem: Shared, threads: seq<Thread>, time: int)

  datatype Action = Invoke(call: Call) | Step(clock: int) | Return

  datatype Move = Move(thread: int, action: Action)

  function Start(call: Call): Pc {
    match call
    case Insert(e) => InsertCheck(e)
    case Get(k) => GetLoad(k)
    case Remove(k) => RemoveLoad(k)
    case Clear => ClearLoad
  }

  /** One atomic access of one thread: the new memory and the thread's new place. */
  function Access(capacity: nat, m: Shared, pc: Pc, clock: int, time: int): (Shared, Pc)
    requires PcAddresses(m.heap, pc) && Address(m.heap, m.head)
  {
    match pc
    case Idle => (m, pc)
    case InsertCheck(e) =>
      if m.len >= capacity then (m, Finished(Insert(e), Full, time, clock)) else (m, InsertLoad(e))
    case InsertLoad(e) => (m, InsertScan(e, m.head, m.head, time))
    case InsertScan(e, head, cur, at) =>
      if cur == NULL then (m, InsertCas(e, head, at))
      else if m.heap[cur].entry.key == e.key then (m, Finished(Insert(e), Exists, at, clock))
      else (m, InsertScan(e, head, m.heap[cur].next, at))
    case InsertCas(e, head, at) =>
      if m.head == head
      then (Shared(m.heap + [Node(e, head)], |m.heap|, m.len), InsertCount(e, time))
      else (m, InsertLoad(e))
    case InsertCount(e, at) =>
      (m.(len := (m.len + 1) % U64), Finished(Insert(e), Accepted, at, clock))
    case GetLoad(k) => (m, GetScan(k, m.head, time))
    case GetScan(k, cur, at) =>
      if cur == NULL then (m, Finished(Get(k), Answer(None), at, clock))
      else if m.heap[cur].entry.key == k
      then (m, Finished(Get(k), Answer(Live(Some(m.heap[cur].entry), clock)), at, clock))
      else (m, GetScan(k, m.heap[cur].next, at))
    case RemoveLoad(k) =>
      if m.head != NULL && m.heap[m.head].entry.key == k
      then (m, RemoveNext(k, m.head, time))
      else (m, Finished(Remove(k), Answer(None), time, clock))
    case RemoveNext(k, head, at) => (m, RemoveCas(k, head, m.heap[head].next, at))
    case RemoveCas(k, head, next, at) =>
      if m.head == head
      then (m.(head := next), RemoveCount(k, m.heap[head].entry.value, time))
      else (m, RemoveLoad(k))
    case RemoveCount(k, v, at) =>
      (m.(len := (m.len - 1) % U64), Finished(Remove(k), Answer(Some(v)), at, clock))
    case ClearLoad =>
      if m.head == NULL then (m, Finished(Clear, Cleared, time, clock)) else (m, ClearNext(m.head, time))
    case ClearNext(head, at) => (m, ClearCas(head, m.heap[head].next, at))
    case ClearCas(head, next, _) =>
      if m.head == head then (m.(head := next), ClearCount) else (m, ClearLoad)
    case ClearCount => (m.(len := (m.len - 1) % U64), ClearLoad)
    case Finished(_, _, _, _) => (m, pc)
  }

  /** Addresses a thread holds point into the heap. */
  predicate PcAddresses(heap: seq<Node>, pc: Pc) {
    match pc
    case InsertScan(_, head, cur, _) => -1 <= head < |heap| && -1 <= cur < |heap|
    case InsertCas(_, head, _) => -1 <= head < |heap|
    case GetScan(_, cur, _) => -1 <= cur < |heap|
    case RemoveNext(_, head, _) => 0 <= head < |heap|
    case RemoveCas(_, head, next, _) => 0 <= head < |heap| && -1 <= next < |heap|
    case ClearNext(head, _) => 0 <= head < |heap|
    case ClearCas(head, next, _) => 0 <= head < |heap| && -1 <= next < |heap|
    case _ => true
  }

  ghost predicate Enabled(s: State, m: Move) {
    && 0 <= m.thread < |s.threads|
    && var pc := s.threads[m.thread].pc;
    match m.action
    case Invoke(_) => pc.Idle?
    case Step(_) => !pc.Idle? && !pc.Finished?
    case Return => pc.Finished?
  }

  function After(capacity: nat, s: State, m: Move): State
    requires 0 <= m.thread < |s.threads|
    requires Address(s.mem.heap, s.mem.head) && PcAddresses(s.mem.heap, s.threads[m.thread].pc)
  {
    var th := s.threads[m.thread];
    match m.action
    case Invoke(call) =>
      State(s.mem, s.threads[m.thread := Thread(Start(call), s.time)], s.time + 1)
    case Step(clock) =>
      var (mem, pc) := Access(capacity, s.mem, th.pc, clock, s.time);
      State(mem, s.threads[m.thread := Thread(pc, th.since)], s.time + 1)
    case Return =>
      State(s.mem, s.threads[m.thread := Thread(Idle, th.since)], s.time + 1)
  }

  ghost predicate Initial(s: State) {
    && s.mem == Shared([], NULL, 0)
    && s.time == 0
    && |s.threads| > 0
    && forall i :: 0 <= i < |s.threads| ==> s.threads[i].pc == Idle
  }

  // ------------------------------------------------------------------------ the invariant

  /** What a thread in the middle of a call knows about the list. */
  ghost predicate Knows(heap: seq<Node>, pc: Pc)
    requires HeapOk(heap)
  {
    && PcAddresses(heap, pc)
    && match pc
       case InsertScan(e, head, cur, _) => Has(Chain(heap, head), e.key) == Has(Chain(heap, cur), e.key)
       case InsertCas(e, head, _) => !Has(Chain(heap, head), e.key)
       case RemoveNext(k, head, _) => heap[head].entry.key == k
       case RemoveCas(k, head, next, _) => heap[head].entry.key == k && heap[head].next == next
       case ClearCas(head, next, _) => heap[head].next == next
       case _ => true
  }

  ghost predicate Inv(s: State) {
    && HeapOk(s.mem.heap)
    && Address(s.mem.heap, s.mem.head)
    && Distinct(Stack(s))
    && forall i {:trigger s.threads[i]} :: 0 <= i < |s.threads| ==> Knows(s.mem.heap, s.threads[i].pc)
  }

  /** The abstract state: the entries of the list, head first. */
  ghost function Stack(s: State): seq<Entry>
    requires HeapOk(s.mem.heap) && Address(s.mem.heap, s.mem.head)
  {
    Chain(s.mem.heap, s.mem.head)
  }

  lemma KnowsSurvives(heap: seq<Node>, node: Node, pc: Pc)
    requires HeapOk(heap) && HeapOk(heap + [node]) && Knows(heap, pc)
    ensures Knows(heap + [node], pc)
  {
    match pc
    case InsertScan(_, head, cur, _) => ChainSurvives(heap, node, head); ChainSurvives(heap, node, cur);
    case InsertCas(_, head, _) => ChainSurvives(heap, node, head);
    case _ =>
  }

  /** What one access may do to memory: nothing to the list, a push, or a pop. */
  ghost predicate ListEffect(m: Shared, pc: Pc, m': Shared)
    requires HeapOk(m.heap) && Address(m.heap, m.head)
  {
    || (m'.heap == m.heap && m'.head == m.head)
    || (pc.InsertCas? && pc.head == m.head && m'.heap == m.heap + [Node(pc.entry, m.head)] && m'.head == |m.heap|
        && !Has(Chain(m.heap, m.head), pc.entry.key))
    || ((pc.RemoveCas? || pc.ClearCas?) && m.head != NULL && m'.heap == m.heap && m'.head == m.heap[m.head].next)
  }

  lemma AccessKeeps(capacity: nat, m: Shared, pc: Pc, clock: int, time: int)
    requires HeapOk(m.heap) && Address(m.heap, m.head) && Knows(m.heap, pc)
    ensures var (m', pc') := Access(capacity, m, pc, clock, time);
            HeapOk(m'.heap) && Address(m'.heap, m'.head) && Knows(m'.heap, pc') && ListEffect(m, pc, m')
  {
  }

  lemma EffectKeepsDistinct(m: Shared, pc: Pc, m': Shared)
    requires HeapOk(m.heap) && Address(m.heap, m.head) && HeapOk(m'.heap) && Address(m'.heap, m'.head)
    requires ListEffect(m, pc, m') && Distinct(Chain(m.heap, m.head))
    ensures Distinct(Chain(m'.heap, m'.head))
    ensures m'.heap == m.heap && m'.head == m.head ==> Chain(m'.heap, m'.head) == Chain(m.heap, m.head)
    ensures pc.InsertCas? && m'.heap != m.heap ==>
              Chain(m'.heap, m'.head) == [pc.entry] + Chain(m.heap, m.head)
    ensures m'.heap == m.heap && m'.head != m.head ==>
              m.head != NULL && Chain(m'.heap, m'.head) == Chain(m.heap, m.head)[1..]
  {
    if m'.heap != m.heap {
      assert |m'.heap| == |m.heap| + 1;
      ChainSurvives(m.heap, Node(pc.entry, m.head), m.head);
      PushKeepsDistinct(pc.entry, Chain(m.heap, m.head));
      assert Chain(m'.heap, m'.head) == [pc.entry] + Chain(m.heap, m.head);
    } else if m'.head != m.head {
      var before, after := Chain(m.heap, m.head), Chain(m'.heap, m'.head);
      assert before == [m.heap[m.head].entry] + after;
      assert forall i :: 0 <= i < |after| ==> after[i] == before[i + 1];
    }
  }

  /** Every step keeps the invariant, so in particular the keys stay distinct. */
  lemma StepKeepsInv(capacity: nat, s: State, m: Move)
    requires Inv(s) && Enabled(s, m)
    ensures Inv(After(capacity, s, m))
  {
    var s' := After(capacity, s, m);
    var pc := s.threads[m.thread].pc;
    if m.action.Step? {
      AccessKeeps(capacity, s.mem, pc, m.action.clock, s.time);
      EffectKeepsDistinct(s.mem, pc, s'.mem);
      if s'.mem.heap != s.mem.heap {
        forall i | 0 <= i < |s.threads| ensures Knows(s'.mem.heap, s.threads[i].pc) {
          KnowsSurvives(s.mem.heap, Node(pc.entry, pc.head), s.threads[i].pc);
        }
      }
    }
    forall i | 0 <= i < |s'.threads| ensures Knows(s'.mem.heap, s'.threads[i].pc) {
      if i != m.thread {
        assert s'.threads[i] == s.threads[i];
      }
    }
  }

  // ----------------------------------------------------------------------------- all runs

  /** `run` is a run of the machine under the schedule `moves`. */
  ghost predicate IsRun(capacity: nat, run: seq<State>, moves: seq<Move>) {
    && |run| == |moves| + 1
    && Initial(run[0])
    && forall j {:trigger moves[j]} :: 0 <= j < |moves| ==>
         && Enabled(run[j], moves[j])
         && Address(run[j].mem.heap, run[j].mem.head)
         && PcAddresses(run[j].mem.heap, run[j].threads[moves[j].thread].pc)
         && run[j + 1] == After(capacity, run[j], moves[j])
  }

  /** In every interleaving, no shard ever holds two nodes with the same key. */
  lemma {:induction false} KeysStayDistinct(capacity: nat, run: seq<State>, moves: seq<Move>, j: nat)
    requires IsRun(capacity, run, moves) && j < |run|
    ensures Inv(run[j]) && Distinct(Stack(run[j]))
    ensures run[j].time == j && |run[j].threads| == |run[0].threads|
  {
    if j == 0 {
    } else {
      KeysStayDistinct(capacity, run, moves, j - 1);
      assert Enabled(run[j - 1], moves[j - 1]);
      StepKeepsInv(capacity, run[j - 1], moves[j - 1]);
    }
  }

  // ----------------------------------------------------------------------- linearisability

  function CallOf(pc: Pc): Option<Call> {
    match pc
    case Idle => None
    case InsertCheck(e) => Some(Insert(e))
    case InsertLoad(e) => Some(Insert(e))
    case InsertScan(e, _, _, _) => Some(Insert(e))
    case InsertCas(e, _, _) => Some(Insert(e))
    case InsertCount(e, _) => Some(Insert(e))
    case GetLoad(k) => Some(Get(k))
    case GetScan(k, _, _) => Some(Get(k))
    case RemoveLoad(k) => Some(Remove(k))
    case RemoveNext(k, _, _) => Some(Remove(k))
    case RemoveCas(k, _, _, _) => Some(Remove(k))
    case RemoveCount(k, _, _) => Some(Remove(k))
    case ClearLoad => Some(Clear)
    case ClearNext(_, _) => Some(Clear)
    case ClearCas(_, _, _) => Some(Clear)
    case ClearCount => Some(Clear)
    case Finished(c, _, _, _) => Some(c)
  }

  ghost predicate AllInv(run: seq<State>) {
    forall j {:trigger run[j]} :: 0 <= j < |run| ==> Inv(run[j])
  }

  /** Step `at` lies after step `since`, before state j, and is a step of thread i. */
  ghost predicate Within(moves: seq<Move>, i: int, since: int, at: int, j: int) {
    since < at < j <= |moves| && 0 <= at && moves[at].thread == i
  }

  /** A head load in step `at` saw the list that starts at `head`, and changed nothing. */
  ghost predicate LoadedAt(run: seq<State>, at: int, heap: seq<Node>, head: int)
    requires AllInv(run) && HeapOk(heap) && Address(heap, head)
  {
    && 0 <= at < |run| - 1
    && Stack(run[at + 1]) == Stack(run[at]) == Chain(heap, head)
    && run[at].mem.head == head
  }

  /** Thread i, in the call invoked in step `since`, loaded `head` in step `at` and still holds it in state j. */
  ghost predicate Saw(run: seq<State>, moves: seq<Move>, i: int, since: int, at: int, j: int, head: int)
    requires AllInv(run) && 0 <= j < |run|
  {
    Within(moves, i, since, at, j) && Address(run[j].mem.heap, head) && LoadedAt(run, at, run[j].mem.heap, head)
  }

  /** Step `at` of thread i, in the call invoked in step `since`, is the call's atomic operation. */
  ghost predicate Performed(run: seq<State>, moves: seq<Move>, i: int, since: int, at: int, j: int,
                            call: Call, clock: int, reply: Reply)
    requires AllInv(run) && 0 <= j < |run| && |run| == |moves| + 1
  {
    Within(moves, i, since, at, j) && Atomic(call, Stack(run[at]), clock, reply, Stack(run[at + 1]))
  }

  /** A head load in step `at` found for key k what is still found from `cur` on. */
  ghost predicate Searching(run: seq<State>, moves: seq<Move>, i: int, since: int, at: int, j: int, k: Key, cur: int)
    requires AllInv(run) && 0 <= j < |run| && |run| == |moves| + 1
  {
    && Within(moves, i, since, at, j) && Address(run[j].mem.heap, cur)
    && Stack(run[at + 1]) == Stack(run[at])
    && Find(Stack(run[at]), k) == Find(Chain(run[j].mem.heap, cur), k)
  }

  /** What the history says about a thread i that stands at `th` in state j. */
  ghost predicate Explained(run: seq<State>, moves: seq<Move>, i: int, th: Thread, j: int)
    requires AllInv(run) && 0 <= j < |run| && |run| == |moves| + 1
  {
    && (!th.pc.Idle? ==> 0 <= th.since < j && moves[th.since] == Move(i, Invoke(CallOf(th.pc).value)))
    && match th.pc
       case InsertScan(_, head, _, at) => Saw(run, moves, i, th.since, at, j, head)
       case InsertCas(_, head, at) => Saw(run, moves, i, th.since, at, j, head)
       case InsertCount(e, at) => Performed(run, moves, i, th.since, at, j, Insert(e), 0, Accepted)
       case GetScan(k, cur, at) => Searching(run, moves, i, th.since, at, j, k, cur)
       case RemoveNext(_, head, at) => Saw(run, moves, i, th.since, at, j, head)
       case RemoveCas(_, head, _, at) => Saw(run, moves, i, th.since, at, j, head)
       case RemoveCount(k, v, at) => Performed(run, moves, i, th.since, at, j, Remove(k), 0, Answer(Some(v)))
       case ClearNext(head, at) => Saw(run, moves, i, th.since, at, j, head)
       case ClearCas(head, _, at) => Saw(run, moves, i, th.since, at, j, head)
       case Finished(call, reply, at, clock) =>
         reply == Full || Performed(run, moves, i, th.since, at, j, call, clock, reply)
       case _ => true
  }

  /** The heap of the next state holds every list of this one. */
  lemma ListsSurvive(capacity: nat, run: seq<State>, moves: seq<Move>, j: nat, a: int)
    requires IsRun(capacity, run, moves) && AllInv(run) && j + 1 < |run| && Address(run[j].mem.heap, a)
    ensures Address(run[j + 1].mem.heap, a) && Chain(run[j + 1].mem.heap, a) == Chain(run[j].mem.heap, a)
  {
    var heap, heap' := run[j].mem.heap, run[j + 1].mem.heap;
    var m := moves[j];
    assert Inv(run[j]) && Inv(run[j + 1]) && Enabled(run[j], m);
    var pc := run[j].threads[m.thread].pc;
    if m.action.Step? {
      AccessKeeps(capacity, run[j].mem, pc, m.action.clock, run[j].time);
    }
    if heap' != heap {
      ChainSurvives(heap, Node(pc.entry, pc.head), a);
    }
  }

  lemma ExplainedSurvives(capacity: nat, run: seq<State>, moves: seq<Move>, i: int, th: Thread, j: nat)
    requires IsRun(capacity, run, moves) && AllInv(run) && j + 1 < |run|
    requires Explained(run, moves, i, th, j)
    ensures Explained(run, moves, i, th, j + 1)
  {
    assert Inv(run[j]) && Inv(run[j + 1]);
    hide Chain, Find, Atomic, IsRun, Inv;
    match th.pc
    case InsertScan(_, head, _, _) => ListsSurvive(capacity, run, moves, j, head);
    case InsertCas(_, head, _) => ListsSurvive(capacity, run, moves, j, head);
    case RemoveNext(_, head, _) => ListsSurvive(capacity, run, moves, j, head);
    case RemoveCas(_, head, _, _) => ListsSurvive(capacity, run, moves, j, head);
    case ClearNext(head, _) => ListsSurvive(capacity, run, moves, j, head);
    case ClearCas(head, _, _) => ListsSurvive(capacity, run, moves, j, head);
    case GetScan(_, cur, _) => ListsSurvive(capacity, run, moves, j, cur);
    case _ =>
  }

  lemma ChainUnrolls(heap: seq<Node>, a: int)
    requires HeapOk(heap) && Address(heap, a)
    ensures a == NULL ==> Chain(heap, a) == []
    ensures a != NULL ==> Chain(heap, a) == [heap[a].entry] + Chain(heap, heap[a].next)
  {
  }

  lemma FindNothing(key: Key)
    ensures Find([], key) == None
  {
  }

  lemma FindUnrolls(e: Entry, rest: seq<Entry>, key: Key)
    ensures Find([e] + rest, key) == if e.key == key then Some(e) else Find(rest, key)
  {
  }

  /** Step j of the run is one access of its thread, with what it does to the stack. */
  ghost predicate Accesses(capacity: nat, run: seq<State>, moves: seq<Move>, j: nat)
    requires AllInv(run) && |run| == |moves| + 1
  {
    && j < |moves| && 0 <= moves[j].thread < |run[j].threads| == |run[j + 1].threads| && moves[j].action.Step?
    && Inv(run[j]) && Inv(run[j + 1])
    && var s, s', th := run[j], run[j + 1], run[j].threads[moves[j].thread];
       && Knows(s.mem.heap, th.pc) && s.time == j
       && (s'.mem, s'.threads[moves[j].thread].pc) == Access(capacity, s.mem, th.pc, moves[j].action.clock, j)
       && s'.threads[moves[j].thread].since == th.since
       && (s'.mem.heap == s.mem.heap && s'.mem.head == s.mem.head ==> Stack(s') == Stack(s))
       && (s'.mem.heap != s.mem.heap ==> th.pc.InsertCas? && Stack(s') == [th.pc.entry] + Stack(s))
       && (s'.mem.heap == s.mem.heap && s'.mem.head != s.mem.head ==>
             s.mem.head != NULL && Stack(s') == Stack(s)[1..])
  }

  lemma StepAccesses(capacity: nat, run: seq<State>, moves: seq<Move>, j: nat)
    requires IsRun(capacity, run, moves) && AllInv(run) && j < |moves| && moves[j].action.Step? && run[j].time == j
    ensures Accesses(capacity, run, moves, j)
  {
    var s, m := run[j], moves[j];
    assert Inv(s) && Inv(run[j + 1]) && Enabled(s, m);
    var pc := s.threads[m.thread].pc;
    hide Chain, Find, Distinct;
    AccessKeeps(capacity, s.mem, pc, m.action.clock, s.time);
    EffectKeepsDistinct(s.mem, pc, run[j + 1].mem);
  }

  /** The access of one thread carries its explanation on, call by call. */
  lemma InserterExplained(capacity: nat, run: seq<State>, moves: seq<Move>, j: nat)
    requires AllInv(run) && |run| == |moves| + 1 && Accesses(capacity, run, moves, j)
    requires var pc := run[j].threads[moves[j].thread].pc;
             pc.InsertCheck? || pc.InsertLoad? || pc.InsertScan? || pc.InsertCas? || pc.InsertCount?
    requires Explained(run, moves, moves[j].thread, run[j].threads[moves[j].thread], j)
    ensures Explained(run, moves, moves[j].thread, run[j + 1].threads[moves[j].thread], j + 1)
  {
    var s := run[j];
    var pc := s.threads[moves[j].thread].pc;
    hide Chain, Find, AllInv, Distinct;
    if pc.InsertScan? {
      ChainUnrolls(s.mem.heap, pc.cur);
      if pc.cur != NULL {
        FindUnrolls(s.mem.heap[pc.cur].entry, Chain(s.mem.heap, s.mem.heap[pc.cur].next), pc.entry.key);
      }
    }
  }

  lemma GetterExplained(capacity: nat, run: seq<State>, moves: seq<Move>, j: nat)
    requires AllInv(run) && |run| == |moves| + 1 && Accesses(capacity, run, moves, j)
    requires var pc := run[j].threads[moves[j].thread].pc; pc.GetLoad? || pc.GetScan?
    requires Explained(run, moves, moves[j].thread, run[j].threads[moves[j].thread], j)
    ensures Explained(run, moves, moves[j].thread, run[j + 1].threads[moves[j].thread], j + 1)
  {
    var s := run[j];
    var pc := s.threads[moves[j].thread].pc;
    hide Chain, Find, AllInv, Distinct;
    if pc.GetScan? {
      ChainUnrolls(s.mem.heap, pc.cur);
      if pc.cur == NULL {
        FindNothing(pc.key);
      } else {
        FindUnrolls(s.mem.heap[pc.cur].entry, Chain(s.mem.heap, s.mem.heap[pc.cur].next), pc.key);
      }
    }
  }

  lemma RemoverExplained(capacity: nat, run: seq<State>, moves: seq<Move>, j: nat)
    requires AllInv(run) && |run| == |moves| + 1 && Accesses(capacity, run, moves, j)
    requires var pc := run[j].threads[moves[j].thread].pc;
             pc.RemoveLoad? || pc.RemoveNext? || pc.RemoveCas? || pc.RemoveCount?
    requires Explained(run, moves, moves[j].thread, run[j].threads[moves[j].thread], j)
    ensures Explained(run, moves, moves[j].thread, run[j + 1].threads[moves[j].thread], j + 1)
  {
    ChainUnrolls(run[j].mem.heap, run[j].mem.head);
    hide Chain, Find, AllInv, Distinct;
  }

  lemma ClearerExplained(capacity: nat, run: seq<State>, moves: seq<Move>, j: nat)
    requires AllInv(run) && |run| == |moves| + 1 && Accesses(capacity, run, moves, j)
    requires var pc := run[j].threads[moves[j].thread].pc;
             pc.ClearLoad? || pc.ClearNext? || pc.ClearCas? || pc.ClearCount?
    requires Explained(run, moves, moves[j].thread, run[j].threads[moves[j].thread], j)
    ensures Explained(run, moves, moves[j].thread, run[j + 1].threads[moves[j].thread], j + 1)
  {
    ChainUnrolls(run[j].mem.heap, run[j].mem.head);
    hide Chain, Find, AllInv, Distinct;
  }

  lemma MoverExplained(capacity: nat, run: seq<State>, moves: seq<Move>, j: nat)
    requires IsRun(capacity, run, moves) && AllInv(run) && j < |moves| && run[j].time == j
    requires Enabled(run[j], moves[j])
    requires Explained(run, moves, moves[j].thread, run[j].threads[moves[j].thread], j)
    ensures moves[j].thread < |run[j + 1].threads|
    ensures Explained(run, moves, moves[j].thread, run[j + 1].threads[moves[j].thread], j + 1)
  {
    var m := moves[j];
    var pc := run[j].threads[m.thread].pc;
    hide Chain, Find, Atomic, Saw, Performed, Searching, AllInv;
    if m.action.Step? {
      StepAccesses(capacity, run, moves, j);
      hide Explained;
      if pc.InsertCheck? || pc.InsertLoad? || pc.InsertScan? || pc.InsertCas? || pc.InsertCount? {
        InserterExplained(capacity, run, moves, j);
      } else if pc.GetLoad? || pc.GetScan? {
        GetterExplained(capacity, run, moves, j);
      } else if pc.RemoveLoad? || pc.RemoveNext? || pc.RemoveCas? || pc.RemoveCount? {
        RemoverExplained(capacity, run, moves, j);
      } else {
        ClearerExplained(capacity, run, moves, j);
      }
    }
  }

  lemma OneStepExplained(capacity: nat, run: seq<State>, moves: seq<Move>, j: nat, i: nat)
    requires IsRun(capacity, run, moves) && AllInv(run) && j + 1 < |run| && run[j].time == j
    requires i < |run[j].threads| && Explained(run, moves, i, run[j].threads[i], j)
    ensures i < |run[j + 1].threads|
    ensures Explained(run, moves, i, run[j + 1].threads[i], j + 1)
  {
    assert Enabled(run[j], moves[j]);
    assert Inv(run[j]) && Inv(run[j + 1]);
    if moves[j].thread == i {
      MoverExplained(capacity, run, moves, j);
    } else {
      ExplainedSurvives(capacity, run, moves, i, run[j].threads[i], j);
    }
  }

  lemma {:induction false} EveryThreadExplained(capacity: nat, run: seq<State>, moves: seq<Move>, j: nat, i: nat)
    requires IsRun(capacity, run, moves) && AllInv(run) && j < |run| && i < |run[0].threads|
    ensures |run[j].threads| == |run[0].threads|
    ensures Explained(run, moves, i, run[j].threads[i], j)
  {
    KeysStayDistinct(capacity, run, moves, j);
    if j > 0 {
      KeysStayDistinct(capacity, run, moves, j - 1);
      EveryThreadExplained(capacity, run, moves, j - 1, i);
      OneStepExplained(capacity, run, moves, j - 1, i);
    }
  }

  /** Step `since` invoked the call that thread i is still in at state j. */
  ghost predicate InCall(moves: seq<Move>, i: int, since: int, j: int) {
    && 0 <= since < j <= |moves| && moves[since].thread == i && moves[since].action.Invoke?
    && forall k :: since < k < j && moves[k].thread == i ==> moves[k].action.Step?
  }

  /** The call's operation is done: it took place in step `at`. */
  predicate Decided(pc: Pc) {
    pc.InsertCount? || pc.RemoveCount? || pc.Finished?
  }

  ghost predicate MovesStack(run: seq<State>, k: nat)
    requires AllInv(run) && k + 1 < |run|
  {
    Stack(run[k + 1]) != Stack(run[k])
  }

  /** If step k is thread i's and moves the stack, it is the deciding one, or pops in a clear. */
  ghost predicate MovesAsDecided(run: seq<State>, moves: seq<Move>, i: int, pc: Pc, k: nat)
    requires AllInv(run) && k + 1 < |run| == |moves| + 1 && !pc.Idle?
  {
    moves[k].thread == i && MovesStack(run, k) ==>
      if CallOf(pc) == Some(Clear) then Stack(run[k]) != [] && Stack(run[k + 1]) == Stack(run[k])[1..]
      else Decided(pc) && k == pc.at
  }

  /** Of the steps of thread i since its invocation, only the deciding one moved the stack; a clear pops. */
  ghost predicate MovedOnlyAsDecided(run: seq<State>, moves: seq<Move>, i: int, th: Thread, j: nat)
    requires AllInv(run) && j < |run| == |moves| + 1 && !th.pc.Idle?
  {
    forall k: nat :: th.since < k < j ==> MovesAsDecided(run, moves, i, th.pc, k)
  }

  ghost predicate CallHistory(run: seq<State>, moves: seq<Move>, i: int, th: Thread, j: nat)
    requires AllInv(run) && j < |run| == |moves| + 1
  {
    !th.pc.Idle? ==> InCall(moves, i, th.since, j) && MovedOnlyAsDecided(run, moves, i, th, j)
  }

  /** What one access means for the call it belongs to. */
  lemma AccessInCall(capacity: nat, run: seq<State>, moves: seq<Move>, j: nat)
    requires AllInv(run) && |run| == |moves| + 1 && Accesses(capacity, run, moves, j)
    requires !run[j].threads[moves[j].thread].pc.Idle? && !run[j].threads[moves[j].thread].pc.Finished?
    ensures var pc, pc' := run[j].threads[moves[j].thread].pc, run[j + 1].threads[moves[j].thread].pc;
            && CallOf(pc') == CallOf(pc) != None
            && (Decided(pc) ==> Decided(pc') && pc'.at == pc.at && !MovesStack(run, j))
            && (MovesStack(run, j) && CallOf(pc) != Some(Clear) ==> Decided(pc') && pc'.at == j)
            && (MovesStack(run, j) && CallOf(pc) == Some(Clear) ==>
                  Stack(run[j]) != [] && Stack(run[j + 1]) == Stack(run[j])[1..])
  {
    ChainUnrolls(run[j].mem.heap, run[j].mem.head);
    hide Chain, Find, Distinct, AllInv;
  }

  /** A later place of the same call, with the same decision, keeps what was told of a step. */
  lemma ToldStays(run: seq<State>, moves: seq<Move>, i: int, pc: Pc, pc': Pc, k: nat)
    requires AllInv(run) && k + 1 < |run| == |moves| + 1 && !pc.Idle? && !pc'.Idle?
    requires MovesAsDecided(run, moves, i, pc, k) && CallOf(pc') == CallOf(pc)
    requires Decided(pc) ==> Decided(pc') && pc'.at == pc.at
    ensures MovesAsDecided(run, moves, i, pc', k)
  {
  }

  lemma OwnStepToHistory(capacity: nat, run: seq<State>, moves: seq<Move>, j: nat)
    requires AllInv(run) && |run| == |moves| + 1 && Accesses(capacity, run, moves, j)
    requires !run[j].threads[moves[j].thread].pc.Idle? && !run[j].threads[moves[j].thread].pc.Finished?
    requires CallHistory(run, moves, moves[j].thread, run[j].threads[moves[j].thread], j)
    ensures CallHistory(run, moves, moves[j].thread, run[j + 1].threads[moves[j].thread], j + 1)
  {
    var i := moves[j].thread;
    var th, th' := run[j].threads[i], run[j + 1].threads[i];
    AccessInCall(capacity, run, moves, j);
    NoCallIsIdle(th'.pc);
    assert th'.since == th.since;
    hide AllInv, MovesStack, Stack, MovesAsDecided, CallOf, Accesses;
    forall k: nat | th.since < k < j ensures MovesAsDecided(run, moves, i, th'.pc, k) {
      ToldStays(run, moves, i, th.pc, th'.pc, k);
    }
    AccessIsTold(run, moves, i, th'.pc, j);
  }

  lemma OtherStepToHistory(run: seq<State>, moves: seq<Move>, i: int, th: Thread, j: nat)
    requires AllInv(run) && j + 1 < |run| == |moves| + 1 && moves[j].thread != i
    requires CallHistory(run, moves, i, th, j)
    ensures CallHistory(run, moves, i, th, j + 1)
  {
    hide AllInv, MovesStack, Stack, MovesAsDecided, CallOf;
    if !th.pc.Idle? {
      AccessIsTold(run, moves, i, th.pc, j);
    }
  }

  lemma HistoryGrows(capacity: nat, run: seq<State>, moves: seq<Move>, j: nat, i: nat)
    requires IsRun(capacity, run, moves) && AllInv(run) && j < |moves| && run[j].time == j
    requires i < |run[j].threads| == |run[j + 1].threads| && CallHistory(run, moves, i, run[j].threads[i], j)
    ensures CallHistory(run, moves, i, run[j + 1].threads[i], j + 1)
  {
    assert Enabled(run[j], moves[j]);
    if moves[j].thread != i {
      assert run[j + 1].threads[i] == run[j].threads[i];
      OtherStepToHistory(run, moves, i, run[j].threads[i], j);
    } else if moves[j].action.Step? {
      StepAccesses(capacity, run, moves, j);
      OwnStepToHistory(capacity, run, moves, j);
    }
  }

  lemma NoCallIsIdle(pc: Pc)
    ensures CallOf(pc) == None <==> pc.Idle?
  {
  }

  lemma AccessIsTold(run: seq<State>, moves: seq<Move>, i: int, pc: Pc, j: nat)
    requires AllInv(run) && j + 1 < |run| == |moves| + 1 && !pc.Idle?
    requires moves[j].thread == i && MovesStack(run, j) ==>
               if CallOf(pc) == Some(Clear) then Stack(run[j]) != [] && Stack(run[j + 1]) == Stack(run[j])[1..]
               else Decided(pc) && pc.at == j
    ensures MovesAsDecided(run, moves, i, pc, j)
  {
  }

  lemma {:induction false} EveryCallHasItsHistory(capacity: nat, run: seq<State>, moves: seq<Move>, j: nat, i: nat)
    requires IsRun(capacity, run, moves) && AllInv(run) && j < |run| && i < |run[0].threads|
    ensures |run[j].threads| == |run[0].threads| && CallHistory(run, moves, i, run[j].threads[i], j)
  {
    KeysStayDistinct(capacity, run, moves, j);
    if j > 0 {
      KeysStayDistinct(capacity, run, moves, j - 1);
      EveryCallHasItsHistory(capacity, run, moves, j - 1, i);
      HistoryGrows(capacity, run, moves, j - 1, i);
    }
  }

  lemma InvariantThroughout(capacity: nat, run: seq<State>, moves: seq<Move>)
    requires IsRun(capacity, run, moves)
    ensures AllInv(run)
  {
    forall k | 0 <= k < |run| ensures Inv(run[k]) {
      KeysStayDistinct(capacity, run, moves, k);
    }
  }

  /**
   * Linearisability. Whenever a call returns in step j (capacity refusals aside), it was
   * invoked in step `since`, the thread has done nothing but steps of this call in between, and
   * one of them, `at`, is one atomic operation of the keyed stack with that call and that
   * answer. No other step of the call moves the stack, save that a clear pops it.
   */
  lemma Linearisable(capacity: nat, run: seq<State>, moves: seq<Move>, j: nat)
    returns (since: nat, at: nat)
    requires IsRun(capacity, run, moves) && j < |moves| && moves[j].action == Return
    requires run[j].threads[moves[j].thread].pc.reply != Full
    ensures since < at < j && AllInv(run) && at == run[j].threads[moves[j].thread].pc.at
    ensures moves[at].thread == moves[j].thread
    ensures forall k :: since < k < j && moves[k].thread == moves[j].thread ==> moves[k].action.Step?
    ensures var done := run[j].threads[moves[j].thread].pc;
            && moves[since] == Move(moves[j].thread, Invoke(done.call))
            && Atomic(done.call, Stack(run[at]), done.clock, done.reply, Stack(run[at + 1]))
            && (done.call != Clear ==> forall k :: since < k < j && k != at && moves[k].thread == moves[j].thread ==>
                  Stack(run[k + 1]) == Stack(run[k]))
            && (done.call == Clear ==> forall k :: since < k < j && moves[k].thread == moves[j].thread ==>
                  || Stack(run[k + 1]) == Stack(run[k])
                  || (Stack(run[k]) != [] && Stack(run[k + 1]) == Stack(run[k])[1..]))
  {
    InvariantThroughout(capacity, run, moves);
    assert Enabled(run[j], moves[j]);
    KeysStayDistinct(capacity, run, moves, j);
    EveryThreadExplained(capacity, run, moves, j, moves[j].thread);
    EveryCallHasItsHistory(capacity, run, moves, j, moves[j].thread);
    since, at := run[j].threads[moves[j].thread].since, run[j].threads[moves[j].thread].pc.at;
    hide IsRun, AllInv, Stack, Atomic, MovedOnlyAsDecided, Knows;
    HistoryTold(run, moves, moves[j].thread, run[j].threads[moves[j].thread], j);
  }

  lemma HistoryTold(run: seq<State>, moves: seq<Move>, i: int, th: Thread, j: nat)
    requires AllInv(run) && j < |run| == |moves| + 1 && th.pc.Finished? && 0 <= th.since < j
    requires MovedOnlyAsDecided(run, moves, i, th, j)
    ensures th.pc.call != Clear ==> forall k :: th.since < k < j && k != th.pc.at && moves[k].thread == i ==>
              Stack(run[k + 1]) == Stack(run[k])
    ensures th.pc.call == Clear ==> forall k :: th.since < k < j && moves[k].thread == i ==>
              || Stack(run[k + 1]) == Stack(run[k])
              || (Stack(run[k]) != [] && Stack(run[k + 1]) == Stack(run[k])[1..])
  {
    hide Stack;
    forall k: nat | th.since < k < j && moves[k].thread == i && (th.pc.call == Clear || k != th.pc.at)
      ensures || Stack(run[k + 1]) == Stack(run[k])
              || (th.pc.call == Clear && Stack(run[k]) != [] && Stack(run[k + 1]) == Stack(run[k])[1..])
    {
      assert MovesAsDecided(run, moves, i, th.pc, k);
    }
  }

  /**
   * Nothing but the linearisation points moves the abstract stack: a step that changes it is
   * the successful CAS of an insert (pushing an absent key), of a remove (popping its own
   * key) or of a clear (popping the top).
   */
  lemma OnlyCasMovesTheStack(capacity: nat, s: State, m: Move)
    requires Inv(s) && Enabled(s, m)
    requires Inv(After(capacity, s, m)) && Stack(After(capacity, s, m)) != Stack(s)
    ensures var pc, before, after := s.threads[m.thread].pc, Stack(s), Stack(After(capacity, s, m));
            || (pc.InsertCas? && Atomic(Insert(pc.entry), before, 0, Accepted, after))
            || (pc.RemoveCas? && before != [] && Atomic(Remove(pc.key), before, 0, Answer(Some(before[0].value)), after))
            || (pc.ClearCas? && before != [] && after == before[1..])
  {
    var pc := s.threads[m.thread].pc;
    AccessKeeps(capacity, s.mem, pc, m.action.clock, s.time);
    EffectKeepsDistinct(s.mem, pc, After(capacity, s, m).mem);
  }

  /** The thread is about to swing the head from what it loaded in step `at`. */
  predicate AtCas(pc: Pc) {
    pc.InsertCas? || pc.RemoveCas? || pc.ClearCas?
  }

  /**
   * Lock freedom: a CAS of an insert, a remove or a clear fails only when, between that
   * thread's head load and now, another step moved the head.
   */
  lemma FailedCasMeansProgress(capacity: nat, run: seq<State>, moves: seq<Move>, j: nat, i: nat) returns (k: nat)
    requires IsRun(capacity, run, moves) && j < |run| && i < |run[0].threads|
    requires |run[j].threads| == |run[0].threads| && AtCas(run[j].threads[i].pc)
    requires run[j].mem.head != run[j].threads[i].pc.head
    ensures run[j].threads[i].pc.at <= k < j
    ensures run[k].mem.head != run[k + 1].mem.head
  {
    InvariantThroughout(capacity, run, moves);
    EveryThreadExplained(capacity, run, moves, j, i);
    k := run[j].threads[i].pc.at;
    hide IsRun, AllInv;
    while run[k].mem.head == run[k + 1].mem.head
      invariant run[j].threads[i].pc.at <= k < j
      invariant run[k].mem.head == run[j].threads[i].pc.head
      decreases j - k
    {
      k := k + 1;
    }
  }
}
