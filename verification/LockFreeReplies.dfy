/**
 * What insert and get of a shard of the lock-free cache (src/core/lockfree.rs) answer, spelled
 * out by the entries of the list and the clock.
 */
module LockFreeReplies {
  import opened Basics
  import opened LockFreeShard

  /** e is an entry of the stack with this key. */
  ghost predicate Holds(stack: seq<Entry>, key: Key, e: Entry) {
    e.key == key && exists i :: 0 <= i < |stack| && stack[i] == e
  }

  ghost predicate Fresh(e: Entry, clock: int) {
    e.expires.None? || clock <= e.expires.value
  }

  /** In a stack of distinct keys the search finds the one entry of the key. */
  lemma {:induction false} FindsTheEntry(stack: seq<Entry>, key: Key)
    requires Distinct(stack)
    ensures forall e :: Find(stack, key) == Some(e) <==> Holds(stack, key, e)
  {
    if stack == [] {
    } else {
      var rest := stack[1..];
      assert Distinct(rest);
      FindsTheEntry(rest, key);
      forall e ensures Holds(stack, key, e) <==> e.key == key && (e == stack[0] || Holds(rest, key, e)) {
        if Holds(rest, key, e) {
          var i :| 0 <= i < |rest| && rest[i] == e;
          assert stack[i + 1] == e;
        }
        if i :| 0 <= i < |stack| && stack[i] == e && i > 0 {
          assert rest[i - 1] == e;
        }
      }
      if stack[0].key == key {
        forall i | 0 <= i < |rest| ensures rest[i].key != key {
          assert rest[i] == stack[i + 1];
        }
      }
    }
  }

  /** The answers of insert and get by the entries of the stack they met. */
  ghost predicate Spelled(call: Call, before: seq<Entry>, clock: int, reply: Reply, after: seq<Entry>) {
    match call
    case Insert(e) =>
      if exists present :: Holds(before, e.key, present)
      then reply == Exists && after == before
      else reply == Accepted && after == [e] + before
    case Get(k) =>
      && reply.Answer? && after == before
      && (forall v :: reply == Answer(Some(v)) <==> exists e :: Holds(before, k, e) && e.value == v && Fresh(e, clock))
      && (reply == Answer(None) <==>
            forall e :: Holds(before, k, e) ==> e.expires.Some? && e.expires.value < clock)
    case _ => true
  }

  lemma AnswersSpelled(call: Call, before: seq<Entry>, clock: int, reply: Reply, after: seq<Entry>)
    requires Distinct(before) && Atomic(call, before, clock, reply, after)
    ensures Spelled(call, before, clock, reply, after)
  {
    match call
    case Insert(e) => FindsTheEntry(before, e.key);
    case Get(k) =>
      FindsTheEntry(before, k);
      if Has(before, k) {
        assert Holds(before, k, Find(before, k).value);
      }
    case _ =>
  }

  /** The clock a finished call read is that of its last step. */
  lemma {:induction false} LastStepsClock(capacity: nat, run: seq<State>, moves: seq<Move>, j: nat, i: nat) returns (k: nat)
    requires IsRun(capacity, run, moves) && AllInv(run) && j < |run| && i < |run[0].threads|
    requires |run[j].threads| == |run[0].threads| && run[j].threads[i].pc.Finished?
    ensures k < j && moves[k] == Move(i, Step(run[j].threads[i].pc.clock))
    ensures |run[k + 1].threads| == |run[0].threads|
    ensures run[k + 1].threads[i] == run[j].threads[i]
  {
    KeysStayDistinct(capacity, run, moves, j);
    assert j > 0;
    KeysStayDistinct(capacity, run, moves, j - 1);
    assert Enabled(run[j - 1], moves[j - 1]);
    if moves[j - 1].thread == i {
      k := j - 1;
    } else {
      k := LastStepsClock(capacity, run, moves, j - 1, i);
    }
  }

  /**
   * What insert and get answer. Whenever such a call returns in step j (capacity refusals
   * aside), its answer is right for the entries of the list at its step `at` and for the clock
   * it read in its step `scan`: get gives a value exactly when the entry of its key holds it
   * and has not expired by then, and nothing exactly when every entry of the key has.
   */
  lemma RepliesSpelledOut(capacity: nat, run: seq<State>, moves: seq<Move>, j: nat)
    returns (since: nat, at: nat, scan: nat)
    requires IsRun(capacity, run, moves) && j < |moves| && moves[j].action == Return
    requires run[j].threads[moves[j].thread].pc.reply != Full
    ensures since < at <= scan < j && AllInv(run)
    ensures moves[at].thread == moves[scan].thread == moves[j].thread
    ensures moves[since] == Move(moves[j].thread, Invoke(run[j].threads[moves[j].thread].pc.call))
    ensures moves[scan].action.Step?
    ensures var done := run[j].threads[moves[j].thread].pc;
            Spelled(done.call, Stack(run[at]), moves[scan].action.clock, done.reply, Stack(run[at + 1]))
  {
    since, at := Linearisable(capacity, run, moves, j);
    assert Enabled(run[j], moves[j]);
    var i: nat := moves[j].thread;
    KeysStayDistinct(capacity, run, moves, j);
    scan := LastStepsClock(capacity, run, moves, j, i);
    EveryThreadExplained(capacity, run, moves, scan + 1, i);
    var done := run[j].threads[i].pc;
    KeysStayDistinct(capacity, run, moves, at);
    AnswersSpelled(done.call, Stack(run[at]), done.clock, done.reply, Stack(run[at + 1]));
  }
}
