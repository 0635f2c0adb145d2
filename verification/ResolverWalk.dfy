/**
 * The iterative resolver's walk as a whole (src/plugins/recursive_backend.rs): the levels one
 * question passes through, from the root servers down, and what follows for every such walk.
 */
module ResolverWalk {
  import opened Basics
  import opened ResolverLog

  /** What happened on a level, the servers it was given and how it ended. */
  datatype Level = Level(events: seq<Event>, servers: seq<Ip>,
                         answer: Option<Result>, next: seq<Ip>, lastError: Option<Error>)

  /** The budgets and the trusted resolver of one call. */
  datatype Budget = Budget(depth: nat, cnameDepth: nat, hasTrusted: bool)

  ghost function Flat(levels: seq<Level>): seq<Event> {
    if levels == [] then [] else Flat(levels[..|levels| - 1]) + levels[|levels| - 1].events
  }

  /** The level ended as its events require. */
  ghost predicate Ended(level: Level, q: Question, depth: nat, cnameDepth: nat, hasTrusted: bool)
    requires depth > 0
  {
    LevelSpec(level.events, q, level.servers, depth, cnameDepth, hasTrusted, level.answer, level.next, level.lastError)
  }

  ghost predicate LevelAt(levels: seq<Level>, i: nat, q: Question, b: Budget) {
    && i < |levels| && i < b.depth
    && Ended(levels[i], q, b.depth - i, b.cnameDepth, b.hasTrusted)
  }

  /** The addresses the level after these is given. */
  ghost function NextOf(levels: seq<Level>, roots: seq<Ip>): seq<Ip> {
    if levels == [] then roots else levels[|levels| - 1].next
  }

  ghost predicate Permutes(shuffled: seq<Ip>, ips: seq<Ip>) {
    multiset(shuffled) == multiset(ips)
  }

  /** Level i asks a permutation of the roots (the first), or of what the level before gave it. */
  ghost predicate Given(levels: seq<Level>, i: nat, roots: seq<Ip>) {
    i < |levels| && Permutes(levels[i].servers, if i == 0 then roots else levels[i - 1].next)
  }

  ghost predicate GoesOn(level: Level) {
    level.answer.None? && level.next != []
  }

  /** The levels of a walk, in order, at one depth less each. */
  ghost predicate Levels(levels: seq<Level>, q: Question, roots: seq<Ip>, b: Budget) {
    && |levels| <= b.depth
    && (forall i: nat :: i < |levels| ==> LevelAt(levels, i, q, b) && Given(levels, i, roots))
    && AllGoOn(levels)
  }

  /** All levels but the last go on. */
  ghost predicate AllGoOn(levels: seq<Level>) {
    forall i: nat :: i + 1 < |levels| ==> GoesOn(levels[i])
  }

  /** How the last level gives the result: its answer, its failure, or no depth left to go on. */
  ghost predicate Outcome(last: Level, depthUsed: nat, depth: nat, r: Result) {
    match last.answer
    case Some(answer) => r == answer
    case None =>
      if last.next == [] then r == Err(if last.lastError.Some? then last.lastError.value else NoServer)
      else depthUsed == depth && r == Err(DepthExceeded)
  }

  ghost predicate Walk(events: seq<Event>, levels: seq<Level>, q: Question, roots: seq<Ip>, b: Budget, r: Result) {
    && levels != [] && Flat(levels) == events
    && Levels(levels, q, roots, b)
    && Outcome(levels[|levels| - 1], |levels|, b.depth, r)
  }

  /** These events are a walk for q that gives r. */
  ghost predicate Walked(events: seq<Event>, q: Question, roots: seq<Ip>, b: Budget, r: Result) {
    exists levels :: Walk(events, levels, q, roots, b, r)
  }

  // ------------------------------------------------------------------- walks level by level

  lemma OneMoreLevel(levels: seq<Level>, level: Level, q: Question, roots: seq<Ip>, b: Budget)
    requires Levels(levels, q, roots, b) && |levels| < b.depth
    requires levels != [] ==> GoesOn(levels[|levels| - 1])
    requires Permutes(level.servers, NextOf(levels, roots))
    requires Ended(level, q, b.depth - |levels|, b.cnameDepth, b.hasTrusted)
    ensures Levels(levels + [level], q, roots, b)
    ensures Flat(levels + [level]) == Flat(levels) + level.events
  {
    hide Ended, Flat, LevelAt, Given, GoesOn, AllGoOn, Permutes, NextOf;
    var all := levels + [level];
    FlatAppend(levels, level);
    AllButLastGoOn(levels, level);
    forall i: nat | i < |all| ensures LevelAt(all, i, q, b) && Given(all, i, roots) {
      if i < |levels| {
        EarlierLevel(levels, level, i, q, roots, b);
      } else {
        LastLevel(levels, level, q, roots, b);
      }
    }
  }

  lemma AllButLastGoOn(levels: seq<Level>, level: Level)
    requires AllGoOn(levels) && (levels != [] ==> GoesOn(levels[|levels| - 1]))
    ensures AllGoOn(levels + [level])
  {
    hide GoesOn;
    forall i: nat | i + 1 < |levels + [level]| ensures GoesOn((levels + [level])[i]) {
      assert (levels + [level])[i] == levels[i];
    }
  }

  lemma FlatAppend(levels: seq<Level>, level: Level)
    ensures Flat(levels + [level]) == Flat(levels) + level.events
  {
    assert (levels + [level])[..|levels|] == levels;
  }

  lemma EarlierLevel(levels: seq<Level>, level: Level, i: nat, q: Question, roots: seq<Ip>, b: Budget)
    requires i < |levels| && LevelAt(levels, i, q, b) && Given(levels, i, roots)
    ensures LevelAt(levels + [level], i, q, b) && Given(levels + [level], i, roots)
  {
    hide Ended, Permutes;
  }

  lemma LastLevel(levels: seq<Level>, level: Level, q: Question, roots: seq<Ip>, b: Budget)
    requires |levels| < b.depth && Ended(level, q, b.depth - |levels|, b.cnameDepth, b.hasTrusted)
    requires Permutes(level.servers, NextOf(levels, roots))
    ensures LevelAt(levels + [level], |levels|, q, b) && Given(levels + [level], |levels|, roots)
  {
    hide Ended, Permutes;
  }

  // -------------------------------------------------------------------- a walk under way

  lemma BelowJoins(a: seq<Event>, b: seq<Event>, depth: nat, less: nat)
    requires Below(a, depth) && Below(b, less) && less <= depth
    ensures Below(a + b, depth)
  {
  }

  /** The log since log0 holds these levels, all of which go on, and these servers are next. */
  ghost predicate UnderWay(levels: seq<Level>, log0: seq<Event>, log: seq<Event>, q: Question, roots: seq<Ip>,
                           b: Budget, servers: seq<Ip>) {
    && Grew(log0, log, Flat(levels)) && Levels(levels, q, roots, b) && Below(Flat(levels), b.depth)
    && (levels != [] ==> GoesOn(levels[|levels| - 1])) && Permutes(servers, NextOf(levels, roots))
  }

  lemma WalkStarts(log0: seq<Event>, q: Question, roots: seq<Ip>, b: Budget, servers: seq<Ip>)
    requires Permutes(servers, roots)
    ensures UnderWay([], log0, log0, q, roots, b, servers)
  {
  }

  lemma AddLevel(levels: seq<Level>, level: Level, log0: seq<Event>, log1: seq<Event>, log2: seq<Event>,
                 q: Question, roots: seq<Ip>, b: Budget)
    requires UnderWay(levels, log0, log1, q, roots, b, level.servers) && |levels| < b.depth
    requires Grew(log1, log2, level.events)
    requires Ended(level, q, b.depth - |levels|, b.cnameDepth, b.hasTrusted)
    ensures Levels(levels + [level], q, roots, b) && Grew(log0, log2, Flat(levels + [level]))
    ensures Below(Flat(levels + [level]), b.depth)
  {
    hide Flat, Levels, Ended, Permutes, NextOf, Grew, Below;
    OneMoreLevel(levels, level, q, roots, b);
    EndedBelow(level, q, b.depth - |levels|, b.cnameDepth, b.hasTrusted);
    GrewTwice(log0, log1, log2, Flat(levels), level.events);
    BelowJoins(Flat(levels), level.events, b.depth, b.depth - |levels|);
  }

  lemma EndedBelow(level: Level, q: Question, depth: nat, cnameDepth: nat, hasTrusted: bool)
    requires depth > 0 && Ended(level, q, depth, cnameDepth, hasTrusted)
    ensures Below(level.events, depth)
  {
  }

  lemma WalkGoesOn(levels: seq<Level>, level: Level, log0: seq<Event>, log1: seq<Event>, log2: seq<Event>,
                   q: Question, roots: seq<Ip>, b: Budget, servers: seq<Ip>)
    requires UnderWay(levels, log0, log1, q, roots, b, level.servers) && |levels| < b.depth
    requires Grew(log1, log2, level.events) && GoesOn(level)
    requires Ended(level, q, b.depth - |levels|, b.cnameDepth, b.hasTrusted)
    requires Permutes(servers, level.next)
    ensures UnderWay(levels + [level], log0, log2, q, roots, b, servers)
  {
    AddLevel(levels, level, log0, log1, log2, q, roots, b);
    hide Flat, Levels, Ended, Below, Permutes, Grew, GoesOn;
  }

  /** The result a walk ends with on this level. */
  ghost function Ending(level: Level): Result {
    if level.answer.Some? then level.answer.value
    else Err(if level.lastError.Some? then level.lastError.value else NoServer)
  }

  lemma WalkEnds(levels: seq<Level>, level: Level, log0: seq<Event>, log1: seq<Event>, log2: seq<Event>,
                 q: Question, roots: seq<Ip>, b: Budget)
    requires UnderWay(levels, log0, log1, q, roots, b, level.servers) && |levels| < b.depth
    requires Grew(log1, log2, level.events) && !GoesOn(level)
    requires Ended(level, q, b.depth - |levels|, b.cnameDepth, b.hasTrusted)
    ensures Grew(log0, log2, Flat(levels + [level])) && Below(Flat(levels + [level]), b.depth)
    ensures Walked(Flat(levels + [level]), q, roots, b, Ending(level))
  {
    hide Flat, Levels, Ended, Below, UnderWay, Grew;
    AddLevel(levels, level, log0, log1, log2, q, roots, b);
    var all := levels + [level];
    assert all[|all| - 1] == level;
    assert Walk(Flat(all), all, q, roots, b, Ending(level));
  }

  lemma WalkExhausted(levels: seq<Level>, log0: seq<Event>, log: seq<Event>, q: Question, roots: seq<Ip>, b: Budget,
                      servers: seq<Ip>)
    requires UnderWay(levels, log0, log, q, roots, b, servers) && 0 < |levels| == b.depth
    ensures Grew(log0, log, Flat(levels)) && Below(Flat(levels), b.depth)
    ensures Walked(Flat(levels), q, roots, b, Err(DepthExceeded))
  {
    hide Flat, Levels, Ended, Below, Grew, Permutes, NextOf;
    assert Walk(Flat(levels), levels, q, roots, b, Err(DepthExceeded));
  }

  // --------------------------------------------------------------- what follows for all walks

  /** A reply at level i that refers to servers by glue. */
  ghost predicate GlueReply(levels: seq<Level>, i: nat, k: nat, q: Question, m: Message) {
    i < |levels| && ReplyAt(levels[i].events, k, q, m) && !Conclusive(m, q.1) && !HasCname(m) && HasGlue(m)
  }

  /** The servers asked for q in these events are all among these. */
  ghost predicate AsksAmong(events: seq<Event>, q: Question, servers: seq<Ip>) {
    forall k :: 0 <= k < |events| && Asks(events[k], q) ==> events[k].server in servers
  }

  /** The servers asked for q in these events are all given by m's glue. */
  ghost predicate AsksGlue(events: seq<Event>, q: Question, m: Message) {
    forall k :: 0 <= k < |events| && Asks(events[k], q) ==> GlueOf(m, events[k].server)
  }

  /**
   * A referral with glue is followed: it ends its level, the next level asks its addresses and
   * no others, at least one of them; only an exhausted depth budget stops it.
   */
  lemma GlueIsFollowed(events: seq<Event>, levels: seq<Level>, q: Question, roots: seq<Ip>, b: Budget, r: Result,
                       i: nat, k: nat, m: Message)
    requires Walk(events, levels, q, roots, b, r) && GlueReply(levels, i, k, q, m)
    ensures k == |levels[i].events| - 1
    ensures i + 1 == b.depth ==> r == Err(DepthExceeded)
    ensures i + 1 < b.depth ==> i + 1 < |levels| && AsksGlue(levels[i + 1].events, q, m)
                                && Asked(levels[i + 1].events, q) > 0
  {
    assert LevelAt(levels, i, q, b);
    var level := levels[i];
    assert Handled(level.events, k, q, m, b.depth - i, b.cnameDepth, b.hasTrusted, level.answer, level.next);
    assert i + 1 < |levels| || i == |levels| - 1;
    if i + 1 < |levels| {
      NextAsksGiven(levels, i, q, roots, b);
    }
  }

  /** The level after level i asks only what level i gave it, and asks at least one of it. */
  lemma NextAsksGiven(levels: seq<Level>, i: nat, q: Question, roots: seq<Ip>, b: Budget)
    requires Levels(levels, q, roots, b) && i + 1 < |levels|
    ensures AsksAmong(levels[i + 1].events, q, levels[i].next)
    ensures AsksAmong(levels[i + 1].events, q, levels[i + 1].servers)
    ensures Asked(levels[i + 1].events, q) > 0
    ensures forall ip :: ip in levels[i + 1].servers <==> ip in levels[i].next
  {
    var below := levels[i + 1];
    assert LevelAt(levels, i + 1, q, b) && Given(levels, i + 1, roots) && GoesOn(levels[i]);
    SameMembers(below.servers, levels[i].next);
    forall k | 0 <= k < |below.events| && Asks(below.events[k], q) ensures below.events[k].server in below.servers {
      assert AskedInTurn(below.events, k, q, below.servers);
    }
    assert levels[i].next[0] in below.servers;
  }

  lemma SameMembers(a: seq<Ip>, b: seq<Ip>)
    requires Permutes(a, b)
    ensures forall ip :: ip in a <==> ip in b
  {
    forall ip ensures ip in a <==> ip in b {
      assert ip in a <==> ip in multiset(a);
      assert ip in b <==> ip in multiset(b);
    }
  }

  /**
   * An address found for a delegated host is followed too: nothing is asked between, and the
   * next level's servers are addresses found on this one, or its glue, this one among them.
   */
  lemma FoundIsFollowed(events: seq<Event>, levels: seq<Level>, q: Question, roots: seq<Ip>, b: Budget, r: Result,
                        i: nat, j: nat, ip: Ip)
    requires Walk(events, levels, q, roots, b, r) && i < |levels|
    requires j < |levels[i].events| && Found(levels[i].events[j], b.depth - i - 1, b.cnameDepth, ip)
    ensures LastAsk(levels[i].events, j, q)
    ensures i + 1 == b.depth ==> r == Err(DepthExceeded)
    ensures i + 1 < b.depth ==>
              && i + 1 < |levels| && ip in levels[i + 1].servers && Asked(levels[i + 1].events, q) > 0
              && AsksAmong(levels[i + 1].events, q, levels[i + 1].servers)
              && AllFound(levels[i].events, b.depth - i - 1, b.cnameDepth, levels[i + 1].servers)
  {
    hide Ended, Found, FoundIn, Flat;
    assert LevelAt(levels, i, q, b);
    FoundIsNext(levels[i], q, b.depth - i - 1, b.cnameDepth, b.hasTrusted, j, ip);
    hide Asks, Asked;
    if i + 1 < |levels| {
      NextAsksGiven(levels, i, q, roots, b);
    }
  }

  ghost predicate AllFound(events: seq<Event>, depth: nat, cnameDepth: nat, ips: seq<Ip>) {
    forall ip :: ip in ips ==> FoundIn(events, depth, cnameDepth, ip)
  }

  /** A level on which an address was found goes on to what was found, and to nothing else. */
  lemma FoundIsNext(level: Level, q: Question, depth: nat, cnameDepth: nat, hasTrusted: bool, j: nat, ip: Ip)
    requires Ended(level, q, depth + 1, cnameDepth, hasTrusted)
    requires j < |level.events| && Found(level.events[j], depth, cnameDepth, ip)
    ensures LastAsk(level.events, j, q) && GoesOn(level) && ip in level.next
    ensures AllFound(level.events, depth, cnameDepth, level.next)
  {
    assert ip in level.next;
    forall ip' | ip' in level.next ensures FoundIn(level.events, depth, cnameDepth, ip') {
      if k, m :| GlueAt(level.events, k, q, m, ip') {
        assert HasGlue(m);
        hide Conclusive, HasCname, HasGlue, GlueOf, NsHost;
        GlueIsLast(level, q, depth, cnameDepth, hasTrusted, k, m);
        assert false;
      }
    }
  }

  /** A reply of the level that could have been used: an answer, an alias, or glue. */
  ghost predicate Usable(m: Message, qtype: nat) {
    Conclusive(m, qtype) || HasCname(m) || HasGlue(m)
  }

  /**
   * It gives up exactly when the last level has asked all the servers it may, six at most, and
   * none replied with an answer, an alias or glue, nor was any delegated host's address found.
   */
  lemma GivesUpIff(events: seq<Event>, levels: seq<Level>, q: Question, roots: seq<Ip>, b: Budget, r: Result)
    requires Walk(events, levels, q, roots, b, r)
    ensures var last := levels[|levels| - 1];
            last.answer.None? && last.next == [] <==>
              && Asked(last.events, q) == Min(6, |last.servers|)
              && (forall k: nat, m :: ReplyAt(last.events, k, q, m) ==> !Usable(m, q.1))
              && NothingFound(last.events, b.depth - |levels|, b.cnameDepth)
    ensures var last := levels[|levels| - 1];
            last.answer.None? && last.next == [] ==>
              r == Err(if exists k :: ErrorAt(last.events, k, q) then Transport else NoServer)
  {
    hide Conclusive, HasCname, HasGlue;
    var n := |levels| - 1;
    var last := levels[n];
    assert LevelAt(levels, n, q, b);
    if last.answer.None? && last.next == [] {
      NothingWasUsable(last, q, b.depth - |levels|, b.cnameDepth, b.hasTrusted);
    } else if last.answer.Some? {
      var k, m :| Decides(last.events, k, q, m);
      assert Usable(m, q.1);
    } else {
      NextWasGiven(last, q, b.depth - |levels|, b.cnameDepth);
    }
  }

  lemma GlueIsLast(level: Level, q: Question, depth: nat, cnameDepth: nat, hasTrusted: bool, k: nat, m: Message)
    requires Ended(level, q, depth + 1, cnameDepth, hasTrusted)
    requires ReplyAt(level.events, k, q, m) && !Conclusive(m, q.1) && !HasCname(m) && HasGlue(m)
    ensures k == |level.events| - 1
  {
    assert Handled(level.events, k, q, m, depth + 1, cnameDepth, hasTrusted, level.answer, level.next);
  }

  lemma NothingWasUsable(level: Level, q: Question, depth: nat, cnameDepth: nat, hasTrusted: bool)
    requires Ended(level, q, depth + 1, cnameDepth, hasTrusted) && level.answer.None? && level.next == []
    ensures forall k: nat, m :: ReplyAt(level.events, k, q, m) ==> !Usable(m, q.1)
    ensures NothingFound(level.events, depth, cnameDepth)
  {
    forall k: nat, m | ReplyAt(level.events, k, q, m) ensures !Usable(m, q.1) {
      assert Handled(level.events, k, q, m, depth + 1, cnameDepth, hasTrusted, None, []);
    }
    forall ip ensures !FoundIn(level.events, depth, cnameDepth, ip) {
      if j: nat :| j < |level.events| && Found(level.events[j], depth, cnameDepth, ip) {
        FoundIsNext(level, q, depth, cnameDepth, hasTrusted, j, ip);
        assert false;
      }
    }
  }

  /** Addresses to go on with come from glue or a lookup. */
  lemma NextWasGiven(level: Level, q: Question, depth: nat, cnameDepth: nat)
    requires NextIsGiven(level.events, q, depth + 1, cnameDepth, level.next) && level.next != []
    ensures || !NothingFound(level.events, depth, cnameDepth)
            || exists k: nat, m :: ReplyAt(level.events, k, q, m) && Usable(m, q.1)
  {
    var ip := level.next[0];
    assert ip in level.next;
    if !FoundIn(level.events, depth, cnameDepth, ip) {
      var k, m :| GlueAt(level.events, k, q, m, ip);
      assert HasGlue(m);
    }
  }

  // ---------------------------------------------------------------------- the walk's replies

  ghost predicate Concludes(e: Event, q: Question) {
    Asks(e, q) && e.reply.Some? && Conclusive(e.reply.value, q.1)
  }

  /**
   * A conclusive reply to the question is the walk's last event and its result.
   */
  lemma {:induction false} ConclusiveEnds(events: seq<Event>, levels: seq<Level>, q: Question, roots: seq<Ip>, b: Budget,
                                          r: Result, k: nat)
    requires Walk(events, levels, q, roots, b, r) && k < |events| && Concludes(events[k], q)
    ensures k == |events| - 1 && r == Ok(events[k].reply.value)
  {
    var i, j := Locate(levels, k);
    assert LevelAt(levels, i, q, b);
    var level := levels[i];
    assert ReplyAt(level.events, j, q, events[k].reply.value);
    assert Handled(level.events, j, q, events[k].reply.value, b.depth - i, b.cnameDepth, b.hasTrusted,
                   level.answer, level.next);
    NoneAfter(levels, i);
  }

  lemma NoneAfter(levels: seq<Level>, i: nat)
    requires AllGoOn(levels) && i < |levels| && !GoesOn(levels[i])
    ensures i == |levels| - 1
  {
  }

  /** The level, and the place in it, of an event of the walk. */
  lemma {:induction false} Locate(levels: seq<Level>, k: nat) returns (i: nat, j: nat)
    requires k < |Flat(levels)|
    ensures i < |levels| && j < |levels[i].events| && levels[i].events[j] == Flat(levels)[k]
    ensures i == |levels| - 1 ==> |levels[i].events| - j == |Flat(levels)| - k
    decreases |levels|
  {
    var front := levels[..|levels| - 1];
    if k < |Flat(front)| {
      i, j := Locate(front, k);
    } else {
      i, j := |levels| - 1, k - |Flat(front)|;
    }
  }

  /** The first level's queries are the walk's. */
  lemma {:induction false} FlatCounts(levels: seq<Level>, q: Question)
    ensures levels != [] ==> Asked(Flat(levels), q) >= Asked(levels[0].events, q)
    decreases |levels|
  {
    if levels != [] {
      var front, last := levels[..|levels| - 1], levels[|levels| - 1];
      FlatCounts(front, q);
      AskedConcat(Flat(front), last.events, q);
      assert front != [] ==> front[0] == levels[0];
    }
  }

  /** With any root at all, the walk asks the question. */
  lemma FirstLevelAsks(levels: seq<Level>, q: Question, roots: seq<Ip>, b: Budget)
    requires levels != [] && Levels(levels, q, roots, b) && roots != []
    ensures Asked(Flat(levels), q) > 0
  {
    assert LevelAt(levels, 0, q, b) && Given(levels, 0, roots);
    SameMembers(levels[0].servers, roots);
    assert roots[0] in levels[0].servers;
    FlatCounts(levels, q);
  }
}
