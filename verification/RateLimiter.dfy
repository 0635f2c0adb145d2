/**
 * The per-client rate limiter (src/plugins/ratelimit.rs): windows that reset in place, a
 * request counter of 32 bits that wraps in a release build, and cleanup steps that drop old
 * entries.
 *
 * Time is a natural number in the unit of the window, and the clock is an argument.
 */
module RateLimiter {
  import opened Basics

  type Ip(==,!new)

  datatype Entry = Entry(count: nat, windowStart: nat)

  type Limits = map<Ip, Entry>

  /** `wraps` tells the 32-bit counter of the code from the ideal, unbounded one. */
  datatype Config = Config(maxQueries: nat, window: nat, wraps: bool)

  function Since(start: nat, now: nat): nat {
    if now < start then 0 else now - start
  }

  function Next(cfg: Config, count: nat): nat {
    if cfg.wraps then (count + 1) % U32 else count + 1
  }

  /** The client has an entry whose window is still running. */
  predicate InWindow(cfg: Config, limits: Limits, ip: Ip, now: nat) {
    ip in limits && Since(limits[ip].windowStart, now) < cfg.window
  }

  /** The entry a request leaves. */
  function Touched(cfg: Config, limits: Limits, ip: Ip, now: nat): Entry {
    if InWindow(cfg, limits, ip, now) then limits[ip].(count := Next(cfg, limits[ip].count)) else Entry(1, now)
  }

  /** Only requests counted in a running window are ever limited. */
  predicate Limited(cfg: Config, limits: Limits, ip: Ip, now: nat) {
    InWindow(cfg, limits, ip, now) && cfg.maxQueries < Next(cfg, limits[ip].count)
  }

  function Kept(cfg: Config, limits: Limits, now: nat): Limits {
    map ip | ip in limits && Since(limits[ip].windowStart, now) < 2 * cfg.window :: limits[ip]
  }

  /** A cleanup drops exactly the entries whose windows began two windows ago or earlier. */
  lemma KeptIff(cfg: Config, limits: Limits, now: nat, ip: Ip)
    requires ip in limits
    ensures ip !in Kept(cfg, limits, now) <==>
              limits[ip].windowStart + 2 * cfg.window <= now || cfg.window == 0
    ensures ip in Kept(cfg, limits, now) ==> Kept(cfg, limits, now)[ip] == limits[ip]
  {
  }

  class RateLimitPlugin {
    const cfg: Config
    var limits: Limits

    constructor (maxQueries: nat, window: nat)
      ensures cfg == Config(maxQueries, window, true) && limits == map[]
    {
      cfg := Config(maxQueries, window, true);
      limits := map[];
    }

    method ShouldLimit(ip: Ip, now: nat) returns (limited: bool)
      requires cfg.wraps
      modifies this
      // A client is limited only in a running window, and by the count alone; any other request opens one.
      ensures var running := ip in old(limits) && cfg.window > 0 && now < old(limits)[ip].windowStart + cfg.window;
              && limited == (running && cfg.maxQueries < (old(limits)[ip].count + 1) % U32)
              && limits == old(limits)[ip := if running
                                             then Entry((old(limits)[ip].count + 1) % U32, old(limits)[ip].windowStart)
                                             else Entry(1, now)]
      ensures limited == Limited(cfg, old(limits), ip, now)
      ensures limits == old(limits)[ip := Touched(cfg, old(limits), ip, now)]
    {
      limited := false;
      if ip in limits {
        var entry := limits[ip];
        if cfg.window <= Since(entry.windowStart, now) {
          entry := Entry(1, now);
        } else {
          entry := entry.(count := (entry.count + 1) % U32);
          if cfg.maxQueries < entry.count {
            limited := true;
          }
        }
        limits := limits[ip := entry];
      } else {
        limits := limits[ip := Entry(1, now)];
      }
    }

    /** Both the public cleanup and one turn of the background loop. */
    method Cleanup(now: nat)
      modifies this
      // What is two windows old is dropped, and nothing else.
      ensures forall ip :: ip in limits <==>
                ip in old(limits) && cfg.window > 0 && now < old(limits)[ip].windowStart + 2 * cfg.window
      ensures forall ip :: ip in limits ==> limits[ip] == old(limits)[ip]
      ensures limits == Kept(cfg, old(limits), now)
    {
      var pending := limits.Keys;
      ghost var before := limits;
      while pending != {}
        invariant pending <= before.Keys
        invariant forall ip :: ip in limits <==>
                    ip in before && (ip in pending || Since(before[ip].windowStart, now) < 2 * cfg.window)
        invariant forall ip :: ip in limits ==> limits[ip] == before[ip]
        decreases |pending|
      {
        var ip :| ip in pending;
        if 2 * cfg.window <= Since(limits[ip].windowStart, now) {
          limits := limits - {ip};
        }
        pending := pending - {ip};
      }
    }
  }

  // -------------------------------------------------------------------------------- histories

  datatype Event = Request(ip: Ip, at: nat) | Clean(at: nat)

  type History = seq<Event>

  function Step(cfg: Config, limits: Limits, e: Event): Limits {
    match e
    case Request(ip, at) => limits[ip := Touched(cfg, limits, ip, at)]
    case Clean(at) => Kept(cfg, limits, at)
  }

  /** Times never go back, and nothing happens before `from`. */
  ghost predicate InOrder(events: History, from: nat)
    decreases |events|
  {
    events != [] ==> from <= events[0].at && InOrder(events[1..], events[0].at)
  }

  /** The decision on each request, in order: true when it is limited. */
  function Decisions(cfg: Config, limits: Limits, events: History): seq<bool>
    decreases |events|
  {
    if events == [] then []
    else
      var rest := Decisions(cfg, Step(cfg, limits, events[0]), events[1..]);
      if events[0].Clean? then rest else [Limited(cfg, limits, events[0].ip, events[0].at)] + rest
  }

  function AdmittedNow(cfg: Config, limits: Limits, e: Event, ip: Ip, a: nat, b: nat): nat {
    if e.Request? && e.ip == ip && a <= e.at < b && !Limited(cfg, limits, ip, e.at) then 1 else 0
  }

  /** How many requests of the client are admitted at a time in [a, b). */
  function Admitted(cfg: Config, limits: Limits, events: History, ip: Ip, a: nat, b: nat): nat
    decreases |events|
  {
    if events == [] then 0
    else
      AdmittedNow(cfg, limits, events[0], ip, a, b)
      + Admitted(cfg, Step(cfg, limits, events[0]), events[1..], ip, a, b)
  }

  // ------------------------------------------------------------------- cleanup is not observable

  function Requests(events: History): History
    decreases |events|
  {
    if events == [] then []
    else (if events[0].Clean? then [] else [events[0]]) + Requests(events[1..])
  }

  /** fewer lacks some entries of all whose windows are over from time t on. */
  ghost predicate LacksOnlyTheOld(cfg: Config, all: Limits, fewer: Limits, t: nat) {
    && (forall ip :: ip in fewer ==> ip in all && all[ip] == fewer[ip])
    && (forall ip :: ip in all && ip !in fewer ==> cfg.window <= Since(all[ip].windowStart, t))
  }

  lemma {:induction false} StrippingKeepsDecisions(cfg: Config, all: Limits, fewer: Limits, events: History, t: nat)
    requires LacksOnlyTheOld(cfg, all, fewer, t) && InOrder(events, t)
    ensures Decisions(cfg, fewer, events) == Decisions(cfg, all, Requests(events))
    decreases |events|
  {
    if events == [] {
    } else {
      var e := events[0];
      var rest := Requests(events[1..]);
      assert LacksOnlyTheOld(cfg, all, fewer, e.at);
      if e.Clean? {
        StrippingKeepsDecisions(cfg, all, Kept(cfg, fewer, e.at), events[1..], e.at);
        assert [] + rest == rest;
      } else {
        StrippingKeepsDecisions(cfg, Step(cfg, all, e), Step(cfg, fewer, e), events[1..], e.at);
        assert ([e] + rest)[1..] == rest;
      }
    }
  }

  /**
   * Cleanup steps, wherever they are inserted into a run, change no decision: two histories
   * with the same requests are decided alike.
   */
  lemma CleanupIsInvisible(cfg: Config, limits: Limits, one: History, other: History, t: nat)
    requires InOrder(one, t) && InOrder(other, t) && Requests(one) == Requests(other)
    ensures Decisions(cfg, limits, one) == Decisions(cfg, limits, other)
  {
    StrippingKeepsDecisions(cfg, limits, limits, one, t);
    StrippingKeepsDecisions(cfg, limits, limits, other, t);
  }

  // -------------------------------------------------------------------------- the admission bound

  function AtLeastOne(n: nat): nat {
    if n == 0 then 1 else n
  }

  function Spare(cfg: Config, count: nat): nat {
    if AtLeastOne(cfg.maxQueries) < count then 0 else AtLeastOne(cfg.maxQueries) - count
  }

  /** How many admissions in [a, a + window) the client can still get from time t on. */
  ghost function Budget(cfg: Config, limits: Limits, ip: Ip, a: nat, t: nat): nat {
    var m := AtLeastOne(cfg.maxQueries);
    if a + cfg.window <= t then 0
    else if t < a then 2 * m
    else if ip !in limits then m
    else if limits[ip].windowStart < a then Spare(cfg, limits[ip].count) + m
    else Spare(cfg, limits[ip].count)
  }

  ghost predicate Stamped(limits: Limits, t: nat) {
    forall ip :: ip in limits ==> limits[ip].windowStart <= t && 1 <= limits[ip].count
  }

  lemma OneStepPaysItsAdmission(cfg: Config, limits: Limits, e: Event, ip: Ip, a: nat)
    requires !cfg.wraps && Stamped(limits, e.at)
    ensures Stamped(Step(cfg, limits, e), e.at)
    ensures AdmittedNow(cfg, limits, e, ip, a, a + cfg.window) + Budget(cfg, Step(cfg, limits, e), ip, a, e.at)
              <= Budget(cfg, limits, ip, a, e.at)
  {
  }

  lemma BudgetOnlyFalls(cfg: Config, limits: Limits, ip: Ip, a: nat, t: nat, later: nat)
    requires t <= later && Stamped(limits, t)
    ensures Budget(cfg, limits, ip, a, later) <= Budget(cfg, limits, ip, a, t)
  {
  }

  lemma {:induction false} AdmittedWithinBudget(cfg: Config, limits: Limits, events: History, ip: Ip, a: nat, t: nat)
    requires !cfg.wraps && Stamped(limits, t) && InOrder(events, t)
    ensures Admitted(cfg, limits, events, ip, a, a + cfg.window) <= Budget(cfg, limits, ip, a, t)
    decreases |events|
  {
    if events == [] {
    } else {
      var e := events[0];
      BudgetOnlyFalls(cfg, limits, ip, a, t, e.at);
      OneStepPaysItsAdmission(cfg, limits, e, ip, a);
      AdmittedWithinBudget(cfg, Step(cfg, limits, e), events[1..], ip, a, e.at);
    }
  }

  // ------------------------------------------------------------- the 32-bit counter and the ideal one

  /** No window of the ideal limiter receives more than n requests. */
  ghost predicate NeverExceeds(cfg: Config, limits: Limits, events: History, n: nat)
    decreases |events|
  {
    events != [] ==>
      && (events[0].Request? ==> Touched(cfg, limits, events[0].ip, events[0].at).count <= n)
      && NeverExceeds(cfg, Step(cfg, limits, events[0]), events[1..], n)
  }

  /** No window of the ideal limiter receives its 2^32nd request. */
  ghost predicate NeverFills(cfg: Config, limits: Limits, events: History) {
    NeverExceeds(cfg, limits, events, U32 - 1)
  }

  lemma {:induction false} ExceedsLess(cfg: Config, limits: Limits, events: History, n: nat, more: nat)
    requires NeverExceeds(cfg, limits, events, n) && n <= more
    ensures NeverExceeds(cfg, limits, events, more)
    decreases |events|
  {
    if events == [] {
    } else {
      ExceedsLess(cfg, Step(cfg, limits, events[0]), events[1..], n, more);
    }
  }

  ghost predicate Small(limits: Limits) {
    forall ip :: ip in limits ==> limits[ip].count < U32
  }

  /**
   * The code decides every request as the ideal limiter does exactly when no window receives
   * 2^32 requests: the request that fills the counter is wrongly admitted.
   */
  lemma {:induction false} CounterIsExactUntilItFills(cfg: Config, limits: Limits, events: History)
    requires cfg.wraps && cfg.maxQueries < U32 && Small(limits)
    ensures var ideal := cfg.(wraps := false);
            Decisions(cfg, limits, events) == Decisions(ideal, limits, events) <==> NeverFills(ideal, limits, events)
    decreases |events|
  {
    if events == [] {
    } else {
      var ideal := cfg.(wraps := false);
      var e := events[0];
      var code, model := Step(cfg, limits, e), Step(ideal, limits, e);
      if e.Request? && Touched(ideal, limits, e.ip, e.at).count >= U32 {
        assert Decisions(cfg, limits, events)[0] != Decisions(ideal, limits, events)[0];
      } else {
        assert code == model;
        CounterIsExactUntilItFills(cfg, code, events[1..]);
        if e.Request? {
          assert Limited(cfg, limits, e.ip, e.at) == Limited(ideal, limits, e.ip, e.at);
          var p, q := Decisions(cfg, code, events[1..]), Decisions(ideal, code, events[1..]);
          var d := [Limited(cfg, limits, e.ip, e.at)];
          assert (d + p)[1..] == p && (d + q)[1..] == q;
        }
      }
    }
  }

  lemma {:induction false} SameAdmissions(cfg: Config, limits: Limits, events: History, ip: Ip, a: nat, b: nat)
    requires cfg.wraps && Small(limits) && NeverFills(cfg.(wraps := false), limits, events)
    ensures Admitted(cfg, limits, events, ip, a, b) == Admitted(cfg.(wraps := false), limits, events, ip, a, b)
    decreases |events|
  {
    if events == [] {
    } else {
      var ideal := cfg.(wraps := false);
      var e := events[0];
      assert Step(cfg, limits, e) == Step(ideal, limits, e);
      assert AdmittedNow(cfg, limits, e, ip, a, b) == AdmittedNow(ideal, limits, e, ip, a, b);
      SameAdmissions(cfg, Step(cfg, limits, e), events[1..], ip, a, b);
    }
  }

  /**
   * Over every history of requests and cleanups, a client is admitted at most
   * 2 * max(1, maxQueries) times in any half-open interval as long as the window: always by the
   * ideal limiter, and by the code as long as no window receives 2^32 requests.
   */
  lemma AdmissionBound(cfg: Config, events: History, ip: Ip, a: nat)
    requires InOrder(events, 0)
    requires !cfg.wraps || NeverFills(cfg.(wraps := false), map[], events)
    ensures Admitted(cfg, map[], events, ip, a, a + cfg.window) <= 2 * AtLeastOne(cfg.maxQueries)
  {
    AdmittedWithinBudget(cfg.(wraps := false), map[], events, ip, a, 0);
    if cfg.wraps {
      SameAdmissions(cfg, map[], events, ip, a, a + cfg.window);
    } else {
      assert cfg == cfg.(wraps := false);
    }
  }

  // ------------------------------------------------------------------- a run that breaks the bound

  /** n requests at one instant. */
  function Burst(ip: Ip, at: nat, n: nat): History {
    seq(n, _ => Request(ip, at))
  }

  /** A burst splits into its first request and the others. */
  lemma BurstUnrolls(ip: Ip, at: nat, n: nat, rest: History)
    requires 0 < n
    ensures Burst(ip, at, n) + rest == [Request(ip, at)] + (Burst(ip, at, n - 1) + rest)
  {
  }

  lemma {:induction false} BurstInOrder(ip: Ip, at: nat, n: nat, rest: History, from: nat)
    requires from <= at && InOrder(rest, at)
    ensures InOrder(Burst(ip, at, n) + rest, from)
    decreases n
  {
    if n == 0 {
      assert Burst(ip, at, n) + rest == rest;
    } else {
      BurstUnrolls(ip, at, n, rest);
      BurstInOrder(ip, at, n - 1, rest, at);
      assert ([Request(ip, at)] + (Burst(ip, at, n - 1) + rest))[1..] == Burst(ip, at, n - 1) + rest;
    }
  }

  lemma RequestAdmits(cfg: Config, limits: Limits, ip: Ip, at: nat, rest: History, a: nat, b: nat)
    ensures Admitted(cfg, limits, [Request(ip, at)] + rest, ip, a, b) ==
              AdmittedNow(cfg, limits, Request(ip, at), ip, a, b)
              + Admitted(cfg, Step(cfg, limits, Request(ip, at)), rest, ip, a, b)
  {
    assert ([Request(ip, at)] + rest)[1..] == rest;
  }

  lemma RequestExceeds(cfg: Config, limits: Limits, ip: Ip, at: nat, rest: History, n: nat)
    ensures NeverExceeds(cfg, limits, [Request(ip, at)] + rest, n) <==>
              Touched(cfg, limits, ip, at).count <= n && NeverExceeds(cfg, Step(cfg, limits, Request(ip, at)), rest, n)
  {
    assert ([Request(ip, at)] + rest)[1..] == rest;
  }

  lemma BurstStep(cfg: Config, ip: Ip, start: nat, at: nat, count: nat, n: nat, rest: History, a: nat, b: nat)
    requires cfg.wraps && 0 < n && start <= at < start + cfg.window && a <= at < b
    ensures Admitted(cfg, map[ip := Entry(count, start)], Burst(ip, at, n) + rest, ip, a, b) ==
              (if cfg.maxQueries < (count + 1) % U32 then 0 else 1) +
              Admitted(cfg, map[ip := Entry((count + 1) % U32, start)], Burst(ip, at, n - 1) + rest, ip, a, b)
  {
    var limits := map[ip := Entry(count, start)];
    BurstUnrolls(ip, at, n, rest);
    RequestAdmits(cfg, limits, ip, at, Burst(ip, at, n - 1) + rest, a, b);
    hide Admitted, Burst;
    assert Step(cfg, limits, Request(ip, at)) == map[ip := Entry((count + 1) % U32, start)];
  }

  /** What a burst that takes the counter of a running window from `count` around to zero gets admitted. */
  lemma {:induction false} BurstTurns(cfg: Config, ip: Ip, start: nat, at: nat, count: nat, rest: History,
                                      a: nat, b: nat)
    requires cfg.wraps && count < U32 && cfg.maxQueries < U32
    requires start <= at < start + cfg.window && a <= at < b
    ensures Admitted(cfg, map[ip := Entry(count, start)], Burst(ip, at, U32 - count) + rest, ip, a, b) ==
              (if cfg.maxQueries < count then 0 else cfg.maxQueries - count) + 1 +
              Admitted(cfg, map[ip := Entry(0, start)], rest, ip, a, b)
    decreases U32 - count
  {
    hide Admitted, Burst;
    BurstStep(cfg, ip, start, at, count, U32 - count, rest, a, b);
    if count + 1 < U32 {
      BurstTurns(cfg, ip, start, at, count + 1, rest, a, b);
    } else {
      NoBurst(ip, at, rest);
    }
  }

  lemma NoBurst(ip: Ip, at: nat, rest: History)
    ensures Burst(ip, at, 0) + rest == rest && rest + [] == rest
  {
  }

  /** The ideal limiter counts a burst in a running window up. */
  lemma {:induction false} BurstCounts(cfg: Config, ip: Ip, start: nat, at: nat, count: nat, k: nat,
                                       rest: History, n: nat)
    requires !cfg.wraps && count + k <= n && start <= at < start + cfg.window
    requires NeverExceeds(cfg, map[ip := Entry(count + k, start)], rest, n)
    ensures NeverExceeds(cfg, map[ip := Entry(count, start)], Burst(ip, at, k) + rest, n)
    decreases k
  {
    if k == 0 {
      NoBurst(ip, at, rest);
    } else {
      var limits := map[ip := Entry(count, start)];
      BurstUnrolls(ip, at, k, rest);
      RequestExceeds(cfg, limits, ip, at, Burst(ip, at, k - 1) + rest, n);
      assert Step(cfg, limits, Request(ip, at)) == map[ip := Entry(count + 1, start)];
      hide NeverExceeds, Burst;
      BurstCounts(cfg, ip, start, at, count + 1, k - 1, rest, n);
    }
  }

  /** Twice 2^32 requests at one instant get more than the bound admitted, whatever the maximum. */
  lemma WrapBreaksTheBound(cfg: Config, ip: Ip)
    requires cfg.wraps && 0 < cfg.window && cfg.maxQueries < U32
    ensures InOrder(Burst(ip, 0, 2 * U32), 0)
    ensures Admitted(cfg, map[], Burst(ip, 0, 2 * U32), ip, 0, cfg.window) > 2 * AtLeastOne(cfg.maxQueries)
  {
    var second := Burst(ip, 0, U32);
    var most := Burst(ip, 0, U32 - 1) + second;
    BurstInOrder(ip, 0, 2 * U32, [], 0);
    assert Burst(ip, 0, 2 * U32) + [] == Burst(ip, 0, 2 * U32) == [Request(ip, 0)] + most;
    RequestAdmits(cfg, map[], ip, 0, most, 0, cfg.window);
    assert Step(cfg, map[], Request(ip, 0)) == map[ip := Entry(1, 0)];
    BurstTurns(cfg, ip, 0, 0, 1, second, 0, cfg.window);
    BurstTurns(cfg, ip, 0, 0, 0, [], 0, cfg.window);
    assert second + [] == second;
  }

  /** Two full windows in a row, but for the first request just before the interval. */
  function TwoFullWindows(cfg: Config, ip: Ip): History {
    [Request(ip, 0)] + (Burst(ip, 1, U32 - 1) + SecondWindow(cfg, ip))
  }

  function SecondWindow(cfg: Config, ip: Ip): History {
    [Request(ip, cfg.window)] + (Burst(ip, cfg.window, U32 - 1) + [])
  }

  lemma TwoFullWindowsExceed(cfg: Config, ip: Ip)
    requires cfg.wraps && 2 <= cfg.window && cfg.maxQueries < U32
    ensures InOrder(TwoFullWindows(cfg, ip), 0)
    ensures NeverExceeds(cfg.(wraps := false), map[], TwoFullWindows(cfg, ip), U32)
    ensures Admitted(cfg, map[], TwoFullWindows(cfg, ip), ip, 1, 1 + cfg.window) > 2 * AtLeastOne(cfg.maxQueries)
  {
    var ideal, w := cfg.(wraps := false), cfg.window;
    var second := SecondWindow(cfg, ip);
    var first := Burst(ip, 1, U32 - 1) + second;
    assert TwoFullWindows(cfg, ip)[1..] == first && second[1..] == Burst(ip, w, U32 - 1) + [];
    hide Admitted, Burst, NeverExceeds;
    BurstInOrder(ip, w, U32 - 1, [], w);
    BurstInOrder(ip, 1, U32 - 1, second, 0);

    assert Step(ideal, map[], Request(ip, 0)) == map[ip := Entry(1, 0)] == Step(cfg, map[], Request(ip, 0));
    assert Step(ideal, map[ip := Entry(U32, 0)], Request(ip, w)) == map[ip := Entry(1, w)];
    assert Step(cfg, map[ip := Entry(0, 0)], Request(ip, w)) == map[ip := Entry(1, w)];
    NothingExceeds(ideal, map[ip := Entry(U32, w)], U32);
    BurstCounts(ideal, ip, w, w, 1, U32 - 1, [], U32);
    RequestExceeds(ideal, map[ip := Entry(U32, 0)], ip, w, Burst(ip, w, U32 - 1) + [], U32);
    BurstCounts(ideal, ip, 0, 1, 1, U32 - 1, second, U32);
    RequestExceeds(ideal, map[], ip, 0, first, U32);

    RequestAdmits(cfg, map[], ip, 0, first, 1, 1 + w);
    BurstTurns(cfg, ip, 0, 1, 1, second, 1, 1 + w);
    RequestAdmits(cfg, map[ip := Entry(0, 0)], ip, w, Burst(ip, w, U32 - 1) + [], 1, 1 + w);
    BurstTurns(cfg, ip, w, w, 1, [], 1, 1 + w);
  }

  lemma NothingExceeds(cfg: Config, limits: Limits, n: nat)
    ensures NeverExceeds(cfg, limits, [], n)
  {
  }

  ghost predicate KeepsTheBound(cfg: Config, events: History, ip: Ip, a: nat) {
    Admitted(cfg, map[], events, ip, a, a + cfg.window) <= 2 * AtLeastOne(cfg.maxQueries)
  }

  /**
   * Exactly what a limit on the requests a window receives must be for the code to keep the
   * bound: less than 2^32. The clock is finer than the window, so the window is at least 2.
   */
  lemma BoundHoldsIffCounterCannotFill(cfg: Config, n: nat, client: Ip)
    requires cfg.wraps && 2 <= cfg.window && cfg.maxQueries < U32
    ensures n < U32 <==>
            forall events: History, ip: Ip, a: nat ::
              InOrder(events, 0) && NeverExceeds(cfg.(wraps := false), map[], events, n) ==>
                KeepsTheBound(cfg, events, ip, a)
  {
    if n < U32 {
      forall events: History, ip: Ip, a: nat |
          InOrder(events, 0) && NeverExceeds(cfg.(wraps := false), map[], events, n)
        ensures KeepsTheBound(cfg, events, ip, a)
      {
        ExceedsLess(cfg.(wraps := false), map[], events, n, U32 - 1);
        AdmissionBound(cfg, events, ip, a);
      }
    } else {
      TwoFullWindowsExceed(cfg, client);
      ExceedsLess(cfg.(wraps := false), map[], TwoFullWindows(cfg, client), U32, n);
      assert !KeepsTheBound(cfg, TwoFullWindows(cfg, client), client, 1);
    }
  }
}
