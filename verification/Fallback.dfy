/**
 * Primary/secondary failover (src/plugins/fallback.rs).
 *
 * Time is a natural number of milliseconds counted from the start of the call. A plugin is an
 * arbitrary function of its starting time and its copy of the context; it may also never
 * finish. Where two events are due at the same moment, either may be handled first.
 */
module Fallback {
  import opened Basics

  type Message(==,!new)
  type Wire(==,!new)
  type Tags(==,!new)
  type Hooks(==,!new)
  type Request(==,!new)

  datatype Context = Context(response: Option<Message>, rawResponse: Option<Wire>, tags: Tags, abort: bool,
                             minTtl: Option<nat>, hooks: Hooks, request: Request)
  {
    predicate HasResponse() {
      response.Some? || rawResponse.Some?
    }
  }

  /** What a plugin does when started: it ends after some time, well or not, or never ends. */
  datatype Behaviour = Ends(after: nat, ok: bool, ctx: Context) | Hangs

  type Plugin = (nat, Context) -> Behaviour

  /** One run under the parallel timeout: how long it took and the context of a success. */
  datatype Ran = Ran(took: nat, result: Option<Context>)

  datatype Outcome = Answered | BothFailed | Panicked

  const PARALLEL_TIMEOUT: nat := 5000

  /** A success is an end in time, without error, with a response. */
  function Run(b: Behaviour): (r: Ran)
    ensures r.result.Some? <==>
              b.Ends? && b.after <= 5000 && b.ok && (b.ctx.response.Some? || b.ctx.rawResponse.Some?)
    ensures r.result.Some? ==> r.result.value == b.ctx
    ensures r.took == if b.Ends? then Min(b.after, 5000) else 5000
  {
    if b.Hangs? || PARALLEL_TIMEOUT < b.after then Ran(PARALLEL_TIMEOUT, None)
    else if b.ok && b.ctx.HasResponse() then Ran(b.after, Some(b.ctx))
    else Ran(b.after, None)
  }

  function ApplyCtx(from: Context, to: Context): Context {
    to.(response := from.response, rawResponse := from.rawResponse, tags := from.tags, abort := from.abort,
        minTtl := from.minTtl, hooks := from.hooks)
  }

  /** Only the request is the caller's own; of an earlier application nothing is left. */
  lemma AppliedIsWhollyFromOneRun(a: Context, b: Context, to: Context)
    ensures ApplyCtx(b, ApplyCtx(a, to)) == ApplyCtx(b, to)
    ensures ApplyCtx(a, to) == a.(request := to.request)
  {
  }

  /** Waits for the first of the enabled branches; among those due together any may be taken. */
  method Select(due: seq<Option<nat>>, now: nat) returns (branch: nat, at: nat)
    requires exists i :: 0 <= i < |due| && due[i].Some?
    ensures branch < |due| && due[branch].Some? && at == Max(now, due[branch].value)
    ensures forall i :: 0 <= i < |due| && due[i].Some? ==> at <= Max(now, due[i].value)
  {
    var best: Option<nat> := None;
    branch, at := 0, now;
    for i := 0 to |due|
      invariant best.None? ==> forall k :: 0 <= k < i ==> due[k].None?
      invariant best.Some? ==> branch < i && due[branch].Some? && best.value == at == Max(now, due[branch].value)
      invariant best.Some? ==> forall k :: 0 <= k < i && due[k].Some? ==> at <= Max(now, due[k].value)
    {
      if due[i].Some? {
        var t := Max(now, due[i].value);
        var tieGoesHere: bool := *;
        if best.None? || t < at || (t == at && tieGoesHere) {
          best, branch, at := Some(t), i, t;
        }
      }
    }
  }

  /** When the secondary may begin to matter: at the primary's failure or at the threshold. */
  function Release(p: Ran, threshold: nat): nat {
    if p.result.None? then Min(p.took, threshold) else threshold
  }

  /** When a deferred call ends, whatever order ties are broken in. */
  function DeferredEnd(p: Ran, s: Ran, threshold: nat): nat {
    var secondaryEnd := Release(p, threshold) + s.took;
    if p.result.Some? && s.result.Some? then Min(p.took, secondaryEnd)
    else if p.result.Some? then p.took
    else if s.result.Some? then secondaryEnd
    else Max(p.took, secondaryEnd)
  }

  /** When a standby call ends. */
  function StandbyEnd(p: Ran, s: Ran, threshold: nat): nat {
    var secondaryReady := Max(s.took, Release(p, threshold));
    if p.result.Some? then Min(p.took, secondaryReady) else secondaryReady
  }

  /** A deferred call is over five seconds after the secondary's start at the latest. */
  lemma DeferredEndBound(p: Ran, s: Ran, threshold: nat)
    requires p.took <= PARALLEL_TIMEOUT && s.took <= PARALLEL_TIMEOUT
    ensures DeferredEnd(p, s, threshold) <= Min(threshold, PARALLEL_TIMEOUT) + PARALLEL_TIMEOUT
  {
    if p.result.None? {
      assert Release(p, threshold) <= Min(threshold, PARALLEL_TIMEOUT);
    }
  }

  /** For runs that take the same time whenever they start, standby ends no later than deferred. */
  lemma StandbyIsNoSlower(p: Ran, s: Ran, threshold: nat)
    requires p.took <= PARALLEL_TIMEOUT && s.took <= PARALLEL_TIMEOUT
    ensures StandbyEnd(p, s, threshold) <= DeferredEnd(p, s, threshold)
    ensures StandbyEnd(p, s, threshold) <= PARALLEL_TIMEOUT
  {
  }

  class FallbackPlugin {
    const primary: Plugin
    const secondary: Plugin
    const threshold: nat
    const alwaysStandby: bool

    constructor (primary: Plugin, secondary: Plugin, threshold: nat, alwaysStandby: bool)
      ensures this.primary == primary && this.secondary == secondary
      ensures this.threshold == threshold && this.alwaysStandby == alwaysStandby
    {
      this.primary, this.secondary := primary, secondary;
      this.threshold, this.alwaysStandby := threshold, alwaysStandby;
    }

    /**
     * Deferred mode. The secondary starts exactly at the primary's failure or the threshold,
     * whichever is first, and not at all when the primary answers before that; the first
     * success is applied, whole; failure is reported exactly when both runs fail.
     */
    method Deferred(ctx: Context) returns (outcome: Outcome, out: Context, end: nat, started: Option<nat>)
      ensures outcome != Panicked
      ensures var p := Run(primary(0, ctx));
              var release := Release(p, threshold);
              var s := Run(secondary(release, ctx));
              && (started.Some? ==> started.value == release && (p.result.Some? ==> threshold <= p.took))
              && (started.None? ==> p.result.Some? && p.took <= threshold)
              && (outcome == BothFailed <==> p.result.None? && s.result.None?)
              && (outcome == BothFailed ==> out == ctx)
              && (outcome == Answered ==>
                    || (p.result.Some? && end == p.took && out == ApplyCtx(p.result.value, ctx))
                    || (started.Some? && s.result.Some? && end == release + s.took && out == ApplyCtx(s.result.value, ctx)))
              && end == DeferredEnd(p, s, threshold)
    {
      var p := Run(primary(0, ctx));
      var primaryDone := false;
      var first := [Some(p.took), Some(threshold)];
      assert first[0].Some? && first[1].Some?;
      var branch, now := Select(first, 0);
      assert branch == 0 || branch == 1;
      assert now <= first[0].value && now <= first[1].value;
      out, started := ctx, None;
      if branch == 0 {
        primaryDone := true;
        if p.result.Some? {
          return Answered, ApplyCtx(p.result.value, ctx), now, None;
        }
      }
      started := Some(now);
      var s := Run(secondary(now, ctx));
      if primaryDone {
        if s.result.Some? {
          return Answered, ApplyCtx(s.result.value, ctx), now + s.took, started;
        }
        return BothFailed, ctx, now + s.took, started;
      }
      var secondaryDue := now + s.took;
      var secondaryDone := false;
      while true
        invariant started == Some(threshold) && threshold <= now && threshold <= p.took
        invariant primaryDone ==> p.result.None? && p.took <= now && (now == p.took || secondaryDone)
        invariant secondaryDone ==> s.result.None? && secondaryDue <= now && (now == secondaryDue || primaryDone)
        invariant !primaryDone ==> now <= p.took
        invariant !secondaryDone ==> now <= secondaryDue
        invariant !(primaryDone && secondaryDone)
        decreases (if primaryDone then 0 else 1) + (if secondaryDone then 0 else 1)
      {
        var due := [if primaryDone then None else Some(p.took), if secondaryDone then None else Some(secondaryDue)];
        assert due[0].Some? || due[1].Some?;
        branch, now := Select(due, now);
        assert branch == 0 || branch == 1;
        assert due[0].Some? ==> now <= due[0].value;
        assert due[1].Some? ==> now <= due[1].value;
        if branch == 0 {
          primaryDone := true;
          if p.result.Some? {
            return Answered, ApplyCtx(p.result.value, ctx), now, started;
          }
        } else {
          secondaryDone := true;
          if s.result.Some? {
            return Answered, ApplyCtx(s.result.value, ctx), now, started;
          }
        }
        if primaryDone && secondaryDone {
          break;
        }
      }
      return BothFailed, ctx, now, started;
    }

    /**
     * Standby mode. Both runs start at once; the secondary's answer is applied only from the
     * primary's failure or the threshold on. A failed secondary result is taken out of its
     * cache, its finished future is polled again, and that poll panics: so the final error is
     * never returned, and the call panics when the secondary has failed by the time it is
     * released and the primary has not answered before.
     */
    method Standby(ctx: Context) returns (outcome: Outcome, out: Context, end: nat)
      ensures outcome != BothFailed
      ensures var p := Run(primary(0, ctx));
              var s := Run(secondary(0, ctx));
              var release := Release(p, threshold);
              && (outcome == Answered ==>
                    || (p.result.Some? && end == p.took && out == ApplyCtx(p.result.value, ctx))
                    || (s.result.Some? && end == Max(s.took, release) && out == ApplyCtx(s.result.value, ctx)))
              && (outcome == Panicked ==> s.result.None? && (p.result.None? || Max(s.took, threshold) <= p.took))
              && (s.result.None? && (p.result.None? || Max(s.took, threshold) < p.took) ==> outcome == Panicked)
              && end == StandbyEnd(p, s, threshold)
    {
      var p := Run(primary(0, ctx));
      var s := Run(secondary(0, ctx));
      ghost var release := Release(p, threshold);
      var primaryDone := false;
      var secondaryFinished := false;
      var secondaryCached: Option<Option<Context>> := None;
      var allowSecondary := false;
      var now: nat := 0;
      out := ctx;
      while true
        invariant out == ctx
        invariant primaryDone ==> allowSecondary && p.result.None? && p.took <= now
        invariant !primaryDone ==> now <= p.took
        invariant secondaryFinished ==> s.took <= now
        invariant !secondaryFinished ==> now <= s.took && secondaryCached.None?
        invariant secondaryCached.Some? ==> secondaryCached.value == s.result && !allowSecondary
        invariant secondaryFinished && secondaryCached.None? ==> s.result.None? && now == Max(s.took, release)
        invariant allowSecondary ==> release <= now
        invariant !allowSecondary ==> now <= threshold && now <= release
        invariant secondaryFinished && secondaryCached.None? ==> allowSecondary
        decreases (if primaryDone then 0 else 1) + (if secondaryFinished then 0 else 1) + (if allowSecondary then 0 else 1)
      {
        var due := [
          if primaryDone then None else Some(p.took),
          if secondaryCached.Some? then None else Some(if secondaryFinished then now else s.took),
          if allowSecondary then None else Some(threshold)
        ];
        assert due[0].Some? || due[1].Some?;
        var branch;
        branch, now := Select(due, now);
        assert branch == 0 || branch == 1 || branch == 2;
        assert due[0].Some? ==> now <= due[0].value;
        assert due[1].Some? ==> now <= due[1].value;
        assert due[2].Some? ==> now <= due[2].value;
        if branch == 0 {
          primaryDone := true;
          if p.result.Some? {
            return Answered, ApplyCtx(p.result.value, ctx), now;
          }
          allowSecondary := true;
          var taken := secondaryCached;
          secondaryCached := None;
          if taken.Some? && taken.value.Some? {
            return Answered, ApplyCtx(taken.value.value, ctx), now;
          }
        } else if branch == 1 {
          if secondaryFinished {
            return Panicked, ctx, now;
          }
          secondaryFinished := true;
          secondaryCached := Some(s.result);
          if allowSecondary {
            var taken := secondaryCached;
            secondaryCached := None;
            if taken.Some? && taken.value.Some? {
              return Answered, ApplyCtx(taken.value.value, ctx), now;
            }
          }
        } else {
          allowSecondary := true;
          var taken := secondaryCached;
          secondaryCached := None;
          if taken.Some? && taken.value.Some? {
            return Answered, ApplyCtx(taken.value.value, ctx), now;
          }
        }
        if primaryDone && secondaryCached.Some? && allowSecondary {
          break;
        }
      }
      return BothFailed, ctx, now;
    }

    method HandleFallback(ctx: Context) returns (outcome: Outcome, out: Context, end: nat)
      ensures outcome == BothFailed ==> !alwaysStandby && out == ctx
      ensures outcome == Panicked ==> alwaysStandby
      ensures outcome == Answered ==> (out.response.Some? || out.rawResponse.Some?) && out.request == ctx.request
      ensures outcome == Answered ==> FromOneRun(out, ctx)
      ensures end <= Min(threshold, 5000) + 5000
      ensures alwaysStandby ==> end <= 5000
    {
      ghost var p := Run(primary(0, ctx));
      if !alwaysStandby {
        var started;
        outcome, out, end, started := Deferred(ctx);
        assert outcome == Answered ==> Left(0, false, out, ctx) || Left(Release(p, threshold), true, out, ctx);
        DeferredEndBound(p, Run(secondary(Release(p, threshold), ctx)), threshold);
      } else {
        outcome, out, end := Standby(ctx);
        assert outcome == Answered ==> Left(0, false, out, ctx) || Left(0, true, out, ctx);
        StandbyIsNoSlower(p, Run(secondary(0, ctx)), threshold);
      }
    }

    /** The context is what one of the plugins left in its own copy, but for the request. */
    ghost predicate FromOneRun(out: Context, ctx: Context) {
      exists start: nat, second: bool :: Left(start, second, out, ctx)
    }

    ghost predicate Left(start: nat, second: bool, out: Context, ctx: Context) {
      var b := if second then secondary(start, ctx) else primary(start, ctx);
      b.Ends? && b.ok && b.after <= PARALLEL_TIMEOUT && out == ApplyCtx(b.ctx, ctx)
    }
  }

  /** The standby mode's documented error is a panic, here with two plugins that never answer. */
  method StandbyPanicsWhenBothFail(ctx: Context, threshold: nat) returns (outcome: Outcome)
    ensures outcome == Panicked
  {
    var plugin := new FallbackPlugin((_, _) => Hangs, (_, _) => Hangs, threshold, true);
    var out, end;
    outcome, out, end := plugin.Standby(ctx);
  }

  /** It also panics although the primary would have answered, 200 ms after the threshold. */
  method StandbyPanicsBeforeTheAnswer(ctx: Context, answer: Context) returns (outcome: Outcome, end: nat)
    requires answer.HasResponse()
    ensures outcome == Panicked && end == 100
  {
    var plugin := new FallbackPlugin((_, _) => Ends(300, true, answer), (_, _) => Ends(50, false, ctx), 100, true);
    var out;
    outcome, out, end := plugin.Standby(ctx);
  }
}
