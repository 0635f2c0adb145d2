/**
 * Named sequences (src/plugin_factory.rs, src/plugins/sequence.rs): a multi-pass resolver
 * compiles the by-name configuration into nested plugin trees, and an interpreter runs them
 * with conditions, abort and error propagation.
 *
 * Plugins other than sequences are leaves: arbitrary functions on a context, which may
 * carry a whole world of side state in `rest`.
 */
module Pipeline {
  import opened Basics

  type Name(==,!new)
  type Leaf(==,!new)
  type World(!new)

  datatype ContextView = ContextView(qname: string, qtype: nat, tags: set<string>, abort: bool, rest: World)

  /** What leaves do: `apply` may fail (false), `isMatcher` and `matches` serve conditions. */
  datatype Env = Env(apply: (Leaf, ContextView) -> (ContextView, bool),
                     isMatcher: Leaf -> bool,
                     matches: (Leaf, string) -> bool)

  datatype Condition =
    | ByQname(patterns: seq<string>)
    | ByQtype(types: seq<nat>)
    | ByTag(tag: string, invert: bool)
    | ByMatcher(plugin: Name)
    | Unsupported

  datatype StepConf = StepConf(conditions: seq<Condition>, exec: Name)

  type Config = map<Name, seq<StepConf>>

  datatype Plugin =
    | LeafPlugin(leaf: Leaf)
    | Sequence(name: Name, steps: seq<Step>, matchers: map<Name, Plugin>)

  datatype Step = Step(conditions: seq<Condition>, plugin: Plugin)

  // ---------------------------------------------------------------------------- conditions

  predicate EndsWith(text: string, suffix: string) {
    |suffix| <= |text| && text[|text| - |suffix|..] == suffix
  }

  /** A condition, given how names of matcher plugins are looked up. */
  ghost predicate Holds(env: Env, matcher: Name -> Option<Leaf>, ctx: ContextView, c: Condition) {
    match c
    case ByQname(patterns) => exists i :: 0 <= i < |patterns| && EndsWith(ctx.qname, patterns[i])
    case ByQtype(types) => ctx.qtype in types
    case ByTag(tag, invert) => (tag in ctx.tags) != invert
    case ByMatcher(plugin) => matcher(plugin).Some? && env.matches(matcher(plugin).value, ctx.qname)
    case Unsupported => false
  }

  ghost predicate AllHold(env: Env, matcher: Name -> Option<Leaf>, ctx: ContextView, conditions: seq<Condition>) {
    forall i :: 0 <= i < |conditions| ==> Holds(env, matcher, ctx, conditions[i])
  }

  /** What each condition asks of a packet, with nothing but the registry to look matchers up in. */
  ghost predicate Met(env: Env, matchers: map<Name, Plugin>, ctx: ContextView, c: Condition) {
    match c
    case ByQname(patterns) => exists i, front: string :: 0 <= i < |patterns| && ctx.qname == front + patterns[i]
    case ByQtype(types) => exists i :: 0 <= i < |types| && types[i] == ctx.qtype
    case ByTag(tag, false) => tag in ctx.tags
    case ByTag(tag, true) => tag !in ctx.tags
    case ByMatcher(plugin) =>
      exists leaf :: Registered(matchers, plugin, leaf) && env.isMatcher(leaf) && env.matches(leaf, ctx.qname)
    case Unsupported => false
  }

  ghost predicate Registered(matchers: map<Name, Plugin>, n: Name, leaf: Leaf) {
    n in matchers && matchers[n] == LeafPlugin(leaf)
  }

  ghost predicate AllMet(env: Env, matchers: map<Name, Plugin>, ctx: ContextView, conditions: seq<Condition>) {
    forall i :: 0 <= i < |conditions| ==> Met(env, matchers, ctx, conditions[i])
  }

  /** A text ends with another exactly when something stands before it. */
  lemma EndsWithIff(text: string, suffix: string)
    ensures EndsWith(text, suffix) <==> exists front: string :: text == front + suffix
  {
    if EndsWith(text, suffix) {
      assert text == text[..|text| - |suffix|] + suffix;
    }
    if front: string :| text == front + suffix {
      assert text[|front|..] == suffix;
    }
  }

  /** The compiled sequence's conditions hold exactly when they are met. */
  lemma ConditionsSpelled(env: Env, matchers: map<Name, Plugin>, ctx: ContextView, conditions: seq<Condition>)
    ensures AllHold(env, CompiledMatcher(env, matchers), ctx, conditions) <==> AllMet(env, matchers, ctx, conditions)
  {
    forall i | 0 <= i < |conditions|
      ensures Holds(env, CompiledMatcher(env, matchers), ctx, conditions[i]) <==> Met(env, matchers, ctx, conditions[i])
    {
      ConditionSpelled(env, matchers, ctx, conditions[i]);
    }
  }

  lemma ConditionSpelled(env: Env, matchers: map<Name, Plugin>, ctx: ContextView, c: Condition)
    ensures Holds(env, CompiledMatcher(env, matchers), ctx, c) <==> Met(env, matchers, ctx, c)
  {
    match c
    case ByQname(patterns) =>
      forall i | 0 <= i < |patterns|
        ensures EndsWith(ctx.qname, patterns[i]) <==> exists front: string :: ctx.qname == front + patterns[i]
      {
        EndsWithIff(ctx.qname, patterns[i]);
      }
    case ByMatcher(n) =>
      if n in matchers && matchers[n].LeafPlugin? {
        assert Registered(matchers, n, matchers[n].leaf);
      }
    case _ =>
  }

  /** Only a registered leaf of the matcher kind can be asked. */
  ghost function CompiledMatcher(env: Env, matchers: map<Name, Plugin>): Name -> Option<Leaf> {
    n => if n in matchers && matchers[n].LeafPlugin? && env.isMatcher(matchers[n].leaf)
         then Some(matchers[n].leaf) else None
  }

  ghost function NamedMatcher(env: Env, plugins: map<Name, Leaf>): Name -> Option<Leaf> {
    n => if n in plugins && env.isMatcher(plugins[n]) then Some(plugins[n]) else None
  }

  // ------------------------------------------------------------------ meaning of a plugin

  /** One executed leaf. */
  datatype Exec = Exec(leaf: Leaf, before: ContextView, after: ContextView, ok: bool)

  datatype Outcome = Outcome(ctx: ContextView, ok: bool, trace: seq<Exec>)

  ghost function RunLeaf(env: Env, leaf: Leaf, ctx: ContextView): Outcome {
    var (after, ok) := env.apply(leaf, ctx);
    Outcome(after, ok, [Exec(leaf, ctx, after, ok)])
  }

  ghost function RunPlugin(env: Env, p: Plugin, ctx: ContextView): Outcome
    decreases p, 0
  {
    match p
    case LeafPlugin(leaf) => RunLeaf(env, leaf, ctx)
    case Sequence(_, steps, _) => RunFrom(env, p, 0, ctx)
  }

  /** The steps of a compiled sequence from step i on. */
  ghost function RunFrom(env: Env, p: Plugin, i: nat, ctx: ContextView): Outcome
    requires p.Sequence? && i <= |p.steps|
    decreases p, 0, |p.steps| - i
  {
    if i == |p.steps| then Outcome(ctx, true, [])
    else if !AllHold(env, CompiledMatcher(env, p.matchers), ctx, p.steps[i].conditions) then RunFrom(env, p, i + 1, ctx)
    else
      var o := RunPlugin(env, p.steps[i].plugin, ctx);
      if !o.ok || o.ctx.abort then o
      else
        var rest := RunFrom(env, p, i + 1, o.ctx);
        Outcome(rest.ctx, rest.ok, o.trace + rest.trace)
  }

  /**
   * The configuration evaluated by name. `rank` bounds the nesting of sequences; None means
   * a target is unknown or the bound was hit.
   */
  ghost function EvalName(env: Env, config: Config, plugins: map<Name, Leaf>, rank: nat, n: Name, ctx: ContextView)
    : Option<Outcome>
    decreases rank, 0, 1
  {
    if n in plugins then Some(RunLeaf(env, plugins[n], ctx))
    else if n in config && rank > 0 then EvalFrom(env, config, plugins, rank - 1, n, 0, ctx)
    else None
  }

  ghost function EvalFrom(env: Env, config: Config, plugins: map<Name, Leaf>, rank: nat, n: Name, i: nat, ctx: ContextView)
    : Option<Outcome>
    requires n in config && i <= |config[n]|
    decreases rank, 1, |config[n]| - i
  {
    if i == |config[n]| then Some(Outcome(ctx, true, []))
    else if !AllHold(env, NamedMatcher(env, plugins), ctx, config[n][i].conditions)
    then EvalFrom(env, config, plugins, rank, n, i + 1, ctx)
    else
      var o := EvalName(env, config, plugins, rank, config[n][i].exec, ctx);
      if o.None? || !o.value.ok || o.value.ctx.abort then o
      else
        var rest := EvalFrom(env, config, plugins, rank, n, i + 1, o.value.ctx);
        if rest.None? then None
        else Some(Outcome(rest.value.ctx, rest.value.ok, o.value.trace + rest.value.trace))
  }

  // -------------------------------------------------------------- abort and error discipline

  /** The executed leaves form one chain of contexts from `start` to `end`. */
  ghost predicate Chained(env: Env, start: ContextView, trace: seq<Exec>, end: ContextView)
    decreases |trace|
  {
    if trace == [] then start == end
    else
      && trace[0].before == start
      && env.apply(trace[0].leaf, start) == (trace[0].after, trace[0].ok)
      && Chained(env, trace[0].after, trace[1..], end)
  }

  /** Every executed leaf but the last succeeded without asking for an abort. */
  ghost predicate StopsAtOnce(trace: seq<Exec>) {
    forall i :: 0 <= i < |trace| - 1 ==> trace[i].ok && !trace[i].after.abort
  }

  ghost predicate Disciplined(env: Env, start: ContextView, o: Outcome) {
    && Chained(env, start, o.trace, o.ctx)
    && StopsAtOnce(o.trace)
    && (o.ok <==> o.trace == [] || o.trace[|o.trace| - 1].ok)
  }

  lemma {:induction false} ChainsJoin(env: Env, start: ContextView, first: seq<Exec>, mid: ContextView,
                                      rest: seq<Exec>, end: ContextView)
    requires Chained(env, start, first, mid) && Chained(env, mid, rest, end)
    ensures Chained(env, start, first + rest, end)
    decreases |first|
  {
    if first == [] {
      assert first + rest == rest;
    } else {
      ChainsJoin(env, first[0].after, first[1..], mid, rest, end);
      assert (first + rest)[1..] == first[1..] + rest;
    }
  }

  lemma DisciplineJoins(env: Env, start: ContextView, first: Outcome, rest: Outcome)
    requires Disciplined(env, start, first) && first.ok && !first.ctx.abort
    requires Disciplined(env, first.ctx, rest)
    ensures Disciplined(env, start, Outcome(rest.ctx, rest.ok, first.trace + rest.trace))
  {
    hide Chained, StopsAtOnce;
    LastOfChain(env, start, first.trace, first.ctx);
    ChainsJoin(env, start, first.trace, first.ctx, rest.trace, rest.ctx);
    StopsJoin(first.trace, rest.trace);
    assert rest.trace != [] ==> (first.trace + rest.trace)[|first.trace + rest.trace| - 1] == rest.trace[|rest.trace| - 1];
  }

  lemma StopsJoin(first: seq<Exec>, rest: seq<Exec>)
    requires StopsAtOnce(first) && StopsAtOnce(rest)
    requires first != [] ==> first[|first| - 1].ok && !first[|first| - 1].after.abort
    ensures StopsAtOnce(first + rest)
  {
    var trace := first + rest;
    forall i | 0 <= i < |trace| - 1 ensures trace[i].ok && !trace[i].after.abort {
      if i < |first| {
        assert trace[i] == first[i];
      } else {
        assert trace[i] == rest[i - |first|];
      }
    }
  }

  lemma {:induction false} LastOfChain(env: Env, start: ContextView, trace: seq<Exec>, end: ContextView)
    requires Chained(env, start, trace, end)
    ensures trace != [] ==> trace[|trace| - 1].after == end
    decreases |trace|
  {
    if |trace| > 1 {
      LastOfChain(env, trace[0].after, trace[1..], end);
    }
  }

  /**
   * After an abort or an error no later step of that or any enclosing sequence runs: in the
   * flat list of executed leaves, across all nesting, only the last may have aborted or
   * failed; the result is that leaf's, and each leaf sees exactly its predecessor's context.
   */
  lemma {:induction false} NothingRunsAfterAbortOrError(env: Env, p: Plugin, ctx: ContextView)
    ensures Disciplined(env, ctx, RunPlugin(env, p, ctx))
    decreases p, 0
  {
    if p.Sequence? {
      SequenceStopsToo(env, p, 0, ctx);
    }
  }

  lemma {:induction false} SequenceStopsToo(env: Env, p: Plugin, i: nat, ctx: ContextView)
    requires p.Sequence? && i <= |p.steps|
    ensures Disciplined(env, ctx, RunFrom(env, p, i, ctx))
    decreases p, 0, |p.steps| - i
  {
    if i < |p.steps| {
      if AllHold(env, CompiledMatcher(env, p.matchers), ctx, p.steps[i].conditions) {
        var o := RunPlugin(env, p.steps[i].plugin, ctx);
        NothingRunsAfterAbortOrError(env, p.steps[i].plugin, ctx);
        if o.ok && !o.ctx.abort {
          SequenceStopsToo(env, p, i + 1, o.ctx);
          DisciplineJoins(env, ctx, o, RunFrom(env, p, i + 1, o.ctx));
        }
      } else {
        SequenceStopsToo(env, p, i + 1, ctx);
      }
    }
  }

  // ------------------------------------------------------------------------ step by step

  /** A sequence without its first step. */
  ghost function Later(p: Plugin): Plugin
    requires p.Sequence? && p.steps != []
  {
    Sequence(p.name, p.steps[1..], p.matchers)
  }

  lemma {:induction false} LaterRuns(env: Env, p: Plugin, i: nat, ctx: ContextView)
    requires p.Sequence? && p.steps != [] && i < |p.steps|
    ensures RunFrom(env, p, i + 1, ctx) == RunFrom(env, Later(p), i, ctx)
    decreases |p.steps| - i
  {
    if i + 1 < |p.steps| {
      LaterRuns(env, p, i + 1, ctx);
      LaterRuns(env, p, i + 1, RunPlugin(env, p.steps[i + 1].plugin, ctx).ctx);
    }
  }

  /**
   * One step of a sequence: it is passed over unless all its conditions are met; otherwise its
   * plugin runs, and only if that neither failed nor asked for an abort do the later steps.
   */
  lemma FirstStep(env: Env, p: Plugin, ctx: ContextView)
    requires p.Sequence? && p.steps != []
    ensures var first, o := p.steps[0], RunPlugin(env, p, ctx);
            if !AllMet(env, p.matchers, ctx, first.conditions) then o == RunPlugin(env, Later(p), ctx)
            else
              var own := RunPlugin(env, first.plugin, ctx);
              if !own.ok || own.ctx.abort then o == own
              else
                var rest := RunPlugin(env, Later(p), own.ctx);
                o == Outcome(rest.ctx, rest.ok, own.trace + rest.trace)
  {
    ConditionsSpelled(env, p.matchers, ctx, p.steps[0].conditions);
    LaterRuns(env, p, 0, ctx);
    LaterRuns(env, p, 0, RunPlugin(env, p.steps[0].plugin, ctx).ctx);
  }

  /** A leaf is applied once, and a sequence without steps succeeds at once. */
  lemma SimplePlugins(env: Env, leaf: Leaf, n: Name, matchers: map<Name, Plugin>, ctx: ContextView)
    ensures var o := RunPlugin(env, LeafPlugin(leaf), ctx);
            && (o.ctx, o.ok) == env.apply(leaf, ctx)
            && o.trace == [Exec(leaf, ctx, o.ctx, o.ok)]
    ensures RunPlugin(env, Sequence(n, [], matchers), ctx) == Outcome(ctx, true, [])
  {
  }

  // --------------------------------------------------------------------- the interpreter

  /** The packet that flows through the pipeline; handlers update it in place. */
  class Context {
    var qname: string
    var qtype: nat
    var tags: set<string>
    var abort: bool
    var rest: World

    constructor (v: ContextView)
      ensures View() == v
    {
      qname, qtype, tags, abort, rest := v.qname, v.qtype, v.tags, v.abort, v.rest;
    }

    function View(): ContextView
      reads this
    {
      ContextView(qname, qtype, tags, abort, rest)
    }

    method Become(v: ContextView)
      modifies this
      ensures View() == v
    {
      qname, qtype, tags, abort, rest := v.qname, v.qtype, v.tags, v.abort, v.rest;
    }
  }

  method CheckMatch(env: Env, matchers: map<Name, Plugin>, ctx: Context, conditions: seq<Condition>)
    returns (matched: bool)
    ensures matched <==> AllMet(env, matchers, ctx.View(), conditions)
    ensures matched <==> AllHold(env, CompiledMatcher(env, matchers), ctx.View(), conditions)
  {
    ConditionsSpelled(env, matchers, ctx.View(), conditions);
    hide AllMet;
    for i := 0 to |conditions|
      invariant forall k :: 0 <= k < i ==> Holds(env, CompiledMatcher(env, matchers), ctx.View(), conditions[k])
    {
      var holds := false;
      match conditions[i] {
        case ByQname(patterns) =>
          var k := 0;
          while k < |patterns| && !holds
            invariant k <= |patterns|
            invariant holds <==> exists j :: 0 <= j < k && EndsWith(ctx.qname, patterns[j])
          {
            holds := EndsWith(ctx.qname, patterns[k]);
            k := k + 1;
          }
        case ByQtype(types) => holds := ctx.qtype in types;
        case ByTag(tag, invert) => holds := (tag in ctx.tags) != invert;
        case ByMatcher(n) =>
          if n in matchers && matchers[n].LeafPlugin? && env.isMatcher(matchers[n].leaf) {
            holds := env.matches(matchers[n].leaf, ctx.qname);
          }
        case Unsupported =>
      }
      if !holds {
        return false;
      }
    }
    return true;
  }

  /** Running a plugin in place computes its meaning. */
  method Handle(env: Env, p: Plugin, ctx: Context) returns (ok: bool)
    modifies ctx
    ensures var o := RunPlugin(env, p, old(ctx.View())); ctx.View() == o.ctx && ok == o.ok
    decreases p
  {
    match p {
      case LeafPlugin(leaf) =>
        var (after, success) := env.apply(leaf, ctx.View());
        ctx.Become(after);
        ok := success;
      case Sequence(_, steps, matchers) =>
        for i := 0 to |steps|
          invariant RunFrom(env, p, 0, old(ctx.View())).ctx == RunFrom(env, p, i, ctx.View()).ctx
          invariant RunFrom(env, p, 0, old(ctx.View())).ok == RunFrom(env, p, i, ctx.View()).ok
        {
          var matched := CheckMatch(env, matchers, ctx, steps[i].conditions);
          if !matched {
            continue;
          }
          var success := Handle(env, steps[i].plugin, ctx);
          if !success {
            return false;
          }
          if ctx.abort {
            break;
          }
        }
        ok := true;
    }
  }

  // ------------------------------------------------------------------------- the resolver

  ghost predicate Ready(plugins: map<Name, Leaf>, done: set<Name>, steps: seq<StepConf>) {
    forall k :: 0 <= k < |steps| ==> steps[k].exec in plugins || steps[k].exec in done
  }

  ghost predicate ClosedSet(config: Config, plugins: map<Name, Leaf>, done: set<Name>) {
    forall n :: n in config && Ready(plugins, done, config[n]) ==> n in done
  }

  ghost function Names(names: seq<Name>): set<Name> {
    set n | n in names
  }

  /** steps is conf with every target replaced by what `registry` holds under its name. */
  ghost predicate StepsCompiled(registry: map<Name, Plugin>, conf: seq<StepConf>, steps: seq<Step>) {
    && |steps| == |conf|
    && forall k {:trigger steps[k]} :: 0 <= k < |conf| ==>
         && conf[k].exec in registry
         && steps[k] == Step(conf[k].conditions, registry[conf[k].exec])
  }

  /** A snapshot of the registry: every leaf plugin under its name, and only sequences beside. */
  ghost predicate Snapshot(plugins: map<Name, Leaf>, matchers: map<Name, Plugin>) {
    forall n :: if n in plugins then n in matchers && matchers[n] == LeafPlugin(plugins[n])
                else n in matchers ==> matchers[n].Sequence?
  }

  ghost predicate BuiltAt(config: Config, plugins: map<Name, Leaf>, registry: map<Name, Plugin>,
                          built: seq<Name>, i: nat)
    requires i < |built|
  {
    var n := built[i];
    && n in config && n in registry && n !in built[..i] && n !in plugins
    && registry[n].Sequence? && registry[n].name == n
    && StepsCompiled(registry, config[n], registry[n].steps)
    && Snapshot(plugins, registry[n].matchers)
    && Ready(plugins, Names(built[..i]), config[n])
  }

  /** The registry holds the leaves and, in build order, the compiled sequences. */
  ghost predicate WellBuilt(config: Config, plugins: map<Name, Leaf>, registry: map<Name, Plugin>, built: seq<Name>) {
    && Snapshot(plugins, registry)
    && registry.Keys == plugins.Keys + Names(built)
    && forall i {:trigger built[i]} :: 0 <= i < |built| ==> BuiltAt(config, plugins, registry, built, i)
  }

  lemma BuiltGrows(config: Config, plugins: map<Name, Leaf>, registry: map<Name, Plugin>, built: seq<Name>,
                   n: Name, steps: seq<Step>)
    requires WellBuilt(config, plugins, registry, built)
    requires n in config && n !in built && n !in plugins && StepsCompiled(registry, config[n], steps)
    ensures WellBuilt(config, plugins, registry[n := Sequence(n, steps, registry)], built + [n])
  {
    var registry', built' := registry[n := Sequence(n, steps, registry)], built + [n];
    assert Names(built') == Names(built) + {n};
    forall i | 0 <= i < |built'| ensures BuiltAt(config, plugins, registry', built', i) {
      if i < |built| {
        assert BuiltAt(config, plugins, registry, built, i);
        assert built'[..i] == built[..i] && built'[i] == built[i];
      } else {
        assert built'[..i] == built;
        assert n !in registry;
        forall k | 0 <= k < |config[n]| ensures config[n][k].exec in plugins || config[n][k].exec in Names(built) {
          assert steps[k].plugin == registry[config[n][k].exec];
        }
      }
    }
  }

  method CompileSteps(registry: map<Name, Plugin>, conf: seq<StepConf>) returns (ready: bool, steps: seq<Step>)
    ensures ready <==> forall k :: 0 <= k < |conf| ==> conf[k].exec in registry
    ensures ready ==> StepsCompiled(registry, conf, steps)
  {
    steps := [];
    for i := 0 to |conf|
      invariant StepsCompiled(registry, conf[..i], steps)
      invariant forall k :: 0 <= k < i ==> conf[k].exec in registry
    {
      if conf[i].exec in registry {
        steps := steps + [Step(conf[i].conditions, registry[conf[i].exec])];
      } else {
        return false, steps;
      }
    }
    assert conf[..|conf|] == conf;
    ready := true;
  }

  const MAX_STALLED: nat := 20

  /** Distinct names: an iteration order of the configuration map. */
  ghost predicate Enumerates(order: seq<Name>, names: set<Name>) {
    && Names(order) == names
    && forall i, j :: 0 <= i < j < |order| ==> order[i] != order[j]
  }

  /** What the resolver maintains: a well-built registry whose sequences are the entry points. */
  ghost predicate Sound(config: Config, plugins: map<Name, Leaf>, registry: map<Name, Plugin>,
                        entryPoints: map<Name, Plugin>, built: seq<Name>) {
    && WellBuilt(config, plugins, registry, built)
    && entryPoints.Keys == Names(built)
    && forall n :: n in entryPoints ==> n in registry && entryPoints[n] == registry[n]
  }

  ghost predicate Blocked(config: Config, plugins: map<Name, Leaf>, built: seq<Name>, names: seq<Name>) {
    forall n :: n in names && n in config ==> !Ready(plugins, Names(built), config[n])
  }

  ghost predicate Resolving(config: Config, plugins: map<Name, Leaf>, registry: map<Name, Plugin>,
                            entryPoints: map<Name, Plugin>, built: seq<Name>, todo: seq<Name>) {
    config.Keys !! plugins.Keys ==>
      Sound(config, plugins, registry, entryPoints, built) && Enumerates(todo, config.Keys - Names(built))
  }

  lemma NothingBlocked(config: Config, plugins: map<Name, Leaf>, built: seq<Name>)
    ensures Blocked(config, plugins, built, [])
  {
  }

  lemma TodoShrinks(names: set<Name>, built: seq<Name>, front: seq<Name>, n: Name, back: seq<Name>)
    requires Enumerates(front + ([n] + back), names - Names(built))
    ensures n !in built && Names(built + [n]) == Names(built) + {n}
    ensures Enumerates(front + back, names - Names(built + [n]))
  {
    var todo := front + ([n] + back);
    assert todo[|front|] == n;
    assert n in Names(todo);
    assert Names(built + [n]) == Names(built) + {n};
    hide Enumerates, Names;
    RemoveName(front, [n] + back, names - Names(built));
    assert ([n] + back)[1..] == back;
    assert names - Names(built) - {n} == names - Names(built + [n]);
  }

  lemma SoundGrows(config: Config, plugins: map<Name, Leaf>, registry: map<Name, Plugin>,
                   entryPoints: map<Name, Plugin>, built: seq<Name>, n: Name, steps: seq<Step>)
    requires Sound(config, plugins, registry, entryPoints, built) && n in config && n !in built && n !in plugins
    requires StepsCompiled(registry, config[n], steps) && Names(built + [n]) == Names(built) + {n}
    ensures var p := Sequence(n, steps, registry);
            Sound(config, plugins, registry[n := p], entryPoints[n := p], built + [n])
  {
    hide WellBuilt, StepsCompiled, Names;
    BuiltGrows(config, plugins, registry, built, n, steps);
  }

  lemma BuildsOne(config: Config, plugins: map<Name, Leaf>, registry: map<Name, Plugin>, entryPoints: map<Name, Plugin>,
                  built: seq<Name>, front: seq<Name>, n: Name, back: seq<Name>, steps: seq<Step>)
    requires Resolving(config, plugins, registry, entryPoints, built, front + ([n] + back))
    requires n in config && StepsCompiled(registry, config[n], steps)
    ensures var p := Sequence(n, steps, registry);
            Resolving(config, plugins, registry[n := p], entryPoints[n := p], built + [n], front + back)
  {
    hide Sound, Enumerates, Names, StepsCompiled;
    if config.Keys !! plugins.Keys {
      TodoShrinks(config.Keys, built, front, n, back);
      SoundGrows(config, plugins, registry, entryPoints, built, n, steps);
    }
  }

  lemma BlocksOne(config: Config, plugins: map<Name, Leaf>, registry: map<Name, Plugin>, entryPoints: map<Name, Plugin>,
                  built: seq<Name>, names: seq<Name>, n: Name, back: seq<Name>)
    requires Resolving(config, plugins, registry, entryPoints, built, names + back)
    requires n in config && exists k :: 0 <= k < |config[n]| && config[n][k].exec !in registry
    ensures config.Keys !! plugins.Keys && Blocked(config, plugins, built, names) ==>
              Blocked(config, plugins, built, names + [n])
  {
    if config.Keys !! plugins.Keys {
      assert !Ready(plugins, Names(built), config[n]);
    }
  }

  lemma Closes(config: Config, plugins: map<Name, Leaf>, registry: map<Name, Plugin>, entryPoints: map<Name, Plugin>,
               built: seq<Name>, todo: seq<Name>)
    requires Resolving(config, plugins, registry, entryPoints, built, todo)
    requires config.Keys !! plugins.Keys ==> Blocked(config, plugins, built, todo)
    ensures config.Keys !! plugins.Keys ==>
              Sound(config, plugins, registry, entryPoints, built) && ClosedSet(config, plugins, Names(built))
  {
    if config.Keys !! plugins.Keys {
      forall n | n in config && n !in Names(built) ensures !Ready(plugins, Names(built), config[n]) {
        assert n in Names(todo);
      }
    }
  }

  lemma RemoveName(front: seq<Name>, back: seq<Name>, names: set<Name>)
    requires back != [] && Enumerates(front + back, names)
    ensures Enumerates(front + back[1..], names - {back[0]})
  {
    var all, fewer := front + back, front + back[1..];
    assert all[|front|] == back[0];
    forall i, j | 0 <= i < j < |fewer| ensures fewer[i] != fewer[j] {
      var i', j' := if i < |front| then i else i + 1, if j < |front| then j else j + 1;
      assert all[i'] == fewer[i] && all[j'] == fewer[j];
    }
    forall n ensures n in Names(fewer) <==> n in names - {back[0]} {
      if n in fewer {
        var i :| 0 <= i < |fewer| && fewer[i] == n;
        var i' := if i < |front| then i else i + 1;
        assert all[i'] == n && i' != |front|;
      }
      if n in names - {back[0]} {
        assert n in Names(all);
        var i :| 0 <= i < |all| && all[i] == n;
        assert fewer[if i < |front| then i else i - 1] == n;
      }
    }
  }

  /** What was built is contained in every closed set: with closedness, it is the least one. */
  lemma {:induction false} BuiltIsLeast(config: Config, plugins: map<Name, Leaf>, registry: map<Name, Plugin>,
                                        built: seq<Name>, closed: set<Name>, i: nat)
    requires WellBuilt(config, plugins, registry, built) && ClosedSet(config, plugins, closed)
    requires i <= |built|
    ensures Names(built[..i]) <= closed
  {
    if i == 0 {
    } else {
      BuiltIsLeast(config, plugins, registry, built, closed, i - 1);
      assert BuiltAt(config, plugins, registry, built, i - 1);
      assert built[..i] == built[..i - 1] + [built[i - 1]];
    }
  }

  /** The least set closed under "every target is a plugin or in the set". */
  ghost predicate LeastClosed(config: Config, plugins: map<Name, Leaf>, names: set<Name>) {
    && ClosedSet(config, plugins, names)
    && forall closed: set<Name> :: ClosedSet(config, plugins, closed) ==> names <= closed
  }

  lemma BuiltIsLeastClosed(config: Config, plugins: map<Name, Leaf>, registry: map<Name, Plugin>,
                           entryPoints: map<Name, Plugin>, built: seq<Name>)
    ensures Sound(config, plugins, registry, entryPoints, built) && ClosedSet(config, plugins, Names(built)) ==>
              registry.Keys == plugins.Keys + entryPoints.Keys && LeastClosed(config, plugins, entryPoints.Keys)
  {
    if Sound(config, plugins, registry, entryPoints, built) && ClosedSet(config, plugins, Names(built)) {
      forall closed: set<Name> | ClosedSet(config, plugins, closed) ensures Names(built) <= closed {
        BuiltIsLeast(config, plugins, registry, built, closed, |built|);
        assert built[..|built|] == built;
      }
    }
  }

  /**
   * One pass: every pending sequence whose targets are all registered is compiled and
   * registered at once, so later sequences of the same pass see it; the rest stay pending.
   */
  method OnePass(config: Config, plugins: map<Name, Leaf>, registry0: map<Name, Plugin>,
                 entryPoints0: map<Name, Plugin>, ghost built0: seq<Name>, pending: seq<Name>)
    returns (registry: map<Name, Plugin>, entryPoints: map<Name, Plugin>, ghost built: seq<Name>,
             nextPending: seq<Name>)
    requires forall n :: n in pending ==> n in config
    requires Resolving(config, plugins, registry0, entryPoints0, built0, pending)
    ensures forall n :: n in nextPending ==> n in config
    ensures Resolving(config, plugins, registry, entryPoints, built, nextPending)
    ensures |nextPending| <= |pending|
    ensures |nextPending| == |pending| && config.Keys !! plugins.Keys ==> Blocked(config, plugins, built, nextPending)
  {
    registry, entryPoints, built, nextPending := registry0, entryPoints0, built0, [];
    assert [] + pending[0..] == pending;
    NothingBlocked(config, plugins, built);
    hide Sound, Resolving, Enumerates, Blocked, StepsCompiled, ClosedSet, Names;
    for i := 0 to |pending|
      invariant forall n :: n in nextPending ==> n in config
      invariant |nextPending| <= i
      invariant Resolving(config, plugins, registry, entryPoints, built, nextPending + pending[i..])
      invariant |nextPending| == i && config.Keys !! plugins.Keys ==> Blocked(config, plugins, built, nextPending)
    {
      var n := pending[i];
      assert pending[i..] == [n] + pending[i + 1..];
      var ready, steps := CompileSteps(registry, config[n]);
      if ready {
        BuildsOne(config, plugins, registry, entryPoints, built, nextPending, n, pending[i + 1..], steps);
        var compiled := Sequence(n, steps, registry);
        registry, entryPoints, built := registry[n := compiled], entryPoints[n := compiled], built + [n];
      } else {
        BlocksOne(config, plugins, registry, entryPoints, built, nextPending, n, pending[i..]);
        assert nextPending + pending[i..] == nextPending + [n] + pending[i + 1..];
        nextPending := nextPending + [n];
      }
    }
    assert nextPending + pending[|pending|..] == nextPending;
  }

  /**
   * The multi-pass resolver, for an arbitrary iteration order of the configuration. Names of
   * sequences and of plugins must differ for the promises: the registry is one map.
   */
  method Resolve(config: Config, plugins: map<Name, Leaf>, order: seq<Name>)
    returns (registry: map<Name, Plugin>, entryPoints: map<Name, Plugin>, ghost built: seq<Name>)
    requires Enumerates(order, config.Keys)
    ensures config.Keys !! plugins.Keys ==>
              Sound(config, plugins, registry, entryPoints, built) && ClosedSet(config, plugins, Names(built))
    ensures config.Keys !! plugins.Keys ==>
              registry.Keys == plugins.Keys + entryPoints.Keys && LeastClosed(config, plugins, entryPoints.Keys)
  {
    registry := map n | n in plugins :: LeafPlugin(plugins[n]);
    entryPoints, built := map[], [];
    var pending := order;
    var stalled: nat := 0;
    assert Names(built) == {} && config.Keys - Names(built) == config.Keys;
    assert forall n :: n in order ==> n in Names(order);
    while pending != []
      invariant forall n :: n in pending ==> n in config
      invariant Resolving(config, plugins, registry, entryPoints, built, pending)
      invariant stalled <= MAX_STALLED
      decreases |pending|, MAX_STALLED - stalled
    {
      var nextPending;
      registry, entryPoints, built, nextPending := OnePass(config, plugins, registry, entryPoints, built, pending);
      var progress := |nextPending| < |pending|;
      if !progress {
        stalled := stalled + 1;
        if stalled > MAX_STALLED {
          Closes(config, plugins, registry, entryPoints, built, nextPending);
          BuiltIsLeastClosed(config, plugins, registry, entryPoints, built);
          return;
        }
      }
      pending := nextPending;
    }
    NothingBlocked(config, plugins, built);
    Closes(config, plugins, registry, entryPoints, built, pending);
    BuiltIsLeastClosed(config, plugins, registry, entryPoints, built);
  }

  /** So every iteration order of the configuration builds the same sequences. */
  lemma OrderDoesNotMatter(config: Config, plugins: map<Name, Leaf>, reg1: map<Name, Plugin>, built1: seq<Name>,
                           reg2: map<Name, Plugin>, built2: seq<Name>)
    requires WellBuilt(config, plugins, reg1, built1) && ClosedSet(config, plugins, Names(built1))
    requires WellBuilt(config, plugins, reg2, built2) && ClosedSet(config, plugins, Names(built2))
    ensures Names(built1) == Names(built2)
  {
    BuiltIsLeast(config, plugins, reg1, built1, Names(built2), |built1|);
    BuiltIsLeast(config, plugins, reg2, built2, Names(built1), |built2|);
    assert built1[..|built1|] == built1 && built2[..|built2|] == built2;
  }

  // ------------------------------------------------------------------ compiler correctness

  /** The i-th built sequence behaves as its name does, at every rank above its position. */
  lemma {:induction false} SequenceMeansItsName(env: Env, config: Config, plugins: map<Name, Leaf>,
                                                registry: map<Name, Plugin>, built: seq<Name>,
                                                i: nat, rank: nat, ctx: ContextView)
    requires WellBuilt(config, plugins, registry, built) && i < |built| && rank > i
    ensures built[i] in registry
    ensures EvalName(env, config, plugins, rank, built[i], ctx) == Some(RunPlugin(env, registry[built[i]], ctx))
    decreases i, 1
  {
    assert BuiltAt(config, plugins, registry, built, i);
    StepsMeanTheirNames(env, config, plugins, registry, built, i, rank - 1, 0, ctx);
  }

  lemma {:induction false} StepsMeanTheirNames(env: Env, config: Config, plugins: map<Name, Leaf>,
                                               registry: map<Name, Plugin>, built: seq<Name>,
                                               i: nat, rank: nat, k: nat, ctx: ContextView)
    requires WellBuilt(config, plugins, registry, built) && i < |built| && rank >= i
    requires BuiltAt(config, plugins, registry, built, i) && k <= |config[built[i]]|
    ensures EvalFrom(env, config, plugins, rank, built[i], k, ctx)
            == Some(RunFrom(env, registry[built[i]], k, ctx))
    decreases i, 0, |config[built[i]]| - k
  {
    var p, conf := registry[built[i]], config[built[i]];
    if k < |conf| {
      assert p.steps[k].conditions == conf[k].conditions;
      SameConditions(env, plugins, p.matchers, ctx, conf[k].conditions);
      if AllHold(env, NamedMatcher(env, plugins), ctx, conf[k].conditions) {
        var target := conf[k].exec;
        if target !in plugins {
          var j :| 0 <= j < i && built[..i][j] == target;
          SequenceMeansItsName(env, config, plugins, registry, built, j, rank, ctx);
        }
        var o := RunPlugin(env, p.steps[k].plugin, ctx);
        assert EvalName(env, config, plugins, rank, target, ctx) == Some(o);
        if o.ok && !o.ctx.abort {
          StepsMeanTheirNames(env, config, plugins, registry, built, i, rank, k + 1, o.ctx);
        }
      } else {
        StepsMeanTheirNames(env, config, plugins, registry, built, i, rank, k + 1, ctx);
      }
    }
  }

  lemma SameConditions(env: Env, plugins: map<Name, Leaf>, matchers: map<Name, Plugin>, ctx: ContextView,
                       conditions: seq<Condition>)
    requires Snapshot(plugins, matchers)
    ensures AllHold(env, NamedMatcher(env, plugins), ctx, conditions)
            <==> AllHold(env, CompiledMatcher(env, matchers), ctx, conditions)
  {
    var named, compiled := NamedMatcher(env, plugins), CompiledMatcher(env, matchers);
    forall n: Name ensures named(n) == compiled(n) {
    }
    forall i | 0 <= i < |conditions|
      ensures Holds(env, named, ctx, conditions[i]) <==> Holds(env, compiled, ctx, conditions[i])
    {
    }
  }

  /**
   * The compiler is correct: running the compiled entry point gives the same context, result
   * and executed leaves as evaluating the configuration by name, which is defined at a rank
   * no larger than the number of sequences built - so execution always ends.
   */
  lemma CompiledMeansConfigured(env: Env, config: Config, plugins: map<Name, Leaf>, registry: map<Name, Plugin>,
                                built: seq<Name>, n: Name, ctx: ContextView)
    requires WellBuilt(config, plugins, registry, built) && n in built
    ensures n in registry
    ensures EvalName(env, config, plugins, |built|, n, ctx) == Some(RunPlugin(env, registry[n], ctx))
  {
    var i :| 0 <= i < |built| && built[i] == n;
    SequenceMeansItsName(env, config, plugins, registry, built, i, |built|, ctx);
  }
}
