/**
 * DNS messages as the iterative resolver reads them, the log of what one lookup does, and what
 * one level of its walk must have done (src/plugins/recursive_backend.rs).
 *
 * A level is told from its events alone, by the fields of the records received: what each reply
 * obliges the resolver to do next, which servers are asked, and which addresses go on.
 */
module ResolverLog {
  import opened Basics

  type Name(==,!new)
  type Ip(==,!new)

  datatype RData =
    | A(ip: Ip) | AAAA(ip: Ip) | NS(host: Name) | CNAME(target: Name) | SOA | Other(code: nat)

  datatype Record = Record(owner: Name, data: RData)

  datatype Rcode = NoError | NXDomain | OtherCode

  datatype Message = Message(rcode: Rcode, answers: seq<Record>, authority: seq<Record>, additional: seq<Record>)

  datatype Error = DepthExceeded | CnameTooDeep | LoopDetected | Transport | NoServer

  datatype Result = Ok(message: Message) | Err(error: Error)

  const MAX_DEPTH: nat := 15
  const MAX_CNAME_DEPTH: nat := 8
  const MAX_TRY: nat := 6
  const TYPE_A: nat := 1
  const TYPE_AAAA: nat := 28

  function TypeCode(data: RData): nat {
    match data
    case A(_) => TYPE_A
    case NS(_) => 2
    case CNAME(_) => 5
    case SOA => 6
    case AAAA(_) => TYPE_AAAA
    case Other(code) => code
  }

  /** The type numbers of section 3.2.2 of RFC 1035 and section 2.1 of RFC 3596. */
  lemma TypeNumbers(ip: Ip, host: Name, code: nat)
    ensures TypeCode(A(ip)) == 1 && TypeCode(NS(host)) == 2 && TypeCode(CNAME(host)) == 5
    ensures TypeCode(SOA) == 6 && TypeCode(AAAA(ip)) == 28 && TypeCode(Other(code)) == code
  {
  }

  // ------------------------------------------------------------------- reading a response

  ghost predicate HasType(records: seq<Record>, qtype: nat) {
    exists i :: 0 <= i < |records| && TypeCode(records[i].data) == qtype
  }

  /** `target` is the CNAME a resolver follows: the first one among the answers. */
  ghost predicate FirstCname(records: seq<Record>, target: Name) {
    exists i :: 0 <= i < |records| && records[i].data == CNAME(target)
                && forall k :: 0 <= k < i ==> !records[k].data.CNAME?
  }

  ghost predicate IsNoData(m: Message) {
    m.rcode == NoError && m.answers == [] && exists i :: 0 <= i < |m.authority| && m.authority[i].data.SOA?
  }

  ghost predicate Conclusive(m: Message, qtype: nat) {
    m.rcode == NXDomain || IsNoData(m) || HasType(m.answers, qtype)
  }

  ghost predicate HasCname(m: Message) {
    exists i :: 0 <= i < |m.answers| && m.answers[i].data.CNAME?
  }

  ghost predicate GivesAddress(rec: Record, ip: Ip) {
    rec.data == A(ip) || rec.data == AAAA(ip)
  }

  ghost predicate HasAddress(records: seq<Record>, ip: Ip) {
    exists i :: 0 <= i < |records| && GivesAddress(records[i], ip)
  }

  /** The authority section delegates to host. */
  ghost predicate NsHost(m: Message, host: Name) {
    exists i :: 0 <= i < |m.authority| && m.authority[i].data == NS(host)
  }

  /** Some additional record gives host's address as ip. */
  ghost predicate Glue(additional: seq<Record>, host: Name, ip: Ip) {
    exists i :: 0 <= i < |additional| && additional[i].owner == host && GivesAddress(additional[i], ip)
  }

  /** The message gives ip as the address of a host it delegates to. */
  ghost predicate GlueOf(m: Message, ip: Ip) {
    exists host :: NsHost(m, host) && Glue(m.additional, host, ip)
  }

  ghost predicate HasGlue(m: Message) {
    exists ip :: GlueOf(m, ip)
  }

  // ------------------------------------------------------------- what happened on the wire

  /**
   * A UDP query with its reply (None: an error), an answer of the trusted resolver, or the end
   * of a nested lookup. The last two carry the depth budget of their call, a nested lookup its
   * CNAME budget too.
   */
  datatype Event =
    | Query(server: Ip, name: Name, qtype: nat, reply: Option<Message>)
    | Trusted(host: Name, qtype: nat, depth: nat, ips: seq<Ip>)
    | Returned(name: Name, qtype: nat, depth: nat, cnameDepth: nat, result: Result)

  type Question = (Name, nat)

  ghost predicate Asks(e: Event, q: Question) {
    e.Query? && e.name == q.0 && e.qtype == q.1
  }

  /** Number of UDP queries that ask q. */
  ghost function Asked(log: seq<Event>, q: Question): nat {
    if log == [] then 0
    else Asked(log[..|log| - 1], q) + if Asks(log[|log| - 1], q) then 1 else 0
  }

  lemma AskedAppend(log: seq<Event>, e: Event, q: Question)
    ensures Asked(log + [e], q) == Asked(log, q) + if Asks(e, q) then 1 else 0
  {
    assert (log + [e])[..|log|] == log;
  }

  ghost predicate NoAsks(events: seq<Event>, q: Question) {
    forall k :: 0 <= k < |events| ==> !Asks(events[k], q)
  }

  lemma {:induction false} AskedConcat(log: seq<Event>, more: seq<Event>, q: Question)
    ensures Asked(log + more, q) == Asked(log, q) + Asked(more, q)
    decreases |more|
  {
    if more == [] {
      assert log + more == log;
    } else {
      var rest, last := more[..|more| - 1], more[|more| - 1];
      assert more == rest + [last];
      assert log + more == (log + rest) + [last];
      hide Asked;
      AskedConcat(log, rest, q);
      AskedAppend(log + rest, last, q);
      AskedAppend(rest, last, q);
    }
  }

  lemma {:induction false} NotAsked(events: seq<Event>, q: Question)
    ensures NoAsks(events, q) <==> Asked(events, q) == 0
  {
    if events == [] {
    } else {
      var rest, last := events[..|events| - 1], events[|events| - 1];
      NotAsked(rest, q);
      assert events == rest + [last];
      assert NoAsks(events, q) <==> NoAsks(rest, q) && !Asks(last, q);
    }
  }

  /** The log grew by these events. */
  ghost predicate Grew(log: seq<Event>, log': seq<Event>, events: seq<Event>) {
    log' == log + events
  }

  lemma GrewNot(log: seq<Event>)
    ensures Grew(log, log, [])
  {
  }

  lemma GrewTwice(log0: seq<Event>, log1: seq<Event>, log2: seq<Event>, a: seq<Event>, b: seq<Event>)
    requires Grew(log0, log1, a) && Grew(log1, log2, b)
    ensures Grew(log0, log2, a + b)
  {
  }

  lemma GrewThrice(log0: seq<Event>, log1: seq<Event>, log2: seq<Event>, log3: seq<Event>,
                   a: seq<Event>, b: seq<Event>, c: seq<Event>)
    requires Grew(log0, log1, a) && Grew(log1, log2, b) && Grew(log2, log3, c)
    ensures Grew(log0, log3, a + b + c)
  {
  }

  lemma GrewIsPrefix(log: seq<Event>, log': seq<Event>, events: seq<Event>)
    requires Grew(log, log', events)
    ensures log <= log'
  {
  }

  // ---------------------------------------------------------- looking up the delegated hosts

  /** Only calls with a smaller depth budget returned in these events. */
  ghost predicate Below(events: seq<Event>, depth: nat) {
    forall k :: 0 <= k < |events| && !events[k].Query? ==> events[k].depth < depth
  }

  /** A lookup with these budgets, or the trusted resolver for it, came back with address ip. */
  ghost predicate Found(e: Event, depth: nat, cnameDepth: nat, ip: Ip) {
    || (e.Returned? && e.depth == depth && e.cnameDepth == cnameDepth && e.result.Ok?
        && HasAddress(e.result.message.answers, ip))
    || (e.Trusted? && e.depth == depth && ip in e.ips)
  }

  ghost predicate FoundIn(events: seq<Event>, depth: nat, cnameDepth: nat, ip: Ip) {
    exists k :: 0 <= k < |events| && Found(events[k], depth, cnameDepth, ip)
  }

  ghost predicate IsLookup(e: Event, host: Name, qtype: nat, depth: nat, cnameDepth: nat) {
    e.Returned? && e.name == host && e.qtype == qtype && e.depth == depth && e.cnameDepth == cnameDepth
  }

  ghost predicate LookedUpIn(events: seq<Event>, host: Name, qtype: nat, depth: nat, cnameDepth: nat) {
    exists k :: 0 <= k < |events| && IsLookup(events[k], host, qtype, depth, cnameDepth)
  }

  ghost predicate AsksTrusted(e: Event, host: Name, qtype: nat, depth: nat) {
    e.Trusted? && e.host == host && e.qtype == qtype && e.depth == depth
  }

  ghost predicate TrustedIn(events: seq<Event>, host: Name, qtype: nat, depth: nat) {
    exists k :: 0 <= k < |events| && AsksTrusted(events[k], host, qtype, depth)
  }

  /**
   * The addresses of hosts, from their lookups: both address types of each are looked up, the
   * trusted resolver is asked for each if nothing is found at all, and what is found is exactly
   * what goes on.
   */
  ghost predicate Resolution(events: seq<Event>, hosts: seq<Name>, depth: nat, cnameDepth: nat,
                             hasTrusted: bool, ips: seq<Ip>) {
    && Below(events, depth + 1)
    && (forall h :: h in hosts ==>
          LookedUpIn(events, h, TYPE_A, depth, cnameDepth) && LookedUpIn(events, h, TYPE_AAAA, depth, cnameDepth))
    && (forall ip :: ip in ips <==> FoundIn(events, depth, cnameDepth, ip))
    && (ips == [] && hasTrusted ==>
          forall h :: h in hosts ==> TrustedIn(events, h, TYPE_A, depth) && TrustedIn(events, h, TYPE_AAAA, depth))
    && TrustedLast(events, depth, cnameDepth)
    && (!hasTrusted ==> forall k :: 0 <= k < |events| && events[k].Trusted? ==> events[k].depth < depth)
  }

  /** The trusted resolver is asked only while no lookup has found an address. */
  ghost predicate TrustedLast(events: seq<Event>, depth: nat, cnameDepth: nat) {
    forall i, k, ip :: 0 <= i < k < |events| && events[k].Trusted? && events[k].depth == depth && events[i].Returned? ==>
      !Found(events[i], depth, cnameDepth, ip)
  }

  lemma FoundConcat(events: seq<Event>, more: seq<Event>, depth: nat, cnameDepth: nat, ip: Ip)
    ensures FoundIn(events + more, depth, cnameDepth, ip) <==>
              FoundIn(events, depth, cnameDepth, ip) || FoundIn(more, depth, cnameDepth, ip)
  {
    if FoundIn(events, depth, cnameDepth, ip) {
      var k :| 0 <= k < |events| && Found(events[k], depth, cnameDepth, ip);
      assert (events + more)[k] == events[k];
    }
    if FoundIn(more, depth, cnameDepth, ip) {
      var k :| 0 <= k < |more| && Found(more[k], depth, cnameDepth, ip);
      assert (events + more)[|events| + k] == more[k];
    }
  }

  lemma LookedUpGrowsBy(events: seq<Event>, more: seq<Event>, host: Name, qtype: nat, depth: nat, cnameDepth: nat)
    requires LookedUpIn(events, host, qtype, depth, cnameDepth) || LookedUpIn(more, host, qtype, depth, cnameDepth)
    ensures LookedUpIn(events + more, host, qtype, depth, cnameDepth)
  {
    if LookedUpIn(events, host, qtype, depth, cnameDepth) {
      var k :| 0 <= k < |events| && IsLookup(events[k], host, qtype, depth, cnameDepth);
      assert (events + more)[k] == events[k];
    } else {
      var k :| 0 <= k < |more| && IsLookup(more[k], host, qtype, depth, cnameDepth);
      assert (events + more)[|events| + k] == more[k];
    }
  }

  lemma TrustedGrowsBy(events: seq<Event>, more: seq<Event>, host: Name, qtype: nat, depth: nat)
    requires TrustedIn(events, host, qtype, depth) || TrustedIn(more, host, qtype, depth)
    ensures TrustedIn(events + more, host, qtype, depth)
  {
    if TrustedIn(events, host, qtype, depth) {
      var k :| 0 <= k < |events| && AsksTrusted(events[k], host, qtype, depth);
      assert (events + more)[k] == events[k];
    } else {
      var k :| 0 <= k < |more| && AsksTrusted(more[k], host, qtype, depth);
      assert (events + more)[|events| + k] == more[k];
    }
  }

  /** A call's events: what happened inside it, at smaller depths, and its return. */
  ghost predicate CallEvents(events: seq<Event>, q: Question, depth: nat, cnameDepth: nat, r: Result) {
    && events != [] && events[|events| - 1] == Returned(q.0, q.1, depth, cnameDepth, r)
    && Below(events[..|events| - 1], depth)
  }

  /** A finished call shows nothing at its own depth but its result. */
  lemma CallShows(events: seq<Event>, q: Question, depth: nat, cnameDepth: nat, r: Result)
    requires CallEvents(events, q, depth, cnameDepth, r)
    ensures Below(events, depth + 1)
    ensures forall ip :: FoundIn(events, depth, cnameDepth, ip) <==> r.Ok? && HasAddress(r.message.answers, ip)
    ensures forall cd, ip :: cd != cnameDepth ==> !FoundIn(events, depth, cd, ip)
    ensures LookedUpIn(events, q.0, q.1, depth, cnameDepth)
    ensures forall k :: 0 <= k < |events| && events[k].Trusted? ==> events[k].depth < depth
  {
    var last := |events| - 1;
    forall k | 0 <= k < last && !events[k].Query? ensures events[k].depth < depth {
      assert events[..last][k] == events[k];
    }
    forall ip | r.Ok? && HasAddress(r.message.answers, ip) ensures FoundIn(events, depth, cnameDepth, ip) {
      assert Found(events[last], depth, cnameDepth, ip);
    }
    assert IsLookup(events[last], q.0, q.1, depth, cnameDepth);
  }

  lemma NothingResolved(depth: nat, cnameDepth: nat, hasTrusted: bool)
    ensures Resolution([], [], depth, cnameDepth, hasTrusted, [])
  {
  }

  /** The two lookups of one more host. */
  lemma HostLookedUp(events: seq<Event>, hosts: seq<Name>, depth: nat, cnameDepth: nat, hasTrusted: bool, ips: seq<Ip>,
                     host: Name, a: seq<Event>, ra: Result, b: seq<Event>, rb: Result, ips': seq<Ip>)
    requires Resolution(events, hosts, depth, cnameDepth, hasTrusted, ips)
    requires CallEvents(a, (host, TYPE_A), depth, cnameDepth, ra) && CallEvents(b, (host, TYPE_AAAA), depth, cnameDepth, rb)
    requires forall ip :: ip in ips' <==>
               || ip in ips || (ra.Ok? && HasAddress(ra.message.answers, ip))
               || (rb.Ok? && HasAddress(rb.message.answers, ip))
    requires ips' != [] || !hasTrusted
    ensures Resolution(events + a + b, hosts + [host], depth, cnameDepth, hasTrusted, ips')
  {
    CallShows(a, (host, TYPE_A), depth, cnameDepth, ra);
    CallShows(b, (host, TYPE_AAAA), depth, cnameDepth, rb);
    BothLookedUp(events, hosts, depth, cnameDepth, host, a, b);
    assert TrustedLast(events + a + b, depth, cnameDepth) by {
      hide LookedUpIn, FoundIn, TrustedIn;
    }
    forall ip ensures ip in ips' <==> FoundIn(events + a + b, depth, cnameDepth, ip) {
      FoundConcat(events, a, depth, cnameDepth, ip);
      FoundConcat(events + a, b, depth, cnameDepth, ip);
    }
  }

  lemma BothLookedUp(events: seq<Event>, hosts: seq<Name>, depth: nat, cnameDepth: nat,
                     host: Name, a: seq<Event>, b: seq<Event>)
    requires forall h :: h in hosts ==>
               LookedUpIn(events, h, TYPE_A, depth, cnameDepth) && LookedUpIn(events, h, TYPE_AAAA, depth, cnameDepth)
    requires LookedUpIn(a, host, TYPE_A, depth, cnameDepth) && LookedUpIn(b, host, TYPE_AAAA, depth, cnameDepth)
    ensures forall h :: h in hosts + [host] ==>
              && LookedUpIn(events + a + b, h, TYPE_A, depth, cnameDepth)
              && LookedUpIn(events + a + b, h, TYPE_AAAA, depth, cnameDepth)
  {
    forall h | h in hosts + [host]
      ensures LookedUpIn(events + a + b, h, TYPE_A, depth, cnameDepth)
      ensures LookedUpIn(events + a + b, h, TYPE_AAAA, depth, cnameDepth)
    {
      hide LookedUpIn;
      if h in hosts {
        LookedUpGrowsBy(events, a, h, TYPE_A, depth, cnameDepth);
        LookedUpGrowsBy(events, a, h, TYPE_AAAA, depth, cnameDepth);
        LookedUpGrowsBy(events + a, b, h, TYPE_A, depth, cnameDepth);
        LookedUpGrowsBy(events + a, b, h, TYPE_AAAA, depth, cnameDepth);
      } else {
        LookedUpGrowsBy(events, a, h, TYPE_A, depth, cnameDepth);
        LookedUpGrowsBy(events + a, b, h, TYPE_A, depth, cnameDepth);
        LookedUpGrowsBy(events + a, b, h, TYPE_AAAA, depth, cnameDepth);
      }
    }
  }

  /** The two lookups of one more host that leave nothing found, then the trusted resolver. */
  lemma HostTrusted(events: seq<Event>, hosts: seq<Name>, depth: nat, cnameDepth: nat,
                    host: Name, a: seq<Event>, ra: Result, b: seq<Event>, rb: Result, v4: seq<Ip>, v6: seq<Ip>)
    requires Resolution(events, hosts, depth, cnameDepth, true, [])
    requires CallEvents(a, (host, TYPE_A), depth, cnameDepth, ra) && CallEvents(b, (host, TYPE_AAAA), depth, cnameDepth, rb)
    requires forall ip :: ra.Ok? ==> !HasAddress(ra.message.answers, ip)
    requires forall ip :: rb.Ok? ==> !HasAddress(rb.message.answers, ip)
    ensures Resolution(events + a + b + [Trusted(host, TYPE_A, depth, v4), Trusted(host, TYPE_AAAA, depth, v6)], hosts + [host],
                       depth, cnameDepth, true, v4 + v6)
  {
    var asked := [Trusted(host, TYPE_A, depth, v4), Trusted(host, TYPE_AAAA, depth, v6)];
    CallShows(a, (host, TYPE_A), depth, cnameDepth, ra);
    CallShows(b, (host, TYPE_AAAA), depth, cnameDepth, rb);
    BothLookedUp(events, hosts, depth, cnameDepth, host, a, b);
    var all := events + a + b + asked;
    forall i, ip | 0 <= i < |events + a + b| ensures !Found(all[i], depth, cnameDepth, ip) {
      FoundConcat(events, a, depth, cnameDepth, ip);
      FoundConcat(events + a, b, depth, cnameDepth, ip);
      assert !FoundIn(events + a + b, depth, cnameDepth, ip);
      assert all[i] == (events + a + b)[i];
    }
    forall ip ensures ip in v4 + v6 <==> FoundIn(all, depth, cnameDepth, ip) {
      FoundConcat(events, a, depth, cnameDepth, ip);
      FoundConcat(events + a, b, depth, cnameDepth, ip);
      FoundConcat(events + a + b, asked, depth, cnameDepth, ip);
      assert Found(asked[0], depth, cnameDepth, ip) <==> ip in v4;
      assert Found(asked[1], depth, cnameDepth, ip) <==> ip in v6;
    }
    forall h | h in hosts + [host]
      ensures LookedUpIn(all, h, TYPE_A, depth, cnameDepth) && LookedUpIn(all, h, TYPE_AAAA, depth, cnameDepth)
      ensures TrustedIn(all, h, TYPE_A, depth) && TrustedIn(all, h, TYPE_AAAA, depth)
    {
      LookedUpGrowsBy(events + a + b, asked, h, TYPE_A, depth, cnameDepth);
      LookedUpGrowsBy(events + a + b, asked, h, TYPE_AAAA, depth, cnameDepth);
      if h in hosts {
        TrustedGrowsBy(events, a, h, TYPE_A, depth);
        TrustedGrowsBy(events + a, b, h, TYPE_A, depth);
        TrustedGrowsBy(events, a, h, TYPE_AAAA, depth);
        TrustedGrowsBy(events + a, b, h, TYPE_AAAA, depth);
      } else {
        assert AsksTrusted(asked[0], h, TYPE_A, depth) && AsksTrusted(asked[1], h, TYPE_AAAA, depth);
      }
      TrustedGrowsBy(events + a + b, asked, h, TYPE_A, depth);
      TrustedGrowsBy(events + a + b, asked, h, TYPE_AAAA, depth);
    }
  }

  // ------------------------------------------------------------------ one level of the walk

  /** The queries for q go to the servers in order, to at most six of them. */
  ghost predicate InOrder(events: seq<Event>, q: Question, servers: seq<Ip>) {
    forall k :: 0 <= k < |events| && Asks(events[k], q) ==> AskedInTurn(events, k, q, servers)
  }

  ghost predicate AskedInTurn(events: seq<Event>, k: nat, q: Question, servers: seq<Ip>)
    requires k < |events| && events[k].Query?
  {
    var n := Asked(events[..k], q);
    n < Min(MAX_TRY, |servers|) && events[k].server == servers[n]
  }

  /** No query for q follows event k. */
  ghost predicate LastAsk(events: seq<Event>, k: int, q: Question) {
    forall i: nat :: k < i < |events| ==> !Asks(events[i], q)
  }

  /** After event k, and before q is asked again, the host is looked up for addresses of that type. */
  ghost predicate LookedUpAfter(events: seq<Event>, k: nat, q: Question, host: Name, qtype: nat, depth: nat, cnameDepth: nat) {
    exists j :: k < j < |events| && IsLookup(events[j], host, qtype, depth, cnameDepth)
                && forall i :: k < i < j ==> !Asks(events[i], q)
  }

  ghost predicate TrustedAfter(events: seq<Event>, k: nat, q: Question, host: Name, qtype: nat, depth: nat) {
    exists j :: k < j < |events| && AsksTrusted(events[j], host, qtype, depth)
                && forall i :: k < i < j ==> !Asks(events[i], q)
  }

  /**
   * A reply with neither answer, alias nor glue: every host it delegates to is looked up, and
   * unless that gives an address each is asked of the trusted resolver, if there is one.
   */
  ghost predicate HostsTried(events: seq<Event>, k: nat, q: Question, m: Message, depth: nat, cnameDepth: nat,
                             hasTrusted: bool, resolved: bool) {
    forall h :: NsHost(m, h) ==>
      && LookedUpAfter(events, k, q, h, TYPE_A, depth, cnameDepth)
      && LookedUpAfter(events, k, q, h, TYPE_AAAA, depth, cnameDepth)
      && (hasTrusted && !resolved ==>
            TrustedAfter(events, k, q, h, TYPE_A, depth) && TrustedAfter(events, k, q, h, TYPE_AAAA, depth))
  }

  /** The lookup of an alias in place of the question ends the events and gives the answer. */
  ghost predicate AliasFollowed(events: seq<Event>, q: Question, m: Message, depth: nat, cnameDepth: nat,
                                answer: Option<Result>) {
    && events != []
    && var last := events[|events| - 1];
       && last.Returned? && FirstCname(m.answers, last.name) && last.qtype == q.1
       && last.depth + 1 == depth && last.cnameDepth + 1 == cnameDepth && answer == Some(last.result)
  }

  /** What the reply to the query at k obliges the level to do. */
  ghost predicate Handled(events: seq<Event>, k: nat, q: Question, m: Message, depth: nat, cnameDepth: nat,
                          hasTrusted: bool, answer: Option<Result>, next: seq<Ip>)
    requires depth > 0
  {
    if Conclusive(m, q.1) then k == |events| - 1 && answer == Some(Ok(m))
    else if HasCname(m) then LastAsk(events, k, q) && AliasFollowed(events, q, m, depth, cnameDepth, answer)
    else if HasGlue(m) then k == |events| - 1 && answer.None? && next != [] && forall ip :: ip in next <==> GlueOf(m, ip)
    else HostsTried(events, k, q, m, depth - 1, cnameDepth, hasTrusted, LastAsk(events, k, q) && next != [])
  }

  ghost predicate ReplyAt(events: seq<Event>, k: nat, q: Question, m: Message) {
    k < |events| && Asks(events[k], q) && events[k].reply == Some(m)
  }

  ghost predicate ErrorAt(events: seq<Event>, k: nat, q: Question) {
    k < |events| && Asks(events[k], q) && events[k].reply.None?
  }

  ghost predicate AllHandled(events: seq<Event>, q: Question, depth: nat, cnameDepth: nat,
                             hasTrusted: bool, answer: Option<Result>, next: seq<Ip>)
    requires depth > 0
  {
    forall k: nat, m :: ReplyAt(events, k, q, m) ==> Handled(events, k, q, m, depth, cnameDepth, hasTrusted, answer, next)
  }

  /** An address found for a delegated host ends the level and goes on. */
  ghost predicate FoundGoesOn(events: seq<Event>, q: Question, depth: nat, cnameDepth: nat,
                              answer: Option<Result>, next: seq<Ip>)
    requires depth > 0
  {
    forall j: nat, ip :: j < |events| && Found(events[j], depth - 1, cnameDepth, ip) ==>
      answer.None? && ip in next && LastAsk(events, j, q)
  }

  /** Nothing goes on but the glue of a reply and what was found for delegated hosts. */
  ghost predicate NextIsGiven(events: seq<Event>, q: Question, depth: nat, cnameDepth: nat, next: seq<Ip>)
    requires depth > 0
  {
    forall ip :: ip in next ==> FoundIn(events, depth - 1, cnameDepth, ip) || exists k, m :: GlueAt(events, k, q, m, ip)
  }

  ghost predicate GlueAt(events: seq<Event>, k: nat, q: Question, m: Message, ip: Ip) {
    ReplyAt(events, k, q, m) && !Conclusive(m, q.1) && !HasCname(m) && GlueOf(m, ip)
  }

  ghost predicate Decides(events: seq<Event>, k: nat, q: Question, m: Message) {
    ReplyAt(events, k, q, m) && (Conclusive(m, q.1) || HasCname(m))
  }

  /**
   * One level, told from its events. Its three ends: an answer, addresses to go on with, or
   * giving up after all servers it may ask.
   */
  ghost predicate LevelSpec(events: seq<Event>, q: Question, servers: seq<Ip>, depth: nat, cnameDepth: nat,
                            hasTrusted: bool, answer: Option<Result>, next: seq<Ip>, lastError: Option<Error>)
    requires depth > 0
  {
    && InOrder(events, q, servers) && Below(events, depth)
    && AllHandled(events, q, depth, cnameDepth, hasTrusted, answer, next)
    && FoundGoesOn(events, q, depth, cnameDepth, answer, next)
    && NextIsGiven(events, q, depth, cnameDepth, next)
    && (answer.Some? ==> next == [] && exists k, m :: Decides(events, k, q, m))
    && (answer.None? && next == [] ==> Asked(events, q) == Min(MAX_TRY, |servers|))
    && (lastError == if exists k :: ErrorAt(events, k, q) then Some(Transport) else None)
    && (servers != [] ==> Asked(events, q) > 0)
  }

  /** The reply is none that ends a level, and its hosts, if any, have been tried in vain. */
  ghost predicate Passed(events: seq<Event>, k: nat, q: Question, m: Message, depth: nat, cnameDepth: nat, hasTrusted: bool)
    requires depth > 0
  {
    && !Conclusive(m, q.1) && !HasCname(m) && !HasGlue(m)
    && HostsTried(events, k, q, m, depth - 1, cnameDepth, hasTrusted, false)
  }

  /** No lookup with these budgets gave an address. */
  ghost predicate NothingFound(events: seq<Event>, depth: nat, cnameDepth: nat) {
    forall ip :: !FoundIn(events, depth, cnameDepth, ip)
  }

  lemma StillNothing(events: seq<Event>, more: seq<Event>, depth: nat, cnameDepth: nat)
    requires NothingFound(events, depth, cnameDepth) && NothingFound(more, depth, cnameDepth)
    ensures NothingFound(events + more, depth, cnameDepth)
  {
    forall ip ensures !FoundIn(events + more, depth, cnameDepth, ip) {
      FoundConcat(events, more, depth, cnameDepth, ip);
    }
  }

  lemma NothingAnywhere(events: seq<Event>, depth: nat, cnameDepth: nat)
    requires NothingFound(events, depth, cnameDepth)
    ensures forall j: nat, ip :: j < |events| ==> !Found(events[j], depth, cnameDepth, ip)
  {
    forall j: nat, ip | j < |events| ensures !Found(events[j], depth, cnameDepth, ip) {
      assert !FoundIn(events, depth, cnameDepth, ip);
    }
  }

  ghost function LastError(events: seq<Event>, q: Question): Option<Error> {
    if exists k :: ErrorAt(events, k, q) then Some(Transport) else None
  }

  /** A level under way: every reply before event `upTo` was passed over. */
  ghost predicate Past(events: seq<Event>, q: Question, servers: seq<Ip>, depth: nat, cnameDepth: nat,
                       hasTrusted: bool, asked: nat, upTo: nat)
    requires depth > 0
  {
    && InOrder(events, q, servers) && Below(events, depth) && Asked(events, q) == asked
    && (forall k: nat, m :: k < upTo && ReplyAt(events, k, q, m) ==> Passed(events, k, q, m, depth, cnameDepth, hasTrusted))
  }

  /** Events without a query for q leave all that was said of earlier ones. */
  lemma PassedGrows(events: seq<Event>, more: seq<Event>, k: nat, q: Question, m: Message, depth: nat, cnameDepth: nat,
                    hasTrusted: bool)
    requires depth > 0 && k < |events| && Passed(events, k, q, m, depth, cnameDepth, hasTrusted)
    ensures Passed(events + more, k, q, m, depth, cnameDepth, hasTrusted)
  {
    var all := events + more;
    forall h | NsHost(m, h)
      ensures LookedUpAfter(all, k, q, h, TYPE_A, depth - 1, cnameDepth)
      ensures LookedUpAfter(all, k, q, h, TYPE_AAAA, depth - 1, cnameDepth)
      ensures hasTrusted ==> TrustedAfter(all, k, q, h, TYPE_A, depth - 1) && TrustedAfter(all, k, q, h, TYPE_AAAA, depth - 1)
    {
      hide NsHost, Conclusive, HasCname, HasGlue;
      LookedUpAfterGrows(events, more, k, q, h, TYPE_A, depth - 1, cnameDepth);
      LookedUpAfterGrows(events, more, k, q, h, TYPE_AAAA, depth - 1, cnameDepth);
      if hasTrusted {
        TrustedAfterGrows(events, more, k, q, h, TYPE_A, depth - 1);
        TrustedAfterGrows(events, more, k, q, h, TYPE_AAAA, depth - 1);
      }
    }
  }

  lemma LookedUpAfterGrows(events: seq<Event>, more: seq<Event>, k: nat, q: Question, h: Name, qtype: nat,
                           depth: nat, cnameDepth: nat)
    requires LookedUpAfter(events, k, q, h, qtype, depth, cnameDepth)
    ensures LookedUpAfter(events + more, k, q, h, qtype, depth, cnameDepth)
  {
    var all := events + more;
    var j :| k < j < |events| && IsLookup(events[j], h, qtype, depth, cnameDepth)
             && forall i :: k < i < j ==> !Asks(events[i], q);
    assert all[j] == events[j] && forall i :: k < i < j ==> all[i] == events[i];
  }

  lemma TrustedAfterGrows(events: seq<Event>, more: seq<Event>, k: nat, q: Question, h: Name, qtype: nat, depth: nat)
    requires TrustedAfter(events, k, q, h, qtype, depth)
    ensures TrustedAfter(events + more, k, q, h, qtype, depth)
  {
    var all := events + more;
    var j :| k < j < |events| && AsksTrusted(events[j], h, qtype, depth)
             && forall i :: k < i < j ==> !Asks(events[i], q);
    assert all[j] == events[j] && forall i :: k < i < j ==> all[i] == events[i];
  }

  lemma InOrderGrows(events: seq<Event>, more: seq<Event>, q: Question, servers: seq<Ip>)
    requires InOrder(events, q, servers) && NoAsks(more, q)
    ensures InOrder(events + more, q, servers)
  {
    var all := events + more;
    LastStays(events, more, |events| - 1, q);
    forall k | 0 <= k < |all| && Asks(all[k], q) ensures AskedInTurn(all, k, q, servers) {
      assert all[..k] == events[..k];
      assert AskedInTurn(events, k, q, servers);
    }
  }

  lemma PastGrows(events: seq<Event>, more: seq<Event>, q: Question, servers: seq<Ip>, depth: nat, cnameDepth: nat,
                  hasTrusted: bool, asked: nat, upTo: nat)
    requires depth > 0 && upTo <= |events| && Past(events, q, servers, depth, cnameDepth, hasTrusted, asked, upTo)
    requires NoAsks(more, q) && Below(more, depth)
    ensures Past(events + more, q, servers, depth, cnameDepth, hasTrusted, asked, upTo)
    ensures LastError(events + more, q) == LastError(events, q)
  {
    var all := events + more;
    InOrderGrows(events, more, q, servers);
    AskedConcat(events, more, q);
    NotAsked(more, q);
    hide InOrder, Asked, Passed;
    forall k: nat, m | k < upTo && ReplyAt(all, k, q, m) ensures Passed(all, k, q, m, depth, cnameDepth, hasTrusted) {
      assert ReplyAt(events, k, q, m);
      PassedGrows(events, more, k, q, m, depth, cnameDepth, hasTrusted);
    }
    ErrorsGrow(events, more, q);
  }

  lemma ErrorsGrow(events: seq<Event>, more: seq<Event>, q: Question)
    requires NoAsks(more, q)
    ensures LastError(events + more, q) == LastError(events, q)
  {
    var all := events + more;
    forall k: nat ensures ErrorAt(all, k, q) <==> ErrorAt(events, k, q) {
      if k < |events| {
        assert all[k] == events[k];
      } else if k < |all| {
        assert all[k] == more[k - |events|];
      }
    }
  }

  lemma PastNothing(q: Question, servers: seq<Ip>, depth: nat, cnameDepth: nat, hasTrusted: bool)
    requires depth > 0
    ensures Past([], q, servers, depth, cnameDepth, hasTrusted, 0, 0) && NothingFound([], depth - 1, cnameDepth)
    ensures LastError([], q) == None
  {
  }

  /** One more query, to the next server. */
  lemma PastAsks(events: seq<Event>, e: Event, q: Question, servers: seq<Ip>, depth: nat, cnameDepth: nat,
                 hasTrusted: bool, asked: nat)
    requires depth > 0 && Past(events, q, servers, depth, cnameDepth, hasTrusted, asked, |events|)
    requires Asks(e, q) && asked < Min(MAX_TRY, |servers|) && e.server == servers[asked]
    requires NothingFound(events, depth - 1, cnameDepth)
    ensures Past(events + [e], q, servers, depth, cnameDepth, hasTrusted, asked + 1, |events|)
    ensures NothingFound(events + [e], depth - 1, cnameDepth)
    ensures LastError(events + [e], q) == if e.reply.None? then Some(Transport) else LastError(events, q)
  {
    var all := events + [e];
    AskedAppend(events, e, q);
    forall k | 0 <= k < |all| && Asks(all[k], q) ensures AskedInTurn(all, k, q, servers) {
      assert all[..k] == events[..k];
      if k < |events| {
        assert all[k] == events[k];
        assert AskedInTurn(events, k, q, servers);
      } else {
        assert events[..k] == events;
      }
    }
    forall k: nat, m | k < |events| && ReplyAt(all, k, q, m)
      ensures Passed(all, k, q, m, depth, cnameDepth, hasTrusted)
    {
      assert ReplyAt(events, k, q, m);
      PassedGrows(events, [e], k, q, m, depth, cnameDepth, hasTrusted);
    }
    StillNothing(events, [e], depth - 1, cnameDepth);
    OneMoreError(events, e, q);
  }

  lemma OneMoreError(events: seq<Event>, e: Event, q: Question)
    requires Asks(e, q)
    ensures LastError(events + [e], q) == if e.reply.None? then Some(Transport) else LastError(events, q)
  {
    var all := events + [e];
    forall k: nat ensures ErrorAt(all, k, q) <==> ErrorAt(events, k, q) || (k == |events| && e.reply.None?) {
      if k < |events| {
        assert all[k] == events[k];
      }
    }
    assert e.reply.None? ==> ErrorAt(all, |events|, q);
  }

  /** The last query failed, or its reply was passed over too. */
  lemma PastToo(events: seq<Event>, q: Question, servers: seq<Ip>, depth: nat, cnameDepth: nat,
                hasTrusted: bool, asked: nat, last: nat)
    requires depth > 0 && last < |events| && LastAsk(events, last, q)
    requires Past(events, q, servers, depth, cnameDepth, hasTrusted, asked, last)
    requires forall m :: ReplyAt(events, last, q, m) ==> Passed(events, last, q, m, depth, cnameDepth, hasTrusted)
    ensures Past(events, q, servers, depth, cnameDepth, hasTrusted, asked, |events|)
  {
  }

  /** Replies passed over oblige to nothing more. */
  lemma PassedIsHandled(events: seq<Event>, k: nat, q: Question, m: Message, depth: nat, cnameDepth: nat,
                        hasTrusted: bool, answer: Option<Result>, next: seq<Ip>)
    requires depth > 0 && Passed(events, k, q, m, depth, cnameDepth, hasTrusted)
    ensures Handled(events, k, q, m, depth, cnameDepth, hasTrusted, answer, next)
  {
  }

  /** The four parts of a level's end that are the same for all ends. */
  lemma LevelEnds(events: seq<Event>, q: Question, servers: seq<Ip>, depth: nat, cnameDepth: nat, hasTrusted: bool,
                  asked: nat, last: nat, m: Message, answer: Option<Result>, next: seq<Ip>)
    requires depth > 0 && last < |events| && LastAsk(events, last, q) && ReplyAt(events, last, q, m)
    requires Past(events, q, servers, depth, cnameDepth, hasTrusted, asked, last) && asked > 0
    requires Handled(events, last, q, m, depth, cnameDepth, hasTrusted, answer, next)
    requires FoundGoesOn(events, q, depth, cnameDepth, answer, next)
    requires NextIsGiven(events, q, depth, cnameDepth, next)
    requires answer.Some? ==> next == [] && (Conclusive(m, q.1) || HasCname(m))
    requires answer.Some? || next != []
    ensures LevelSpec(events, q, servers, depth, cnameDepth, hasTrusted, answer, next, LastError(events, q))
  {
    hide Passed, Handled, InOrder, FoundGoesOn, NextIsGiven, Conclusive, HasCname, Asked;
    forall k: nat, m' | ReplyAt(events, k, q, m')
      ensures Handled(events, k, q, m', depth, cnameDepth, hasTrusted, answer, next)
    {
      if k < last {
        PassedIsHandled(events, k, q, m', depth, cnameDepth, hasTrusted, answer, next);
      }
    }
    assert answer.Some? ==> Decides(events, last, q, m);
  }

  lemma NothingGoesOn(events: seq<Event>, q: Question, depth: nat, cnameDepth: nat, answer: Option<Result>, next: seq<Ip>)
    requires depth > 0 && NothingFound(events, depth - 1, cnameDepth)
    ensures FoundGoesOn(events, q, depth, cnameDepth, answer, next)
  {
    NothingAnywhere(events, depth - 1, cnameDepth);
  }

  lemma EndConcluded(events: seq<Event>, q: Question, servers: seq<Ip>, depth: nat, cnameDepth: nat, hasTrusted: bool,
                     asked: nat, m: Message)
    requires depth > 0 && events != [] && ReplyAt(events, |events| - 1, q, m) && Conclusive(m, q.1) && asked > 0
    requires Past(events, q, servers, depth, cnameDepth, hasTrusted, asked, |events| - 1)
    requires NothingFound(events, depth - 1, cnameDepth)
    ensures LevelSpec(events, q, servers, depth, cnameDepth, hasTrusted, Some(Ok(m)), [], LastError(events, q))
  {
    NothingGoesOn(events, q, depth, cnameDepth, Some(Ok(m)), []);
    LevelEnds(events, q, servers, depth, cnameDepth, hasTrusted, asked, |events| - 1, m, Some(Ok(m)), []);
  }

  lemma EndGlue(events: seq<Event>, q: Question, servers: seq<Ip>, depth: nat, cnameDepth: nat, hasTrusted: bool,
                asked: nat, m: Message, next: seq<Ip>)
    requires depth > 0 && events != [] && ReplyAt(events, |events| - 1, q, m) && asked > 0
    requires !Conclusive(m, q.1) && !HasCname(m) && next != [] && forall ip :: ip in next <==> GlueOf(m, ip)
    requires Past(events, q, servers, depth, cnameDepth, hasTrusted, asked, |events| - 1)
    requires NothingFound(events, depth - 1, cnameDepth)
    ensures LevelSpec(events, q, servers, depth, cnameDepth, hasTrusted, None, next, LastError(events, q))
  {
    assert GlueOf(m, next[0]);
    forall ip | ip in next ensures exists k, m' :: GlueAt(events, k, q, m', ip) {
      assert GlueAt(events, |events| - 1, q, m, ip);
    }
    NothingGoesOn(events, q, depth, cnameDepth, None, next);
    LevelEnds(events, q, servers, depth, cnameDepth, hasTrusted, asked, |events| - 1, m, None, next);
  }

  lemma EndAlias(events: seq<Event>, call: seq<Event>, q: Question, servers: seq<Ip>, depth: nat, cnameDepth: nat,
                 hasTrusted: bool, asked: nat, m: Message, target: Name, r: Result)
    requires depth > 0 && cnameDepth > 0 && events != [] && ReplyAt(events, |events| - 1, q, m) && asked > 0
    requires !Conclusive(m, q.1) && FirstCname(m.answers, target)
    requires CallEvents(call, (target, q.1), depth - 1, cnameDepth - 1, r) && NoAsks(call, q)
    requires Past(events, q, servers, depth, cnameDepth, hasTrusted, asked, |events| - 1)
    requires NothingFound(events, depth - 1, cnameDepth)
    ensures LevelSpec(events + call, q, servers, depth, cnameDepth, hasTrusted, Some(r), [], LastError(events + call, q))
  {
    var all, last := events + call, |events| - 1;
    CallShows(call, (target, q.1), depth - 1, cnameDepth - 1, r);
    PastGrows(events, call, q, servers, depth, cnameDepth, hasTrusted, asked, last);
    StillNothing(events, call, depth - 1, cnameDepth);
    NothingGoesOn(all, q, depth, cnameDepth, Some(r), []);
    LastStays(events, call, last, q);
    assert HasCname(m);
    assert all[|all| - 1] == call[|call| - 1];
    assert ReplyAt(all, last, q, m);
    LevelEnds(all, q, servers, depth, cnameDepth, hasTrusted, asked, last, m, Some(r), []);
  }

  lemma LastStays(events: seq<Event>, more: seq<Event>, last: int, q: Question)
    requires last == |events| - 1 && NoAsks(more, q)
    ensures LastAsk(events + more, last, q)
  {
    forall i | last < i < |events + more| ensures !Asks((events + more)[i], q) {
      assert (events + more)[i] == more[i - |events|];
    }
  }

  /** What was looked up for the hosts of the last reply counts as tried. */
  lemma HostsWereTried(events: seq<Event>, more: seq<Event>, q: Question, m: Message, hosts: seq<Name>,
                       depth: nat, cnameDepth: nat, hasTrusted: bool, ips: seq<Ip>)
    requires events != [] && NoAsks(more, q) && Resolution(more, hosts, depth, cnameDepth, hasTrusted, ips)
    requires forall h :: NsHost(m, h) ==> h in hosts
    ensures HostsTried(events + more, |events| - 1, q, m, depth, cnameDepth, hasTrusted, ips != [])
  {
    var all, k := events + more, |events| - 1;
    LastStays(events, more, k, q);
    forall h | NsHost(m, h)
      ensures LookedUpAfter(all, k, q, h, TYPE_A, depth, cnameDepth)
      ensures LookedUpAfter(all, k, q, h, TYPE_AAAA, depth, cnameDepth)
      ensures hasTrusted && ips == [] ==> TrustedAfter(all, k, q, h, TYPE_A, depth) && TrustedAfter(all, k, q, h, TYPE_AAAA, depth)
    {
      LookedUpNow(events, more, q, h, TYPE_A, depth, cnameDepth);
      LookedUpNow(events, more, q, h, TYPE_AAAA, depth, cnameDepth);
      if hasTrusted && ips == [] {
        TrustedNow(events, more, q, h, TYPE_A, depth);
        TrustedNow(events, more, q, h, TYPE_AAAA, depth);
      }
    }
  }

  lemma LookedUpNow(events: seq<Event>, more: seq<Event>, q: Question, h: Name, qtype: nat, depth: nat, cnameDepth: nat)
    requires events != [] && LastAsk(events + more, |events| - 1, q) && LookedUpIn(more, h, qtype, depth, cnameDepth)
    ensures LookedUpAfter(events + more, |events| - 1, q, h, qtype, depth, cnameDepth)
  {
    var i :| 0 <= i < |more| && IsLookup(more[i], h, qtype, depth, cnameDepth);
    assert (events + more)[|events| + i] == more[i];
  }

  lemma TrustedNow(events: seq<Event>, more: seq<Event>, q: Question, h: Name, qtype: nat, depth: nat)
    requires events != [] && LastAsk(events + more, |events| - 1, q) && TrustedIn(more, h, qtype, depth)
    ensures TrustedAfter(events + more, |events| - 1, q, h, qtype, depth)
  {
    var i :| 0 <= i < |more| && AsksTrusted(more[i], h, qtype, depth);
    assert (events + more)[|events| + i] == more[i];
  }

  lemma NotBefore(events: seq<Event>, more: seq<Event>, j: nat, depth: nat, cnameDepth: nat, ip: Ip)
    requires !FoundIn(events, depth, cnameDepth, ip) && j < |events + more|
    requires Found((events + more)[j], depth, cnameDepth, ip)
    ensures j >= |events|
  {
  }

  lemma EndResolved(events: seq<Event>, more: seq<Event>, q: Question, servers: seq<Ip>, depth: nat, cnameDepth: nat,
                    hasTrusted: bool, asked: nat, m: Message, hosts: seq<Name>, next: seq<Ip>)
    requires depth > 0 && events != [] && ReplyAt(events, |events| - 1, q, m) && asked > 0
    requires !Conclusive(m, q.1) && !HasCname(m) && !HasGlue(m) && forall h :: NsHost(m, h) ==> h in hosts
    requires Resolution(more, hosts, depth - 1, cnameDepth, hasTrusted, next) && NoAsks(more, q) && next != []
    requires Past(events, q, servers, depth, cnameDepth, hasTrusted, asked, |events| - 1)
    requires NothingFound(events, depth - 1, cnameDepth)
    ensures LevelSpec(events + more, q, servers, depth, cnameDepth, hasTrusted, None, next, LastError(events + more, q))
  {
    var all, last := events + more, |events| - 1;
    PastGrows(events, more, q, servers, depth, cnameDepth, hasTrusted, asked, last);
    HostsWereTried(events, more, q, m, hosts, depth - 1, cnameDepth, hasTrusted, next);
    LastStays(events, more, last, q);
    forall j: nat, ip | j < |all| && Found(all[j], depth - 1, cnameDepth, ip)
      ensures ip in next && LastAsk(all, j, q)
    {
      NotBefore(events, more, j, depth - 1, cnameDepth, ip);
      assert all[j] == more[j - |events|];
      assert FoundIn(more, depth - 1, cnameDepth, ip);
    }
    forall ip | ip in next ensures FoundIn(all, depth - 1, cnameDepth, ip) {
      FoundConcat(events, more, depth - 1, cnameDepth, ip);
    }
    assert ReplyAt(all, last, q, m);
    LevelEnds(all, q, servers, depth, cnameDepth, hasTrusted, asked, last, m, None, next);
  }

  /** Hosts tried in vain: the level goes on to the next server. */
  lemma PastInVain(events: seq<Event>, more: seq<Event>, q: Question, servers: seq<Ip>, depth: nat, cnameDepth: nat,
                   hasTrusted: bool, asked: nat, m: Message, hosts: seq<Name>)
    requires depth > 0 && events != [] && ReplyAt(events, |events| - 1, q, m)
    requires !Conclusive(m, q.1) && !HasCname(m) && !HasGlue(m) && forall h :: NsHost(m, h) ==> h in hosts
    requires Resolution(more, hosts, depth - 1, cnameDepth, hasTrusted, []) && NoAsks(more, q)
    requires Past(events, q, servers, depth, cnameDepth, hasTrusted, asked, |events| - 1)
    requires NothingFound(events, depth - 1, cnameDepth)
    ensures Past(events + more, q, servers, depth, cnameDepth, hasTrusted, asked, |events + more|)
    ensures NothingFound(events + more, depth - 1, cnameDepth)
    ensures LastError(events + more, q) == LastError(events, q)
  {
    var all, last := events + more, |events| - 1;
    PastGrows(events, more, q, servers, depth, cnameDepth, hasTrusted, asked, last);
    HostsWereTried(events, more, q, m, hosts, depth - 1, cnameDepth, hasTrusted, []);
    LastStays(events, more, last, q);
    StillNothing(events, more, depth - 1, cnameDepth);
    assert all[last] == events[last];
    PastToo(all, q, servers, depth, cnameDepth, hasTrusted, asked, last);
  }

  lemma EndGivingUp(events: seq<Event>, q: Question, servers: seq<Ip>, depth: nat, cnameDepth: nat, hasTrusted: bool)
    requires depth > 0 && NothingFound(events, depth - 1, cnameDepth)
    requires Past(events, q, servers, depth, cnameDepth, hasTrusted, Min(MAX_TRY, |servers|), |events|)
    ensures LevelSpec(events, q, servers, depth, cnameDepth, hasTrusted, None, [], LastError(events, q))
  {
    NothingGoesOn(events, q, depth, cnameDepth, None, []);
    hide Passed, Handled, InOrder, FoundGoesOn, Asked;
    forall k: nat, m | ReplyAt(events, k, q, m)
      ensures Handled(events, k, q, m, depth, cnameDepth, hasTrusted, None, [])
    {
      PassedIsHandled(events, k, q, m, depth, cnameDepth, hasTrusted, None, []);
    }
  }

  /** An error, or a reply that delegates to nobody: the level goes on to the next server. */
  lemma PastUnusable(events: seq<Event>, q: Question, servers: seq<Ip>, depth: nat, cnameDepth: nat,
                     hasTrusted: bool, asked: nat)
    requires depth > 0 && events != [] && Asks(events[|events| - 1], q)
    requires Past(events, q, servers, depth, cnameDepth, hasTrusted, asked, |events| - 1)
    requires var reply := events[|events| - 1].reply;
             reply.Some? ==> var m := reply.value;
               !Conclusive(m, q.1) && !HasCname(m) && forall h :: !NsHost(m, h)
    ensures Past(events, q, servers, depth, cnameDepth, hasTrusted, asked, |events|)
  {
    PastToo(events, q, servers, depth, cnameDepth, hasTrusted, asked, |events| - 1);
  }

  lemma NoHosts(m: Message, hosts: seq<Name>)
    requires hosts == [] && forall h :: h in hosts <==> NsHost(m, h)
    ensures forall h :: !NsHost(m, h)
  {
  }

  /** A referral with addresses to go on with, from its glue or from lookups, ends the level. */
  lemma EndReferral(events: seq<Event>, more: seq<Event>, q: Question, servers: seq<Ip>, depth: nat, cnameDepth: nat,
                    hasTrusted: bool, asked: nat, m: Message, hosts: seq<Name>, next: seq<Ip>)
    requires depth > 0 && events != [] && ReplyAt(events, |events| - 1, q, m) && asked > 0
    requires !Conclusive(m, q.1) && !HasCname(m) && next != [] && forall h :: NsHost(m, h) ==> h in hosts
    requires HasGlue(m) ==> more == [] && forall ip :: ip in next <==> GlueOf(m, ip)
    requires !HasGlue(m) ==> Resolution(more, hosts, depth - 1, cnameDepth, hasTrusted, next) && NoAsks(more, q)
    requires Past(events, q, servers, depth, cnameDepth, hasTrusted, asked, |events| - 1)
    requires NothingFound(events, depth - 1, cnameDepth)
    ensures LevelSpec(events + more, q, servers, depth, cnameDepth, hasTrusted, None, next, LastError(events, q))
  {
    if HasGlue(m) {
      assert events + more == events;
      EndGlue(events, q, servers, depth, cnameDepth, hasTrusted, asked, m, next);
    } else {
      hide Past, Resolution, LevelSpec, Conclusive, HasCname, HasGlue, NsHost, NothingFound, NoAsks;
      EndResolved(events, more, q, servers, depth, cnameDepth, hasTrusted, asked, m, hosts, next);
      ErrorsGrow(events, more, q);
    }
  }
}
