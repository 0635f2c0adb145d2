/**
 * The iterative resolver (src/plugins/recursive_backend.rs): two mutually recursive
 * routines that walk referrals from the root servers, sharing one visited set, a depth
 * budget and a CNAME budget.
 *
 * The network and the trusted resolver may answer anything at any time (`:= *`), and every
 * shuffle is an arbitrary permutation.
 */
module IterativeResolver {
  import opened Basics
  import opened ResolverLog
  import opened ResolverWalk

  // ------------------------------------------------------------------- reading a response

  function IpOf(rec: Record): seq<Ip> {
    match rec.data
    case A(ip) => [ip]
    case AAAA(ip) => [ip]
    case _ => []
  }

  function Ips(records: seq<Record>): seq<Ip> {
    if records == [] then [] else Ips(records[..|records| - 1]) + IpOf(records[|records| - 1])
  }

  function NsNames(records: seq<Record>): seq<Name> {
    if records == [] then []
    else
      var rest := NsNames(records[..|records| - 1]);
      match records[|records| - 1].data
      case NS(host) => rest + [host]
      case _ => rest
  }

  /** The addresses extracted are those the records hold. */
  lemma {:induction false} IpsHeld(records: seq<Record>, ip: Ip)
    ensures ip in Ips(records) <==> HasAddress(records, ip)
  {
    if records == [] {
    } else {
      var rest, last := records[..|records| - 1], records[|records| - 1];
      IpsHeld(rest, ip);
      assert records == rest + [last];
      assert HasAddress(records, ip) <==> HasAddress(rest, ip) || GivesAddress(last, ip) by {
        if HasAddress(rest, ip) {
          var i :| 0 <= i < |rest| && GivesAddress(rest[i], ip);
          assert GivesAddress(records[i], ip);
        }
        assert GivesAddress(last, ip) ==> GivesAddress(records[|records| - 1], ip);
      }
    }
  }

  /** The name servers extracted are those the records name. */
  lemma {:induction false} NsNamesHeld(records: seq<Record>, host: Name)
    ensures host in NsNames(records) <==> exists i :: 0 <= i < |records| && records[i].data == NS(host)
  {
    if records == [] {
    } else {
      var rest, last := records[..|records| - 1], records[|records| - 1];
      NsNamesHeld(rest, host);
      assert records == rest + [last];
      assert forall i :: 0 <= i < |rest| ==> rest[i] == records[i];
      assert host in NsNames(records) <==> host in NsNames(rest) || last.data == NS(host);
    }
  }

  method ExtractIps(records: seq<Record>) returns (ips: seq<Ip>)
    ensures ips == Ips(records) && forall ip :: ip in ips <==> HasAddress(records, ip)
  {
    ips := [];
    for i := 0 to |records|
      invariant ips == Ips(records[..i])
    {
      assert records[..i + 1][..i] == records[..i];
      match records[i].data {
        case A(ip) => ips := ips + [ip];
        case AAAA(ip) => ips := ips + [ip];
        case _ =>
      }
    }
    assert records[..|records|] == records;
    forall ip ensures ip in ips <==> HasAddress(records, ip) {
      IpsHeld(records, ip);
    }
  }

  method ExtractNsNames(records: seq<Record>) returns (names: seq<Name>)
    ensures names == NsNames(records)
    ensures forall h :: h in names <==> exists i :: 0 <= i < |records| && records[i].data == NS(h)
  {
    names := [];
    for i := 0 to |records|
      invariant names == NsNames(records[..i])
    {
      assert records[..i + 1][..i] == records[..i];
      if records[i].data.NS? {
        names := names + [records[i].data.host];
      }
    }
    assert records[..|records|] == records;
    forall h ensures h in names <==> exists i :: 0 <= i < |records| && records[i].data == NS(h) {
      NsNamesHeld(records, h);
    }
  }

  method ExtractCnameTarget(records: seq<Record>) returns (target: Option<Name>)
    ensures target.Some? ==> FirstCname(records, target.value)
    ensures target.None? ==> forall i :: 0 <= i < |records| ==> !records[i].data.CNAME?
  {
    for i := 0 to |records|
      invariant forall k :: 0 <= k < i ==> !records[k].data.CNAME?
    {
      if records[i].data.CNAME? {
        return Some(records[i].data.target);
      }
    }
    return None;
  }

  method HasAnswerType(records: seq<Record>, qtype: nat) returns (found: bool)
    ensures found == HasType(records, qtype)
  {
    for i := 0 to |records|
      invariant forall k :: 0 <= k < i ==> TypeCode(records[k].data) != qtype
    {
      if TypeCode(records[i].data) == qtype {
        return true;
      }
    }
    return false;
  }

  method CheckNoData(m: Message) returns (nodata: bool)
    ensures nodata == IsNoData(m)
  {
    if m.rcode != NoError || m.answers != [] {
      return false;
    }
    for i := 0 to |m.authority|
      invariant forall k :: 0 <= k < i ==> !m.authority[k].data.SOA?
    {
      if m.authority[i].data.SOA? {
        return true;
      }
    }
    return false;
  }

  /** What the walk does with a reply: stop, follow an alias, or follow a (possibly empty) referral. */
  datatype Verdict = Done | Alias(target: Name) | Referral(nsNames: seq<Name>)

  method ReadReply(resp: Message, qtype: nat) returns (verdict: Verdict)
    ensures verdict.Done? <==> Conclusive(resp, qtype)
    ensures verdict.Alias? ==> FirstCname(resp.answers, verdict.target)
    ensures verdict.Referral? ==> !HasCname(resp) && forall h :: h in verdict.nsNames <==> NsHost(resp, h)
  {
    if resp.rcode == NXDomain {
      return Done;
    }
    var nodata := CheckNoData(resp);
    if nodata {
      return Done;
    }
    var answered := HasAnswerType(resp.answers, qtype);
    if answered {
      return Done;
    }
    var cname := ExtractCnameTarget(resp.answers);
    if cname.Some? {
      return Alias(cname.value);
    }
    var nsNames := ExtractNsNames(resp.authority);
    return Referral(nsNames);
  }

  ghost predicate Holds(glue: map<Name, seq<Ip>>, host: Name, ip: Ip) {
    host in glue && ip in glue[host]
  }

  ghost predicate GlueGiven(nsNames: seq<Name>, additional: seq<Record>, ip: Ip) {
    exists h :: h in nsNames && Glue(additional, h, ip)
  }

  /** Every address the additional section gives for a delegated name server, and no other. */
  method CollectGlue(nsNames: seq<Name>, additional: seq<Record>) returns (ips: seq<Ip>)
    ensures forall ip :: ip in ips <==> GlueGiven(nsNames, additional, ip)
  {
    var glue: map<Name, seq<Ip>> := map[];
    for i := 0 to |additional|
      invariant forall h, ip :: Holds(glue, h, ip) <==> Glue(additional[..i], h, ip)
    {
      var rec := additional[i];
      var found := ExtractIps([rec]);
      assert forall ip :: ip in found <==> GivesAddress(rec, ip) by {
        assert [rec][0] == rec;
      }
      ghost var before := glue;
      if found != [] {
        glue := glue[rec.owner := (if rec.owner in glue then glue[rec.owner] else []) + found];
      }
      forall h, ip ensures Holds(glue, h, ip) <==> Glue(additional[..i + 1], h, ip) {
        GlueStep(additional, i, h, ip);
        assert Holds(glue, h, ip) <==> (Holds(before, h, ip) || (h == rec.owner && GivesAddress(rec, ip)));
      }
    }
    assert additional[..|additional|] == additional;
    ips := [];
    for i := 0 to |nsNames|
      invariant forall ip :: ip in ips <==> GlueGiven(nsNames[..i], additional, ip)
    {
      ghost var before := ips;
      if nsNames[i] in glue {
        ips := ips + glue[nsNames[i]];
      }
      forall ip ensures ip in ips <==> GlueGiven(nsNames[..i + 1], additional, ip) {
        assert nsNames[..i + 1] == nsNames[..i] + [nsNames[i]];
        assert GlueGiven(nsNames[..i + 1], additional, ip) <==>
               (GlueGiven(nsNames[..i], additional, ip) || Glue(additional, nsNames[i], ip));
        assert ip in ips <==> (ip in before || Holds(glue, nsNames[i], ip));
      }
    }
    assert nsNames[..|nsNames|] == nsNames;
  }

  lemma GlueStep(additional: seq<Record>, i: nat, h: Name, ip: Ip)
    requires i < |additional|
    ensures Glue(additional[..i + 1], h, ip) <==>
            (Glue(additional[..i], h, ip) || (h == additional[i].owner && GivesAddress(additional[i], ip)))
  {
    var shorter, longer := additional[..i], additional[..i + 1];
    assert longer == shorter + [additional[i]];
    if Glue(shorter, h, ip) {
      var k :| 0 <= k < |shorter| && shorter[k].owner == h && GivesAddress(shorter[k], ip);
      assert longer[k] == shorter[k];
    }
    if h == additional[i].owner && GivesAddress(additional[i], ip) {
      assert longer[i] == additional[i];
    }
  }

  // ------------------------------------------------------------- what happened on the wire

  /** Number of UDP queries sent. */
  ghost function Sent(log: seq<Event>): nat {
    if log == [] then 0
    else Sent(log[..|log| - 1]) + if log[|log| - 1].Query? then 1 else 0
  }

  /** Some reply in the log to (name, qtype) is msg. */
  ghost predicate Received(log: seq<Event>, name: Name, qtype: nat, msg: Message) {
    exists k :: 0 <= k < |log| && Asks(log[k], (name, qtype)) && log[k].reply == Some(msg)
  }

  ghost predicate Hop(log: seq<Event>, name: Name, qtype: nat, next: Name) {
    exists k :: 0 <= k < |log| && Asks(log[k], (name, qtype)) && log[k].reply.Some?
                && FirstCname(log[k].reply.value.answers, next)
  }

  /** msg answers a name at most `hops` received CNAMEs away from `name`. */
  ghost predicate Reaches(log: seq<Event>, name: Name, qtype: nat, hops: nat, msg: Message) {
    || Received(log, name, qtype, msg)
    || (hops > 0 && exists next :: Hop(log, name, qtype, next) && Reaches(log, next, qtype, hops - 1, msg))
  }

  ghost predicate Delegates(e: Event, host: Name) {
    e.Query? && e.reply.Some? && NsHost(e.reply.value, host)
  }

  /** ip was looked up for the name server `host`: iteratively, or through the trusted resolver. */
  ghost predicate LookedUp(log: seq<Event>, host: Name, ip: Ip) {
    || (exists msg :: Reaches(log, host, TYPE_A, MAX_CNAME_DEPTH - 1, msg) && HasAddress(msg.answers, ip))
    || (exists msg :: Reaches(log, host, TYPE_AAAA, MAX_CNAME_DEPTH - 1, msg) && HasAddress(msg.answers, ip))
    || (exists k :: 0 <= k < |log| && log[k].Trusted? && log[k].host == host && ip in log[k].ips)
  }

  /** A referral in the log delegates to a host whose address, by glue or lookup, is ip. */
  ghost predicate Referred(log: seq<Event>, ip: Ip) {
    exists j, host :: ReferredBy(log, j, host, ip)
  }

  ghost predicate ReferredBy(log: seq<Event>, j: int, host: Name, ip: Ip) {
    && 0 <= j < |log| && Delegates(log[j], host)
    && (Glue(log[j].reply.value.additional, host, ip) || LookedUp(log, host, ip))
  }

  ghost predicate Known(roots: seq<Ip>, log: seq<Event>, ip: Ip) {
    ip in roots || Referred(log, ip)
  }

  /** Every server contacted was known before it was contacted. */
  ghost predicate WellSourced(roots: seq<Ip>, log: seq<Event>) {
    forall i {:trigger log[i]} :: 0 <= i < |log| && log[i].Query? ==> Known(roots, log[..i], log[i].server)
  }

  lemma HopGrows(log: seq<Event>, more: seq<Event>, name: Name, qtype: nat, next: Name)
    requires Hop(log, name, qtype, next) && log <= more
    ensures Hop(more, name, qtype, next)
  {
    var k :| 0 <= k < |log| && Asks(log[k], (name, qtype)) && log[k].reply.Some?
             && FirstCname(log[k].reply.value.answers, next);
    assert more[k] == log[k];
  }

  lemma {:induction false} ReachesGrows(log: seq<Event>, more: seq<Event>, name: Name, qtype: nat,
                                        hops: nat, hops': nat, msg: Message)
    requires Reaches(log, name, qtype, hops, msg) && log <= more && hops <= hops'
    ensures Reaches(more, name, qtype, hops', msg)
    decreases hops
  {
    if Received(log, name, qtype, msg) {
      var k :| 0 <= k < |log| && Asks(log[k], (name, qtype)) && log[k].reply == Some(msg);
      assert more[k] == log[k];
    } else {
      var next :| Hop(log, name, qtype, next) && Reaches(log, next, qtype, hops - 1, msg);
      HopGrows(log, more, name, qtype, next);
      ReachesGrows(log, more, next, qtype, hops - 1, hops' - 1, msg);
    }
  }

  lemma LookedUpGrows(log: seq<Event>, more: seq<Event>, host: Name, ip: Ip)
    requires LookedUp(log, host, ip) && log <= more
    ensures LookedUp(more, host, ip)
  {
    if k :| 0 <= k < |log| && log[k].Trusted? && log[k].host == host && ip in log[k].ips {
      assert more[k] == log[k];
    } else if msg :| Reaches(log, host, TYPE_A, MAX_CNAME_DEPTH - 1, msg) && HasAddress(msg.answers, ip) {
      ReachesGrows(log, more, host, TYPE_A, MAX_CNAME_DEPTH - 1, MAX_CNAME_DEPTH - 1, msg);
    } else {
      var msg :| Reaches(log, host, TYPE_AAAA, MAX_CNAME_DEPTH - 1, msg) && HasAddress(msg.answers, ip);
      ReachesGrows(log, more, host, TYPE_AAAA, MAX_CNAME_DEPTH - 1, MAX_CNAME_DEPTH - 1, msg);
    }
  }

  lemma KnownGrows(roots: seq<Ip>, log: seq<Event>, more: seq<Event>, ip: Ip)
    requires Known(roots, log, ip) && log <= more
    ensures Known(roots, more, ip)
  {
    if ip !in roots {
      var j, host :| ReferredBy(log, j, host, ip);
      assert more[j] == log[j];
      if LookedUp(log, host, ip) {
        LookedUpGrows(log, more, host, ip);
      }
      assert ReferredBy(more, j, host, ip);
    }
  }

  ghost predicate AllKnown(roots: seq<Ip>, log: seq<Event>, ips: seq<Ip>) {
    forall ip :: ip in ips ==> Known(roots, log, ip)
  }

  lemma SameKnown(roots: seq<Ip>, log: seq<Event>, ips: seq<Ip>, same: seq<Ip>)
    requires AllKnown(roots, log, ips) && forall ip :: ip in same <==> ip in ips
    ensures AllKnown(roots, log, same)
  {
  }

  lemma KnownAt(roots: seq<Ip>, log: seq<Event>, ips: seq<Ip>, i: nat)
    requires AllKnown(roots, log, ips) && i < |ips|
    ensures Known(roots, log, ips[i])
  {
  }

  lemma NoneToKnow(roots: seq<Ip>, log: seq<Event>)
    ensures AllKnown(roots, log, [])
  {
  }

  lemma AllKnownGrows(roots: seq<Ip>, log: seq<Event>, more: seq<Event>, ips: seq<Ip>)
    requires AllKnown(roots, log, ips) && log <= more
    ensures AllKnown(roots, more, ips)
  {
    forall ip | ip in ips ensures Known(roots, more, ip) {
      KnownGrows(roots, log, more, ip);
    }
  }

  lemma AppendKeepsSourced(roots: seq<Ip>, log: seq<Event>, e: Event)
    requires WellSourced(roots, log) && (e.Query? ==> Known(roots, log, e.server))
    ensures WellSourced(roots, log + [e])
  {
    forall i | 0 <= i < |log + [e]| && (log + [e])[i].Query?
      ensures Known(roots, (log + [e])[..i], (log + [e])[i].server)
    {
      assert i < |log| ==> (log + [e])[..i] == log[..i];
      assert i == |log| ==> (log + [e])[..i] == log;
    }
  }

  ghost function Without(log: seq<Event>, q: Question): seq<Event> {
    if log == [] then []
    else
      var rest := Without(log[..|log| - 1], q);
      if Asks(log[|log| - 1], q) then rest else rest + [log[|log| - 1]]
  }

  lemma {:induction false} WithoutCounts(log: seq<Event>, q: Question, p: Question)
    ensures Sent(log) == Sent(Without(log, q)) + Asked(log, q)
    ensures Asked(Without(log, q), p) == if p == q then 0 else Asked(log, p)
  {
    if log == [] {
    } else {
      var rest, last := log[..|log| - 1], log[|log| - 1];
      var kept := Without(rest, q);
      WithoutCounts(rest, q, p);
      AskedAppend(kept, last, p);
      SentAppend(kept, last);
    }
  }

  lemma SentAppend(log: seq<Event>, e: Event)
    ensures Sent(log + [e]) == Sent(log) + if e.Query? then 1 else 0
  {
    assert (log + [e])[..|log|] == log;
  }

  lemma {:induction false} NothingAsked(log: seq<Event>)
    requires forall q :: Asked(log, q) == 0
    ensures Sent(log) == 0
  {
    if log == [] {
    } else {
      var rest, last := log[..|log| - 1], log[|log| - 1];
      forall q ensures Asked(rest, q) == 0 {
        assert Asked(log, q) == 0;
      }
      NothingAsked(rest);
      assert last.Query? ==> Asked(log, (last.name, last.qtype)) >= 1;
    }
  }

  /** A per-question bound adds up over the set of questions. */
  lemma {:induction false} SentIsBounded(log: seq<Event>, questions: set<Question>, bound: nat)
    requires forall q :: Asked(log, q) <= if q in questions then bound else 0
    ensures Sent(log) <= bound * |questions|
    decreases |questions|
  {
    if questions == {} {
      NothingAsked(log);
    } else {
      var q :| q in questions;
      var kept, fewer := Without(log, q), questions - {q};
      forall p ensures Asked(kept, p) <= if p in fewer then bound else 0 {
        WithoutCounts(log, q, p);
      }
      SentIsBounded(kept, fewer, bound);
      WithoutCounts(log, q, q);
      OneMore(bound, fewer, questions, q);
    }
  }

  lemma OneMore(bound: nat, fewer: set<Question>, questions: set<Question>, q: Question)
    requires q in questions && fewer == questions - {q}
    ensures bound * |questions| == bound * |fewer| + bound
  {
    assert |questions| == |fewer| + 1;
  }

  // ------------------------------------------------------------------------- the resolver

  /** The mutable state one lookup threads through its recursive calls. */
  class Session {
    var visited: set<Question>
    ghost var log: seq<Event>

    constructor ()
      ensures visited == {} && log == []
    {
      visited, log := {}, [];
    }
  }

  /** Nothing was asked that was not visited. */
  ghost predicate OnlyVisited(visited: set<Question>, log: seq<Event>) {
    forall q :: q !in visited ==> Asked(log, q) == 0
  }

  /**
   * What a call adds: a question visited before is not asked again, a newly visited one is
   * asked at most 6 * 15 times, and no other is asked.
   */
  ghost predicate Ledger(v0: set<Question>, log0: seq<Event>, v1: set<Question>, log1: seq<Event>) {
    && log0 <= log1 && v0 <= v1
    && forall q :: Asked(log1, q) <= if q in v0 then Asked(log0, q) else if q in v1 then MAX_TRY * MAX_DEPTH else 0
  }

  /** The same in the middle of the walk for `own`, which has sent `sent` queries itself. */
  ghost predicate OpenLedger(v0: set<Question>, log0: seq<Event>, own: Question, sent: nat,
                             v1: set<Question>, log1: seq<Event>) {
    && log0 <= log1 && v0 <= v1 && own !in v0 && own in v1
    && forall q :: Asked(log1, q) <= if q in v0 then Asked(log0, q) else if q == own then sent
                                     else if q in v1 then MAX_TRY * MAX_DEPTH else 0
  }

  lemma LedgerJoins(v0: set<Question>, log0: seq<Event>, v1: set<Question>, log1: seq<Event>,
                    v2: set<Question>, log2: seq<Event>)
    requires Ledger(v0, log0, v1, log1) && Ledger(v1, log1, v2, log2)
    ensures Ledger(v0, log0, v2, log2)
  {
    forall q ensures Asked(log2, q) <= if q in v0 then Asked(log0, q) else if q in v2 then MAX_TRY * MAX_DEPTH else 0 {
      assert Asked(log1, q) <= if q in v0 then Asked(log0, q) else if q in v1 then MAX_TRY * MAX_DEPTH else 0;
    }
  }

  lemma LedgerNoted(v0: set<Question>, log0: seq<Event>, v1: set<Question>, log1: seq<Event>, e: Event)
    requires Ledger(v0, log0, v1, log1) && !e.Query?
    ensures Ledger(v0, log0, v1, log1 + [e])
  {
    forall q ensures Asked(log1 + [e], q) == Asked(log1, q) {
      AskedAppend(log1, e, q);
    }
  }

  lemma OpenQuery(v0: set<Question>, log0: seq<Event>, own: Question, sent: nat,
                  v1: set<Question>, log1: seq<Event>, e: Event)
    requires OpenLedger(v0, log0, own, sent, v1, log1) && Asks(e, own)
    ensures OpenLedger(v0, log0, own, sent + 1, v1, log1 + [e]) && OnlyVisited(v1, log1 + [e])
    ensures Asked(log1 + [e], own) == Asked(log1, own) + 1
  {
    forall q ensures Asked(log1 + [e], q) == Asked(log1, q) + if q == own then 1 else 0 {
      AskedAppend(log1, e, q);
    }
  }

  lemma OpenLonger(v0: set<Question>, log0: seq<Event>, own: Question, sent: nat, sent': nat,
                   v1: set<Question>, log1: seq<Event>)
    requires OpenLedger(v0, log0, own, sent, v1, log1) && sent <= sent'
    ensures OpenLedger(v0, log0, own, sent', v1, log1)
  {
  }

  lemma OpenCall(v0: set<Question>, log0: seq<Event>, own: Question, sent: nat,
                 v1: set<Question>, log1: seq<Event>, v2: set<Question>, log2: seq<Event>)
    requires OpenLedger(v0, log0, own, sent, v1, log1) && Ledger(v1, log1, v2, log2)
    ensures OpenLedger(v0, log0, own, sent, v2, log2) && Asked(log2, own) <= Asked(log1, own)
  {
    forall q ensures Asked(log2, q) <= if q in v0 then Asked(log0, q) else if q == own then sent
                                       else if q in v2 then MAX_TRY * MAX_DEPTH else 0 {
      assert Asked(log1, q) <= if q in v0 then Asked(log0, q) else if q == own then sent
                               else if q in v1 then MAX_TRY * MAX_DEPTH else 0;
    }
  }

  lemma OpenWalk(v0: set<Question>, log0: seq<Event>, own: Question)
    requires OnlyVisited(v0, log0) && own !in v0
    ensures OpenLedger(v0, log0, own, 0, v0 + {own}, log0)
  {
  }

  lemma CloseWalk(v0: set<Question>, log0: seq<Event>, own: Question, sent: nat, v1: set<Question>, log1: seq<Event>)
    requires OpenLedger(v0, log0, own, sent, v1, log1) && sent <= MAX_TRY * MAX_DEPTH
    ensures Ledger(v0, log0, v1, log1) && own in v1
  {
  }

  class Resolver {
    const roots: seq<Ip>
    const hasTrusted: bool

    constructor (roots: seq<Ip>, hasTrusted: bool)
      ensures this.roots == roots && this.hasTrusted == hasTrusted
    {
      this.roots, this.hasTrusted := roots, hasTrusted;
    }

    method Shuffle(ips: seq<Ip>) returns (shuffled: seq<Ip>)
      ensures Permutes(shuffled, ips)
      ensures forall ip :: ip in shuffled <==> ip in ips
    {
      shuffled :| multiset(shuffled) == multiset(ips);
      assert forall ip :: ip in shuffled <==> ip in multiset(shuffled);
      assert forall ip :: ip in ips <==> ip in multiset(ips);
    }

    lemma RootsAreKnown(log: seq<Event>, ips: seq<Ip>)
      requires forall ip :: ip in ips <==> ip in roots
      ensures AllKnown(roots, log, ips)
    {
    }

    method SendUdpQuery(s: Session, server: Ip, name: Name, qtype: nat) returns (reply: Option<Message>)
      requires WellSourced(roots, s.log) && Known(roots, s.log, server)
      modifies s
      ensures s.log == old(s.log) + [Query(server, name, qtype, reply)] && s.visited == old(s.visited)
      ensures Asks(s.log[|old(s.log)|], (name, qtype))
      ensures WellSourced(roots, s.log)
    {
      reply := *;
      AppendKeepsSourced(roots, s.log, Query(server, name, qtype, reply));
      s.log := s.log + [Query(server, name, qtype, reply)];
    }

    method LookupTrusted(s: Session, host: Name, qtype: nat, ghost depth: nat) returns (ips: seq<Ip>)
      requires WellSourced(roots, s.log)
      modifies s
      ensures s.log == old(s.log) + [Trusted(host, qtype, depth, ips)] && s.visited == old(s.visited)
      ensures WellSourced(roots, s.log)
    {
      ips := *;
      AppendKeepsSourced(roots, s.log, Trusted(host, qtype, depth, ips));
      s.log := s.log + [Trusted(host, qtype, depth, ips)];
    }

    /** One lookup for a delegated name server; its addresses are added to those found so far. */
    method LookUpHost(s: Session, ns: Name, qtype: nat, depth: nat, cnameDepth: nat, ips: seq<Ip>,
                      ghost nsNames: seq<Name>, ghost v0: set<Question>, ghost log0: seq<Event>)
      returns (ips': seq<Ip>, ghost r: Result, ghost events: seq<Event>)
      requires WellSourced(roots, s.log) && depth <= MAX_DEPTH && cnameDepth <= MAX_CNAME_DEPTH
      requires OnlyVisited(v0, log0) && Ledger(v0, log0, s.visited, s.log)
      requires AllLookedUp(s.log, nsNames, ips) && ns in nsNames && (qtype == TYPE_A || qtype == TYPE_AAAA)
      modifies s
      ensures Grew(old(s.log), s.log, events) && WellSourced(roots, s.log) && Ledger(v0, log0, s.visited, s.log)
      ensures AllLookedUp(s.log, nsNames, ips') && |ips'| >= |ips|
      ensures CallEvents(events, (ns, qtype), depth, cnameDepth, r)
      ensures forall ip :: ip in ips' <==> ip in ips || (r.Ok? && HasAddress(r.message.answers, ip))
      decreases depth, 6
    {
      hide CallEvents, HasAddress, Reaches, WellSourced, AllLookedUp, Conclusive, Walked, Grew;
      ips' := ips;
      var reply;
      reply, events := LookupInternal(s, ns, qtype, depth, cnameDepth);
      LedgerJoins(v0, log0, old(s.visited), old(s.log), s.visited, s.log);
      hide Ledger, OnlyVisited;
      GrewIsPrefix(old(s.log), s.log, events);
      AllLookedUpGrows(old(s.log), s.log, nsNames, ips);
      if reply.Ok? {
        var more := ExtractIps(reply.message.answers);
        NewlyLookedUp(s.log, nsNames, ips, ns, qtype, cnameDepth, reply.message, more);
        ips' := ips + more;
      }
      r := reply;
    }

    /** Addresses for the delegated name servers, each looked up for one of them. */
    method ResolveNsIps(s: Session, nsNames: seq<Name>, depth: nat, cnameDepth: nat)
      returns (ips: seq<Ip>, ghost events: seq<Event>)
      requires WellSourced(roots, s.log) && depth <= MAX_DEPTH && cnameDepth <= MAX_CNAME_DEPTH
      requires OnlyVisited(s.visited, s.log)
      modifies s
      ensures Grew(old(s.log), s.log, events) && WellSourced(roots, s.log)
      ensures Ledger(old(s.visited), old(s.log), s.visited, s.log)
      ensures AllLookedUp(s.log, nsNames, ips)
      // Both address types of every host are looked up, and exactly what is found is returned.
      ensures Resolution(events, nsNames, depth, cnameDepth, hasTrusted, ips)
      decreases depth, 7
    {
      ips, events := [], [];
      NothingResolved(depth, cnameDepth, hasTrusted);
      assert Ledger(s.visited, s.log, s.visited, s.log) && AllLookedUp(s.log, nsNames, ips);
      GrewNot(s.log);
      hide Resolution, CallEvents, HasAddress, WellSourced, AllLookedUp, Ledger, OnlyVisited, Grew;
      for i := 0 to |nsNames|
        invariant WellSourced(roots, s.log) && Ledger(old(s.visited), old(s.log), s.visited, s.log)
        invariant AllLookedUp(s.log, nsNames, ips) && Grew(old(s.log), s.log, events)
        invariant Resolution(events, nsNames[..i], depth, cnameDepth, hasTrusted, ips)
      {
        var ns := nsNames[i];
        assert nsNames[..i + 1] == nsNames[..i] + [ns];
        label A:
        var ips4, ra, a := LookUpHost(s, ns, TYPE_A, depth, cnameDepth, ips, nsNames, old(s.visited), old(s.log));
        label B:
        var ips6, rb, b := LookUpHost(s, ns, TYPE_AAAA, depth, cnameDepth, ips4, nsNames, old(s.visited), old(s.log));
        GrewThrice(old(s.log), old@A(s.log), old@B(s.log), s.log, events, a, b);
        if ips6 != [] || !hasTrusted {
          HostLookedUp(events, nsNames[..i], depth, cnameDepth, hasTrusted, ips, ns, a, ra, b, rb, ips6);
          ips, events := ips6, events + a + b;
          continue;
        }
        label C:
        var v4 := LookupTrusted(s, ns, TYPE_A, depth);
        var v6 := LookupTrusted(s, ns, TYPE_AAAA, depth);
        HostTrusted(events, nsNames[..i], depth, cnameDepth, ns, a, ra, b, rb, v4, v6);
        TwoNoted(old(s.visited), old(s.log), s.visited, old@C(s.log), s.log, nsNames, ns, depth, v4, v6);
        GrewTwice(old(s.log), old@C(s.log), s.log, events + a + b,
                  [Trusted(ns, TYPE_A, depth, v4), Trusted(ns, TYPE_AAAA, depth, v6)]);
        ips, events := v4 + v6, events + a + b + [Trusted(ns, TYPE_A, depth, v4), Trusted(ns, TYPE_AAAA, depth, v6)];
      }
      assert nsNames[..|nsNames|] == nsNames;
    }

    /** The addresses of a referral: its glue if there is any, else whatever lookups find. */
    method FollowReferral(s: Session, ghost resp: Message, nsNames: seq<Name>, additional: seq<Record>,
                          depth: nat, cnameDepth: nat) returns (ips: seq<Ip>, ghost events: seq<Event>)
      requires WellSourced(roots, s.log) && depth <= MAX_DEPTH && cnameDepth <= MAX_CNAME_DEPTH
      requires OnlyVisited(s.visited, s.log)
      requires s.log != [] && s.log[|s.log| - 1].Query? && s.log[|s.log| - 1].reply == Some(resp)
      requires additional == resp.additional && forall h :: h in nsNames <==> NsHost(resp, h)
      modifies s
      ensures Grew(old(s.log), s.log, events) && WellSourced(roots, s.log)
      ensures Ledger(old(s.visited), old(s.log), s.visited, s.log)
      ensures AllKnown(roots, s.log, ips)
      ensures HasGlue(resp) ==> events == [] && ips != [] && forall ip :: ip in ips <==> GlueOf(resp, ip)
      ensures !HasGlue(resp) ==> Resolution(events, nsNames, depth, cnameDepth, hasTrusted, ips)
      decreases depth, 8
    {
      assert Ledger(s.visited, s.log, s.visited, s.log);
      hide Ledger, OnlyVisited, WellSourced, Resolution, NsHost, GlueGiven, AllLookedUp, Grew;
      ghost var referral := |s.log| - 1;
      ips := CollectGlue(nsNames, additional);
      events := [];
      GrewNot(s.log);
      GlueTold(resp, nsNames);
      GlueIsKnown(roots, s.log, referral, resp, ips);
      assert ips != [] ==> ips[0] in ips && HasGlue(resp);
      if ips == [] {
        ips, events := ResolveNsIps(s, nsNames, depth, cnameDepth);
        GrewIsPrefix(old(s.log), s.log, events);
        LookedUpIsKnown(roots, s.log, referral, resp, nsNames, ips);
      }
    }

    /** One more query for the question of an open call. */
    method AskServer(s: Session, server: Ip, name: Name, qtype: nat,
                     ghost v0: set<Question>, ghost log0: seq<Event>, ghost sent: nat) returns (reply: Option<Message>)
      requires WellSourced(roots, s.log) && Known(roots, s.log, server)
      requires OpenLedger(v0, log0, (name, qtype), sent, s.visited, s.log)
      modifies s
      ensures s.log == old(s.log) + [Query(server, name, qtype, reply)] && s.visited == old(s.visited)
      ensures WellSourced(roots, s.log) && OnlyVisited(s.visited, s.log)
      ensures OpenLedger(v0, log0, (name, qtype), sent + 1, s.visited, s.log)
      ensures reply.Some? ==> Received(s.log, name, qtype, reply.value)
      ensures reply.Some? ==> forall next :: FirstCname(reply.value.answers, next) ==> Hop(s.log, name, qtype, next)
    {
      hide OpenLedger, OnlyVisited, WellSourced, Known, Asked, Asks, Received, Hop;
      hide FirstCname;
      reply := SendUdpQuery(s, server, name, qtype);
      OpenQuery(v0, log0, (name, qtype), sent, s.visited, old(s.log), s.log[|s.log| - 1]);
      if reply.Some? {
        LastReplyCounts(s.log, server, name, qtype, reply.value);
      }
    }

    /** The first CNAME is followed in place of the question, which is not asked again. */
    method ChaseAlias(s: Session, name: Name, qtype: nat, target: Name, depthLeft: nat, cnameDepth: nat,
                      ghost v0: set<Question>, ghost log0: seq<Event>, ghost sent: nat)
      returns (r: Result, ghost events: seq<Event>)
      requires 0 < depthLeft <= MAX_DEPTH && 0 < cnameDepth <= MAX_CNAME_DEPTH
      requires WellSourced(roots, s.log) && OnlyVisited(s.visited, s.log) && Hop(s.log, name, qtype, target)
      requires OpenLedger(v0, log0, (name, qtype), sent, s.visited, s.log)
      modifies s
      ensures Grew(old(s.log), s.log, events) && WellSourced(roots, s.log) && NoAsks(events, (name, qtype))
      ensures CallEvents(events, (target, qtype), depthLeft - 1, cnameDepth - 1, r)
      ensures OpenLedger(v0, log0, (name, qtype), sent, s.visited, s.log)
      ensures r.Ok? ==> Conclusive(r.message, qtype) && Reaches(s.log, name, qtype, cnameDepth - 1, r.message)
      decreases depthLeft, 0
    {
      hide OpenLedger, OnlyVisited, WellSourced, Reaches, Asked, Conclusive, Hop, CallEvents, Walked, Grew;
      r, events := LookupInternal(s, target, qtype, depthLeft - 1, cnameDepth - 1);
      OpenCall(v0, log0, (name, qtype), sent, old(s.visited), old(s.log), s.visited, s.log);
      NotAskedAgain(old(s.log), s.log, events, (name, qtype));
      GrewIsPrefix(old(s.log), s.log, events);
      HopGrows(old(s.log), s.log, name, qtype, target);
      if r.Ok? {
        HopReaches(s.log, name, qtype, target, cnameDepth - 1, r.message);
      }
    }

    /** The servers of a referral are found without asking the question again. */
    method TakeReferral(s: Session, name: Name, qtype: nat, ghost resp: Message, nsNames: seq<Name>,
                        additional: seq<Record>, depthLeft: nat, cnameDepth: nat,
                        ghost v0: set<Question>, ghost log0: seq<Event>, ghost sent: nat)
      returns (ips: seq<Ip>, ghost events: seq<Event>)
      requires 0 < depthLeft <= MAX_DEPTH && 0 < cnameDepth <= MAX_CNAME_DEPTH
      requires WellSourced(roots, s.log) && OnlyVisited(s.visited, s.log)
      requires s.log != [] && s.log[|s.log| - 1].Query? && s.log[|s.log| - 1].reply == Some(resp)
      requires additional == resp.additional && forall h :: h in nsNames <==> NsHost(resp, h)
      requires OpenLedger(v0, log0, (name, qtype), sent, s.visited, s.log)
      modifies s
      ensures Grew(old(s.log), s.log, events) && WellSourced(roots, s.log) && AllKnown(roots, s.log, ips)
      ensures OpenLedger(v0, log0, (name, qtype), sent, s.visited, s.log)
      ensures NoAsks(events, (name, qtype))
      ensures HasGlue(resp) ==> events == [] && ips != [] && forall ip :: ip in ips <==> GlueOf(resp, ip)
      ensures !HasGlue(resp) ==> Resolution(events, nsNames, depthLeft - 1, cnameDepth, hasTrusted, ips)
      decreases depthLeft, 0
    {
      hide OpenLedger, OnlyVisited, WellSourced, Asked, Known, NsHost, GlueOf, HasGlue, Resolution, Grew;
      ips, events := FollowReferral(s, resp, nsNames, additional, depthLeft - 1, cnameDepth);
      OpenCall(v0, log0, (name, qtype), sent, old(s.visited), old(s.log), s.visited, s.log);
      NotAskedAgain(old(s.log), s.log, events, (name, qtype));
    }

    /**
     * What the level does with a reply: it stops, follows an alias or a referral, or is through
     * with this server. `events` is what the level has done so far, up to the reply.
     */
    method UseReply(s: Session, name: Name, qtype: nat, resp: Message, depthLeft: nat, cnameDepth: nat,
                    ghost servers: seq<Ip>, ghost asked: nat, ghost events: seq<Event>,
                    ghost v0: set<Question>, ghost log0: seq<Event>, ghost sent: nat)
      returns (answer: Option<Result>, next: seq<Ip>, ghost more: seq<Event>)
      requires 0 < depthLeft <= MAX_DEPTH && 0 < cnameDepth <= MAX_CNAME_DEPTH && asked > 0
      requires WellSourced(roots, s.log) && OnlyVisited(s.visited, s.log)
      requires OpenLedger(v0, log0, (name, qtype), sent, s.visited, s.log)
      requires s.log != [] && events != [] && s.log[|s.log| - 1] == events[|events| - 1]
      requires ReplyAt(events, |events| - 1, (name, qtype), resp)
      requires Past(events, (name, qtype), servers, depthLeft, cnameDepth, hasTrusted, asked, |events| - 1)
      requires NothingFound(events, depthLeft - 1, cnameDepth)
      requires Received(s.log, name, qtype, resp)
      requires forall target :: FirstCname(resp.answers, target) ==> Hop(s.log, name, qtype, target)
      modifies s
      ensures Grew(old(s.log), s.log, more) && WellSourced(roots, s.log) && AllKnown(roots, s.log, next)
      ensures OpenLedger(v0, log0, (name, qtype), sent, s.visited, s.log)
      ensures LastError(events + more, (name, qtype)) == LastError(events, (name, qtype))
      ensures answer.Some? || next != [] ==>
                LevelSpec(events + more, (name, qtype), servers, depthLeft, cnameDepth, hasTrusted,
                          answer, next, LastError(events, (name, qtype)))
      ensures answer.None? && next == [] ==>
                && Past(events + more, (name, qtype), servers, depthLeft, cnameDepth, hasTrusted, asked, |events + more|)
                && NothingFound(events + more, depthLeft - 1, cnameDepth)
      ensures answer.Some? && answer.value.Ok? ==>
                Conclusive(answer.value.message, qtype)
                && Reaches(s.log, name, qtype, cnameDepth - 1, answer.value.message)
      decreases depthLeft, 1
    {
      hide OpenLedger, OnlyVisited, WellSourced, Known, Reaches, Asked, Past, NothingFound, LastError, LevelSpec;
      hide Conclusive, Received, Hop, FirstCname, NsHost, HasGlue, GlueOf, HasCname, Resolution, CallEvents, NoAsks;
      hide Grew;
      ghost var q := (name, qtype);
      answer, next, more := None, [], [];
      GrewNot(s.log);
      assert events + [] == events;
      var verdict := ReadReply(resp, qtype);
      if verdict.Done? {
        ReceivedReaches(s.log, name, qtype, cnameDepth - 1, resp);
        EndConcluded(events, q, servers, depthLeft, cnameDepth, hasTrusted, asked, resp);
        answer := Some(Ok(resp));
      } else if verdict.Alias? {
        var r;
        r, more := ChaseAlias(s, name, qtype, verdict.target, depthLeft, cnameDepth, v0, log0, sent);
        EndAlias(events, more, q, servers, depthLeft, cnameDepth, hasTrusted, asked, resp, verdict.target, r);
        ErrorsGrow(events, more, q);
        answer := Some(r);
      } else if verdict.nsNames == [] {
        NoHosts(resp, verdict.nsNames);
        PastUnusable(events, q, servers, depthLeft, cnameDepth, hasTrusted, asked);
      } else {
        next, more := TakeReferral(s, name, qtype, resp, verdict.nsNames, resp.additional, depthLeft, cnameDepth,
                                   v0, log0, sent);
        ErrorsGrow(events, more, q);
        if next != [] {
          EndReferral(events, more, q, servers, depthLeft, cnameDepth, hasTrusted, asked, resp, verdict.nsNames, next);
        } else {
          PastInVain(events, more, q, servers, depthLeft, cnameDepth, hasTrusted, asked, resp, verdict.nsNames);
        }
      }
    }

    /**
     * One level of the walk: at most six servers are asked, in order, until one concludes,
     * redirects to an alias, or refers to servers with a usable address. A naturals-only
     * budget: neither subtraction can underflow.
     */
    method AskLevel(s: Session, name: Name, qtype: nat, nsIps: seq<Ip>, depthLeft: nat, cnameDepth: nat,
                    ghost v0: set<Question>, ghost log0: seq<Event>, ghost sent: nat)
      returns (answer: Option<Result>, nextNsIps: seq<Ip>, lastError: Option<Error>, ghost events: seq<Event>)
      requires 0 < depthLeft <= MAX_DEPTH && 0 < cnameDepth <= MAX_CNAME_DEPTH
      requires WellSourced(roots, s.log) && AllKnown(roots, s.log, nsIps)
      requires OnlyVisited(v0, log0) && OpenLedger(v0, log0, (name, qtype), sent, s.visited, s.log)
      modifies s
      ensures Grew(old(s.log), s.log, events)
      // What the level did, and how it ends, told from its events.
      ensures LevelSpec(events, (name, qtype), nsIps, depthLeft, cnameDepth, hasTrusted, answer, nextNsIps, lastError)
      ensures WellSourced(roots, s.log) && AllKnown(roots, s.log, nextNsIps)
      ensures OpenLedger(v0, log0, (name, qtype), sent + MAX_TRY, s.visited, s.log)
      ensures answer.Some? && answer.value.Ok? ==>
                Conclusive(answer.value.message, qtype)
                && Reaches(s.log, name, qtype, cnameDepth - 1, answer.value.message)
      decreases depthLeft, 2
    {
      hide OpenLedger, OnlyVisited, WellSourced, Known, Reaches, Asked, Past, NothingFound, LastError, LevelSpec;
      hide Conclusive, Received, Hop, FirstCname, HasCname, NsHost, Grew, AllKnown;
      ghost var q := (name, qtype);
      answer, nextNsIps, lastError, events := None, [], None, [];
      PastNothing(q, nsIps, depthLeft, cnameDepth, hasTrusted);
      GrewNot(s.log);
      var maxTry := if |nsIps| < MAX_TRY then |nsIps| else MAX_TRY;
      for i := 0 to maxTry
        invariant WellSourced(roots, s.log) && AllKnown(roots, s.log, nsIps) && nextNsIps == [] && answer.None?
        invariant OpenLedger(v0, log0, q, sent + i, s.visited, s.log) && Grew(old(s.log), s.log, events)
        invariant Past(events, q, nsIps, depthLeft, cnameDepth, hasTrusted, i, |events|)
        invariant NothingFound(events, depthLeft - 1, cnameDepth) && lastError == LastError(events, q)
      {
        label Before:
        KnownAt(roots, s.log, nsIps, i);
        var reply := AskServer(s, nsIps[i], name, qtype, v0, log0, sent + i);
        ghost var e := Query(nsIps[i], name, qtype, reply);
        AllKnownGrows(roots, old@Before(s.log), s.log, nsIps);
        PastAsks(events, e, q, nsIps, depthLeft, cnameDepth, hasTrusted, i);
        GrewOne(old(s.log), old@Before(s.log), s.log, events, e);
        events := events + [e];
        if reply.None? {
          lastError := Some(Transport);
          PastUnusable(events, q, nsIps, depthLeft, cnameDepth, hasTrusted, i + 1);
          continue;
        }
        label After:
        ghost var more;
        answer, nextNsIps, more := UseReply(s, name, qtype, reply.value, depthLeft, cnameDepth, nsIps, i + 1, events,
                                            v0, log0, sent + i + 1);
        GrewTwice(old(s.log), old@After(s.log), s.log, events, more);
        GrewIsPrefix(old@After(s.log), s.log, more);
        AllKnownGrows(roots, old@After(s.log), s.log, nsIps);
        events := events + more;
        if answer.Some? || nextNsIps != [] {
          OpenLonger(v0, log0, q, sent + i + 1, sent + MAX_TRY, s.visited, s.log);
          return;
        }
      }
      OpenLonger(v0, log0, q, sent + maxTry, sent + MAX_TRY, s.visited, s.log);
      EndGivingUp(events, q, nsIps, depthLeft, cnameDepth, hasTrusted);
      NoneToKnow(roots, s.log);
    }

    /** A level of the walk after those before it: its end is the walk's, or gives the next level's servers. */
    method StepDown(s: Session, name: Name, qtype: nat, nsIps: seq<Ip>, depthLeft: nat, cnameDepth: nat,
                    ghost depth: nat, ghost levels: seq<Level>, ghost v0: set<Question>, ghost log0: seq<Event>)
      returns (result: Option<Result>, next: seq<Ip>, ghost levels': seq<Level>)
      requires 0 < depthLeft <= depth <= MAX_DEPTH && 0 < cnameDepth <= MAX_CNAME_DEPTH
      requires WellSourced(roots, s.log) && AllKnown(roots, s.log, nsIps) && OnlyVisited(v0, log0)
      requires OpenLedger(v0, log0, (name, qtype), MAX_TRY * (depth - depthLeft), s.visited, s.log)
      requires |levels| == depth - depthLeft
      requires UnderWay(levels, log0, s.log, (name, qtype), roots, Budget(depth, cnameDepth, hasTrusted), nsIps)
      modifies s
      ensures WellSourced(roots, s.log) && |levels'| == |levels| + 1
      ensures result.Some? ==>
                && Grew(log0, s.log, Flat(levels')) && Below(Flat(levels'), depth)
                && Ledger(v0, log0, s.visited, s.log) && (name, qtype) in s.visited
                && Walked(Flat(levels'), (name, qtype), roots, Budget(depth, cnameDepth, hasTrusted), result.value)
                && (result.value.Ok? ==> Conclusive(result.value.message, qtype)
                                         && Reaches(s.log, name, qtype, cnameDepth - 1, result.value.message))
      ensures result.None? ==>
                && AllKnown(roots, s.log, next)
                && OpenLedger(v0, log0, (name, qtype), MAX_TRY * (depth - (depthLeft - 1)), s.visited, s.log)
                && UnderWay(levels', log0, s.log, (name, qtype), roots, Budget(depth, cnameDepth, hasTrusted), next)
      decreases depthLeft, 3
    {
      hide WellSourced, Reaches, Conclusive, Walked, OnlyVisited, Below, Ledger, OpenLedger;
      hide UnderWay, LevelSpec, Ended, Grew, Permutes, AllKnown, Flat;
      ghost var q, b, sent := (name, qtype), Budget(depth, cnameDepth, hasTrusted), MAX_TRY * (depth - depthLeft);
      var answer, nextNsIps, lastError, more := AskLevel(s, name, qtype, nsIps, depthLeft, cnameDepth, v0, log0, sent);
      ghost var level := Level(more, nsIps, answer, nextNsIps, lastError);
      LevelEnded(level, q, depthLeft, cnameDepth, hasTrusted);
      levels' := levels + [level];
      if answer.Some? || nextNsIps == [] {
        CloseWalk(v0, log0, q, sent + MAX_TRY, s.visited, s.log);
        WalkEnds(levels, level, log0, old(s.log), s.log, q, roots, b);
        if answer.Some? {
          return answer, [], levels';
        }
        return Some(Err(if lastError.Some? then lastError.value else NoServer)), [], levels';
      }
      result := None;
      next := Shuffle(nextNsIps);
      SameKnown(roots, s.log, nextNsIps, next);
      WalkGoesOn(levels, level, log0, old(s.log), s.log, q, roots, b, next);
    }

    /** The walk of a question not visited before, down from the roots. */
    method WalkDown(s: Session, name: Name, qtype: nat, depth: nat, cnameDepth: nat)
      returns (r: Result, ghost events: seq<Event>)
      requires WellSourced(roots, s.log) && 0 < depth <= MAX_DEPTH && 0 < cnameDepth <= MAX_CNAME_DEPTH
      requires OnlyVisited(s.visited, s.log) && (name, qtype) !in s.visited
      modifies s
      ensures Grew(old(s.log), s.log, events) && WellSourced(roots, s.log) && (name, qtype) in s.visited
      ensures Ledger(old(s.visited), old(s.log), s.visited, s.log)
      ensures r.Ok? ==> Conclusive(r.message, qtype) && Reaches(s.log, name, qtype, cnameDepth - 1, r.message)
      ensures Below(events, depth)
      ensures Walked(events, (name, qtype), roots, Budget(depth, cnameDepth, hasTrusted), r)
      decreases depth, 4
    {
      var question := (name, qtype);
      s.visited := s.visited + {question};
      OpenWalk(old(s.visited), s.log, question);
      var depthLeft: nat := depth;
      var nsIps := Shuffle(roots);
      RootsAreKnown(s.log, nsIps);
      ghost var b := Budget(depth, cnameDepth, hasTrusted);
      ghost var levels: seq<Level> := [];
      WalkStarts(s.log, question, roots, b, nsIps);
      hide WellSourced, Reaches, Conclusive, Walked, OnlyVisited, Below, Ledger, OpenLedger;
      hide UnderWay, Grew, Permutes, AllKnown, Flat;
      while true
        invariant depthLeft <= depth && |levels| == depth - depthLeft
        invariant WellSourced(roots, s.log) && AllKnown(roots, s.log, nsIps)
        invariant OpenLedger(old(s.visited), old(s.log), question, MAX_TRY * (depth - depthLeft), s.visited, s.log)
        invariant UnderWay(levels, old(s.log), s.log, question, roots, b, nsIps)
        decreases depthLeft
      {
        if depthLeft == 0 {
          WalkExhausted(levels, old(s.log), s.log, question, roots, b, nsIps);
          CloseWalk(old(s.visited), old(s.log), question, MAX_TRY * depth, s.visited, s.log);
          return Err(DepthExceeded), Flat(levels);
        }
        var result;
        ghost var more;
        result, nsIps, more := StepDown(s, name, qtype, nsIps, depthLeft, cnameDepth, depth, levels,
                                        old(s.visited), old(s.log));
        if result.Some? {
          return result.value, Flat(more);
        }
        depthLeft := depthLeft - 1;
        levels := more;
      }
    }

    /**
     * One question, walked down from the roots. Ends for every network behaviour. The call's
     * return is the last event it adds.
     */
    method LookupInternal(s: Session, name: Name, qtype: nat, depth: nat, cnameDepth: nat)
      returns (r: Result, ghost events: seq<Event>)
      requires WellSourced(roots, s.log) && depth <= MAX_DEPTH && cnameDepth <= MAX_CNAME_DEPTH
      requires OnlyVisited(s.visited, s.log)
      modifies s
      ensures Grew(old(s.log), s.log, events) && WellSourced(roots, s.log)
      ensures Ledger(old(s.visited), old(s.log), s.visited, s.log)
      ensures r.Ok? ==> cnameDepth > 0 && Conclusive(r.message, qtype)
                        && Reaches(s.log, name, qtype, cnameDepth - 1, r.message)
      ensures CallEvents(events, (name, qtype), depth, cnameDepth, r)
      // The three refusals, in the order they are tested; each sends nothing.
      ensures depth == 0 ==> r == Err(DepthExceeded) && |events| == 1 && s.visited == old(s.visited)
      ensures depth > 0 && cnameDepth == 0 ==> r == Err(CnameTooDeep) && |events| == 1 && s.visited == old(s.visited)
      ensures depth > 0 && cnameDepth > 0 && (name, qtype) in old(s.visited) ==>
                r == Err(LoopDetected) && |events| == 1 && s.visited == old(s.visited)
      // Otherwise the question is visited and walked.
      ensures depth > 0 && cnameDepth > 0 && (name, qtype) !in old(s.visited) ==>
                && (name, qtype) in s.visited
                && Walked(events[..|events| - 1], (name, qtype), roots, Budget(depth, cnameDepth, hasTrusted), r)
      decreases depth, 5
    {
      events := [];
      GrewNot(s.log);
      assert Below(events, depth);
      assert Ledger(s.visited, s.log, s.visited, s.log);
      hide WellSourced, Reaches, Conclusive, Walked, Asked, Grew, Ledger, OnlyVisited, CallEvents, Below;
      if depth == 0 {
        r := Err(DepthExceeded);
      } else if cnameDepth == 0 {
        r := Err(CnameTooDeep);
      } else if (name, qtype) in s.visited {
        r := Err(LoopDetected);
      } else {
        r, events := WalkDown(s, name, qtype, depth, cnameDepth);
      }
      ghost var e := Returned(name, qtype, depth, cnameDepth, r);
      if r.Ok? {
        ReachesGrows(s.log, s.log + [e], name, qtype, cnameDepth - 1, cnameDepth - 1, r.message);
      }
      AppendKeepsSourced(roots, s.log, e);
      LedgerNoted(old(s.visited), old(s.log), s.visited, s.log, e);
      GrewOne(old(s.log), s.log, s.log + [e], events, e);
      CallReturns(events, name, qtype, depth, cnameDepth, r);
      s.log, events := s.log + [e], events + [e];
    }

    /**
     * The entry point. Whatever the network does: the lookup ends; it is a walk down from the
     * roots; it sends at most 6 * 15 UDP queries per distinct question visited; an Ok answer is
     * NXDOMAIN, NODATA or holds the requested type and answers a name at most 7 CNAME hops away;
     * and every server contacted is a root or was given, earlier, as an address of a delegated
     * host.
     */
    method LookupIterative(s: Session, name: Name, qtype: nat) returns (r: Result)
      requires s.visited == {} && s.log == []
      modifies s
      ensures Sent(s.log) <= 6 * 15 * |s.visited|
      ensures forall q :: Asked(s.log, q) <= if q in s.visited then 6 * 15 else 0
      ensures r.Ok? ==> Conclusive(r.message, qtype) && Reaches(s.log, name, qtype, 7, r.message)
      ensures WellSourced(roots, s.log)
      ensures s.log != [] && s.log[|s.log| - 1] == Returned(name, qtype, 15, 8, r)
      // The walk: which servers each level asks, what every reply leads to, and how it ends.
      ensures Walked(s.log[..|s.log| - 1], (name, qtype), roots, Budget(15, 8, hasTrusted), r)
      // A conclusive reply to the question itself ends the walk and is the answer.
      ensures forall k: nat :: k < |s.log| && Concludes(s.log[k], (name, qtype)) ==>
                k == |s.log| - 2 && r == Ok(s.log[k].reply.value)
      ensures roots != [] ==> Asked(s.log, (name, qtype)) > 0
    {
      NothingYet();
      ghost var events;
      r, events := LookupInternal(s, name, qtype, MAX_DEPTH, MAX_CNAME_DEPTH);
      hide Walked, Reaches, WellSourced, Conclusive, Asked, Sent, Ledger, Concludes;
      assert s.log == events;
      EntryShows(s.log, s.visited, (name, qtype), roots, Budget(MAX_DEPTH, MAX_CNAME_DEPTH, hasTrusted), r);
    }
  }

  lemma NothingYet()
    ensures OnlyVisited({}, [])
  {
  }

  /** What a call with an empty session shows. */
  lemma EntryShows(log: seq<Event>, visited: set<Question>, q: Question, roots: seq<Ip>, b: Budget, r: Result)
    requires Ledger({}, [], visited, log) && log != [] && !log[|log| - 1].Query?
    requires Walked(log[..|log| - 1], q, roots, b, r)
    ensures Sent(log) <= MAX_TRY * MAX_DEPTH * |visited|
    ensures forall q :: Asked(log, q) <= if q in visited then MAX_TRY * MAX_DEPTH else 0
    ensures forall k: nat :: k < |log| && Concludes(log[k], q) ==> k == |log| - 2 && r == Ok(log[k].reply.value)
    ensures roots != [] ==> Asked(log, q) > 0
  {
    assert forall q :: Asked(log, q) <= if q in visited then MAX_TRY * MAX_DEPTH else 0;
    hide Walked, Asked, Sent, Ledger, Conclusive;
    SentIsBounded(log, visited, MAX_TRY * MAX_DEPTH);
    var events, last := log[..|log| - 1], log[|log| - 1];
    assert log == events + [last];
    WalkShows(events, q, roots, b, r);
    AskedAppend(events, last, q);
    forall k: nat | k < |log| && Concludes(log[k], q) ensures k == |log| - 2 && r == Ok(log[k].reply.value) {
      assert events[k] == log[k];
    }
  }

  // ------------------------------------------------------------------------ proof plumbing

  ghost predicate AllLookedUp(log: seq<Event>, nsNames: seq<Name>, ips: seq<Ip>) {
    forall ip :: ip in ips ==> exists h :: h in nsNames && LookedUp(log, h, ip)
  }

  lemma AllLookedUpGrows(log: seq<Event>, more: seq<Event>, nsNames: seq<Name>, ips: seq<Ip>)
    requires AllLookedUp(log, nsNames, ips) && log <= more
    ensures AllLookedUp(more, nsNames, ips)
  {
    forall ip | ip in ips ensures exists h :: h in nsNames && LookedUp(more, h, ip) {
      var h :| h in nsNames && LookedUp(log, h, ip);
      LookedUpGrows(log, more, h, ip);
    }
  }

  lemma NewlyLookedUp(log: seq<Event>, nsNames: seq<Name>, ips: seq<Ip>, ns: Name, qtype: nat,
                      cnameDepth: nat, msg: Message, more: seq<Ip>)
    requires AllLookedUp(log, nsNames, ips) && ns in nsNames && (qtype == TYPE_A || qtype == TYPE_AAAA)
    requires 0 < cnameDepth <= MAX_CNAME_DEPTH && Reaches(log, ns, qtype, cnameDepth - 1, msg)
    requires forall ip :: ip in more <==> HasAddress(msg.answers, ip)
    ensures AllLookedUp(log, nsNames, ips + more)
  {
    hide HasAddress;
    ReachesGrows(log, log, ns, qtype, cnameDepth - 1, MAX_CNAME_DEPTH - 1, msg);
    forall ip | ip in more ensures LookedUp(log, ns, ip) {
    }
  }

  lemma TrustedLookedUp(log: seq<Event>, nsNames: seq<Name>, ns: Name, ips: seq<Ip>, k: nat)
    requires k < |log| && log[k].Trusted? && log[k].host == ns && log[k].ips == ips && ns in nsNames
    ensures AllLookedUp(log, nsNames, ips)
  {
    forall ip | ip in ips ensures LookedUp(log, ns, ip) {
      assert log[k].host == ns;
    }
  }

  /** Two answers of the trusted resolver are sources of their addresses and cost no query. */
  lemma TwoNoted(v0: set<Question>, log0: seq<Event>, v1: set<Question>, log1: seq<Event>,
                 log2: seq<Event>, nsNames: seq<Name>, ns: Name, depth: nat, v4: seq<Ip>, v6: seq<Ip>)
    requires Ledger(v0, log0, v1, log1) && ns in nsNames
    requires log2 == log1 + [Trusted(ns, TYPE_A, depth, v4)] + [Trusted(ns, TYPE_AAAA, depth, v6)]
    ensures Ledger(v0, log0, v1, log2) && AllLookedUp(log2, nsNames, v4 + v6)
    ensures Grew(log1, log2, [Trusted(ns, TYPE_A, depth, v4), Trusted(ns, TYPE_AAAA, depth, v6)])
  {
    hide Ledger, LookedUp;
    var four, six := Trusted(ns, TYPE_A, depth, v4), Trusted(ns, TYPE_AAAA, depth, v6);
    LedgerNoted(v0, log0, v1, log1, four);
    LedgerNoted(v0, log0, v1, log1 + [four], six);
    TrustedLookedUp(log2, nsNames, ns, v4, |log2| - 2);
    TrustedLookedUp(log2, nsNames, ns, v6, |log2| - 1);
  }

  /** The addresses given for the listed hosts are the reply's glue. */
  lemma GlueTold(resp: Message, nsNames: seq<Name>)
    requires forall h :: h in nsNames <==> NsHost(resp, h)
    ensures forall ip :: GlueGiven(nsNames, resp.additional, ip) <==> GlueOf(resp, ip)
    ensures HasGlue(resp) <==> exists ip :: GlueGiven(nsNames, resp.additional, ip)
  {
  }

  /** Events that leave the count of q unchanged do not ask q. */
  lemma NotAskedAgain(log: seq<Event>, log': seq<Event>, events: seq<Event>, q: Question)
    requires Grew(log, log', events) && Asked(log', q) <= Asked(log, q)
    ensures NoAsks(events, q)
  {
    AskedConcat(log, events, q);
    NotAsked(events, q);
  }

  lemma LevelEnded(level: Level, q: Question, depth: nat, cnameDepth: nat, hasTrusted: bool)
    requires depth > 0
    requires LevelSpec(level.events, q, level.servers, depth, cnameDepth, hasTrusted,
                       level.answer, level.next, level.lastError)
    ensures Ended(level, q, depth, cnameDepth, hasTrusted)
  {
  }

  lemma CallReturns(inner: seq<Event>, name: Name, qtype: nat, depth: nat, cnameDepth: nat, r: Result)
    requires Below(inner, depth)
    ensures var events := inner + [Returned(name, qtype, depth, cnameDepth, r)];
            && CallEvents(events, (name, qtype), depth, cnameDepth, r)
            && |events| == |inner| + 1 && events[..|events| - 1] == inner
  {
    assert (inner + [Returned(name, qtype, depth, cnameDepth, r)])[..|inner|] == inner;
  }

  lemma GrewOne(log0: seq<Event>, log: seq<Event>, log': seq<Event>, events: seq<Event>, e: Event)
    requires Grew(log0, log, events) && log' == log + [e]
    ensures Grew(log0, log', events + [e])
  {
  }

  /** What a walk shows at once: conclusive replies end it, and it asks at least one root. */
  lemma WalkShows(events: seq<Event>, q: Question, roots: seq<Ip>, b: Budget, r: Result)
    requires Walked(events, q, roots, b, r)
    ensures forall k: nat :: k < |events| && Concludes(events[k], q) ==>
              k == |events| - 1 && r == Ok(events[k].reply.value)
    ensures roots != [] ==> Asked(events, q) > 0
  {
    var levels :| Walk(events, levels, q, roots, b, r);
    forall k: nat | k < |events| && Concludes(events[k], q)
      ensures k == |events| - 1 && r == Ok(events[k].reply.value)
    {
      ConclusiveEnds(events, levels, q, roots, b, r, k);
    }
    if roots != [] {
      FirstLevelAsks(levels, q, roots, b);
    }
  }

  lemma ReceivedReaches(log: seq<Event>, name: Name, qtype: nat, hops: nat, msg: Message)
    requires Received(log, name, qtype, msg)
    ensures Reaches(log, name, qtype, hops, msg)
  {
  }

  lemma HopReaches(log: seq<Event>, name: Name, qtype: nat, next: Name, hops: nat, msg: Message)
    requires hops > 0 && Hop(log, name, qtype, next) && Reaches(log, next, qtype, hops - 1, msg)
    ensures Reaches(log, name, qtype, hops, msg)
  {
  }

  lemma LastReplyCounts(log: seq<Event>, server: Ip, name: Name, qtype: nat, resp: Message)
    requires log != [] && log[|log| - 1] == Query(server, name, qtype, Some(resp))
    ensures Received(log, name, qtype, resp)
    ensures forall next :: FirstCname(resp.answers, next) ==> Hop(log, name, qtype, next)
  {
    assert Asks(log[|log| - 1], (name, qtype));
  }

  lemma GlueIsKnown(roots: seq<Ip>, log: seq<Event>, j: nat, resp: Message, ips: seq<Ip>)
    requires j < |log| && log[j].Query? && log[j].reply == Some(resp)
    requires forall ip :: ip in ips ==> GlueOf(resp, ip)
    ensures AllKnown(roots, log, ips)
  {
    forall ip | ip in ips ensures Known(roots, log, ip) {
      var h :| NsHost(resp, h) && Glue(resp.additional, h, ip);
      assert ReferredBy(log, j, h, ip);
    }
  }

  lemma LookedUpIsKnown(roots: seq<Ip>, log: seq<Event>, j: nat, resp: Message, nsNames: seq<Name>, ips: seq<Ip>)
    requires j < |log| && log[j].Query? && log[j].reply == Some(resp)
    requires AllLookedUp(log, nsNames, ips) && forall h :: h in nsNames ==> NsHost(resp, h)
    ensures AllKnown(roots, log, ips)
  {
    forall ip | ip in ips ensures Known(roots, log, ip) {
      var h :| h in nsNames && LookedUp(log, h, ip);
      assert ReferredBy(log, j, h, ip);
    }
  }
}
