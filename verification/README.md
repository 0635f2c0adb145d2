# TitanDNS: a verified model of its core

TitanDNS is a DNS forwarder and resolver written in Rust, with an XDP filter in C that answers
hot queries in the kernel. This project models the parts of it whose behaviour is hardest to see
from the code and proves what they promise, for every input, every run and every interleaving.

| file | what it models |
|---|---|
| `Basics.dfy` | optional values, bytes and machine words, shared by the others |
| `LockFreeShard.dfy`, `LockFreeReplies.dfy`, `LockFreeCapacity.dfy` | one shard of the lock-free cache as a step machine of any number of threads: one atomic load, compare-and-swap or counter update a step |
| `ResolverLog.dfy`, `ResolverWalk.dfy` | DNS messages, the log of what a lookup does, and what a level and a whole walk must have done, told from the log alone |
| `IterativeResolver.dfy` | the referral walk from the root servers: two mutually recursive routines over one visited set, against an arbitrary network |
| `Pipeline.dfy` | named sequences: the multi-pass resolver that compiles them, the interpreter that runs them, and their meaning by name |
| `Labels.dfy`, `SuffixTrie.dfy`, `DomainMatchers.dfy` | names as label lists, the heap trie, and the three domain indexes with their memos |
| `CacheStore.dfy` | the response cache: codecs, the two file formats, load filters, lookups, and a restart in between |
| `Fallback.dfy` | the race between a primary and a secondary plugin, in timed runs with arbitrary ties |
| `RateLimiter.dfy` | per-client windows with a 32-bit counter, next to an ideal limiter |
| `Singleflight.dfy` | merging concurrent calls for one key, as a step machine of any number of callers |
| `WireNames.dfy` | the kernel's and the resolver's ways of finding and hashing the question's name |
| `XdpReply.dfy` | the kernel's answer: hit test, chunked copy, packet rewrite in place, IP checksum |

What the network, plugins, DNS message parsing and the clock do is arbitrary throughout: an
unconstrained value, a function parameter, or an argument. Words of fixed width are naturals with
their bounds, and sums that wrap in a release build wrap here.

Where the code does not keep what its documentation or comments promise, the code is modelled as
it is, the failure is shown on concrete inputs, and the condition under which the promise holds is
proved:

- The shard's capacity can be exceeded: the real bound is capacity + threads - 1
  (`LockFreeCapacity.CounterAndCapacity`), for every capacity from 1 on and every number of threads it
  is attained (`LockFreeCapacity.CapacityIsExceeded`), and the limit is kept in all runs exactly when
  one thread works on the shard or its capacity is 0 (`LockFreeCapacity.LimitIsKeptIff`).
- The two ways of cutting a name into labels differ on names with a gap, an empty label to the
  right of a non-empty one, and on no others (`Labels.ReadingsAgreeIffGapless`, `Labels.GapExample`).
- A restart loses an entry that is still fresh exactly when its TTL, the stale time and the grace
  wrap together at 64 bits (`CacheStore.RestartIsInvisible`), as with the largest configurable
  maximum TTL (`CacheStore.LargestTtlIsForgotten`).
- Standby fallback never returns its documented error; where it should, it panics
  (`Fallback.FallbackPlugin.Standby`).
- The rate limiter admits the request that fills its 32-bit counter; it decides as an unbounded
  counter would exactly while no window receives 2^32 requests
  (`RateLimiter.CounterIsExactUntilItFills`), and that is exactly the limit on the requests of a
  window under which it keeps its bound (`RateLimiter.BoundHoldsIffCounterCannotFill`).
- Kernel and resolver end a question's name at the same byte exactly when the bytes the kernel took
  spell a name; otherwise the kernel stopped at a zero inside a label (`WireNames.ScannersAgree`).
- "One execution per key at a time" fails after a removal that hits another caller's unfinished
  cell, and only then (`Singleflight.OneExecutionAtATime`, `Singleflight.LateWaiterRemovesNewerCell`).
- The kernel serves responses over 768 bytes cut short (`XdpReply.StoredResponseIsServed`).

## Model

| member | source | states |
|---|---|---|
| LockFreeShard.KeysStayDistinct | src/core/lockfree.rs:116-211 | in every interleaving of insert, get, remove and clear no shard holds two nodes with the same key |
| LockFreeShard.Linearisable | src/core/lockfree.rs:89-251 | whenever a call returns (capacity refusals aside) the thread has done nothing but steps of this call since its invocation, one of them is one atomic operation of a keyed stack with that call and that answer, and no other moves the stack, save that a clear pops it |
| LockFreeReplies.RepliesSpelledOut | src/core/lockfree.rs:89-160 | when an insert or a get returns (capacity refusals aside): get gives a value exactly when the list held, at a step of the call, an entry of its key with that value whose expiry is none or not before the clock read in a later or the same step, and nothing exactly when every entry of the key had expired; insert answers that the key exists exactly when the list held an entry of it |
| LockFreeReplies.FindsTheEntry | src/core/lockfree.rs:94-112 | the search along a list of distinct keys finds exactly the entry of the key |
| LockFreeShard.OnlyCasMovesTheStack | src/core/lockfree.rs:139-160 | only a successful CAS changes the abstract stack: an insert pushes an absent key, a remove pops its own key from the top, a clear pops the top |
| LockFreeShard.FailedCasMeansProgress | src/core/lockfree.rs:139-249 | a CAS of an insert, a remove or a clear fails only because another step moved the head since this thread loaded it |
| LockFreeCapacity.CounterAndCapacity | src/core/lockfree.rs:121-160 | the counter is list length minus owed additions plus owed subtractions modulo 2^64; the list never exceeds capacity + threads - 1; with all threads idle the counter is the length |
| LockFreeCapacity.CapacityIsExceeded | src/core/lockfree.rs:121-160 | for every capacity from 1 on, k of the threads racing for the last place, given enough distinct keys, leave the shard with capacity - 1 + k entries |
| LockFreeCapacity.LimitIsKeptIff | src/core/lockfree.rs:120-123 | no reachable state exceeds the capacity exactly when there is one thread or the capacity is 0, given more keys than the capacity |
| LockFreeShard.AccessKeeps | src/core/lockfree.rs:89-251 | one atomic access keeps every thread's knowledge of the list and does nothing to it, pushes an absent key, or pops the head |
| LockFreeShard.StepKeepsInv | src/core/lockfree.rs:89-251 | every step of every thread keeps distinct keys, heap order and what each thread knows |
| LockFreeCapacity.StepKeepsCounted | src/core/lockfree.rs:121-197 | every step keeps the counter equation and the length bound, although check, CAS and count are separate steps |
| LockFreeCapacity.EveryStateIsReachable | src/core/lockfree.rs:89-251 | the reachable states are all states of all runs |
| IterativeResolver.Resolver.LookupIterative | src/plugins/recursive_backend.rs:244-252 | ends for every network, as a walk from the roots down in which every reply leads to what it calls for (`ResolverWalk.Walk`); at most 6 * 15 queries for each distinct question visited; an Ok is NXDOMAIN, NODATA or has the type asked for and answers a name at most 7 CNAME hops away; every server contacted is a root or an address obtained earlier for a delegated host; a conclusive reply to the question is the last query and the answer |
| IterativeResolver.Resolver.LookupInternal | src/plugins/recursive_backend.rs:401-509 | the three refusals exactly in order and without a query; otherwise the question is visited and walked: each level as its replies require, at one depth less than the one before, asking a permutation of the roots or of what that one gave; no budget underflows |
| IterativeResolver.Resolver.WalkDown | src/plugins/recursive_backend.rs:419-507 | the loop over levels is a walk: it ends with the answer of its last level, its failure, or the depth used up |
| IterativeResolver.Resolver.AskLevel | src/plugins/recursive_backend.rs:425-507 | from its events alone, by the fields of the replies: the servers are asked in order, six at most; a conclusive reply ends the level and is the answer; a CNAME is followed; glue ends the level and is exactly what goes on; otherwise both address types of every delegated host are looked up, the trusted resolver is asked for each unless something is found, and what is found ends the level and goes on; it gives up only after min(6, n) of n servers, with the last transport error if there was one |
| IterativeResolver.Resolver.UseReply | src/plugins/recursive_backend.rs:434-493 | one reply ends the level as it must, or is one that cannot be used: no answer, no alias, no glue, and every delegated host looked up in vain |
| IterativeResolver.Resolver.ChaseAlias | src/plugins/recursive_backend.rs:449-457 | the first CNAME is looked up in place of the question with both budgets one less, which is not asked again; the answer is one hop further away |
| IterativeResolver.Resolver.TakeReferral | src/plugins/recursive_backend.rs:459-493 | the servers of a referral are found without asking the question again, and all are known: exactly its glue, or exactly what the lookups of its hosts find |
| IterativeResolver.Resolver.FollowReferral | src/plugins/recursive_backend.rs:459-493 | with glue, exactly the glue addresses and no further event; without, both address types of every delegated host are looked up and exactly what is found is returned |
| IterativeResolver.Resolver.ResolveNsIps | src/plugins/recursive_backend.rs:354-399 | both address types of every host are looked up; the trusted resolver is asked for each only while nothing is found, and for all if nothing is; the addresses returned are exactly those found; the query count of visited questions is kept |
| ResolverWalk.GlueIsFollowed | src/plugins/recursive_backend.rs:459-501 | in every walk a reply with glue, but neither answer nor alias, ends its level, and the next level asks its addresses, at least one and no other, unless the depth is used up |
| ResolverWalk.FoundIsFollowed | src/plugins/recursive_backend.rs:481-501 | in every walk, once a lookup of a delegated host gives an address the question is not asked again on that level, and the next level asks addresses so found, with this one among its servers, unless the depth is used up |
| ResolverWalk.GivesUpIff | src/plugins/recursive_backend.rs:425-507 | a walk ends in failure at its last level exactly when all of its servers up to six were asked, no reply held an answer, an alias or glue, and no address was found for a delegated host; the error is the transport error if there was one |
| ResolverWalk.ConclusiveEnds | src/plugins/recursive_backend.rs:432-447 | in every walk a conclusive reply to the question is the last event and the result |
| ResolverWalk.NextAsksGiven | src/plugins/recursive_backend.rs:488-501 | each level asks only what the level before gave it, and asks at least one of it |
| ResolverWalk.OneMoreLevel | src/plugins/recursive_backend.rs:425-507 | levels that go on, and one more that asks what the last of them gave, are levels of a walk |
| ResolverLog.TypeNumbers | src/plugins/recursive_backend.rs:343-346 | the type numbers of section 3.2.2 of RFC 1035 and section 2.1 of RFC 3596 |
| IterativeResolver.Resolver.SendUdpQuery | src/plugins/recursive_backend.rs:271-290 | contacts only servers already known as roots or through a referral |
| IterativeResolver.Resolver.Shuffle | src/plugins/recursive_backend.rs:422-423 | an arbitrary permutation |
| IterativeResolver.SentIsBounded | src/plugins/recursive_backend.rs:401-509 | a bound on each visited question bounds all queries by that bound times the number of visited questions |
| IterativeResolver.LedgerJoins | src/plugins/recursive_backend.rs:354-509 | per-question bounds of consecutive calls, nested or not, join into one |
| IterativeResolver.ExtractIps | src/plugins/recursive_backend.rs:312-322 | the A and AAAA addresses in order; an address is among them exactly when some A or AAAA record holds it |
| IterativeResolver.ExtractNsNames | src/plugins/recursive_backend.rs:324-332 | the NS hosts in order; a host is among them exactly when some NS record names it |
| IterativeResolver.ExtractCnameTarget | src/plugins/recursive_backend.rs:334-341 | the target of the first CNAME, none exactly when there is none |
| IterativeResolver.HasAnswerType | src/plugins/recursive_backend.rs:343-346 | true exactly when a record of the type is present |
| IterativeResolver.CheckNoData | src/plugins/recursive_backend.rs:348-352 | true exactly for NOERROR, no answers and an SOA in the authority section |
| IterativeResolver.CollectGlue | src/plugins/recursive_backend.rs:466-480 | exactly the addresses in the additional section owned by a delegated host |
| Pipeline.CompiledMeansConfigured | src/plugin_factory.rs:870-930 | running a compiled entry point gives the same context, result and executed plugins as evaluating the configuration by name, at a nesting no deeper than the number of sequences built |
| Pipeline.SequenceMeansItsName | src/plugin_factory.rs:882-908 | build order ranks the sequences: the i-th one equals its name's meaning at every rank above i |
| Pipeline.SameConditions | src/plugins/sequence.rs:50-86 | conditions decided with the registry snapshot inside a sequence equal conditions decided by name |
| Pipeline.NothingRunsAfterAbortOrError | src/plugins/sequence.rs:28-46 | across all nesting, in the list of executed plugins only the last may have aborted or failed, the result is its result, and each sees its predecessor's context |
| Pipeline.Resolve | src/plugin_factory.rs:870-930 | ends, and for every iteration order the entry points are the least set closed under "every target is a plugin or already built", in a well-built registry of them and the plugins |
| Pipeline.OnePass | src/plugin_factory.rs:873-910 | a pass keeps the registry well built, and leaves the pending list as long only if every pending sequence is blocked |
| Pipeline.CompileSteps | src/plugin_factory.rs:882-892 | ready exactly when all targets are registered, and then each step holds its target |
| Pipeline.BuiltIsLeast | src/plugin_factory.rs:873-927 | what was built is contained in every closed set, hence is the least one |
| Pipeline.OrderDoesNotMatter | src/plugin_factory.rs:873-927 | every iteration order of the configuration builds the same set of sequences |
| Pipeline.BuiltGrows | src/plugin_factory.rs:894-908 | registering one compiled sequence keeps the registry well built |
| Pipeline.Handle | src/plugins/sequence.rs:28-46 | running a plugin on the context in place computes its meaning, result and final context |
| Pipeline.CheckMatch | src/plugins/sequence.rs:50-86 | true exactly when every condition is met: some pattern ends the name, the type is listed, the tag is present or, inverted, absent, a registered matcher matches the name; an unknown condition never is |
| Pipeline.ConditionsSpelled | src/plugins/sequence.rs:50-86 | the conditions of a compiled sequence hold exactly when each is met, case by case |
| Pipeline.FirstStep | src/plugins/sequence.rs:28-46 | a step whose conditions are not all met is passed over; otherwise its plugin runs, and the later steps run on its context unless it failed or asked for an abort |
| Labels.ReadingsAgreeIffGapless | src/core/context.rs:167-186 | reading all pieces and reading non-empty pieces give every rule the same answer exactly on names whose empty pieces are all at the left end |
| Labels.GapExample | src/core/context.rs:167-186 | the name a..com is matched by the rule a.com in one reading and not in the other |
| Labels.QnamePartsRanges | src/core/context.rs:167-186 | the ranges cut the name into exactly its non-empty labels, left to right |
| Labels.RangesIgnoreTrailingDots | src/plugins/matcher.rs:282-325 | ranges computed for a name stay right after its trailing dots are cut |
| Labels.SuffixIsReversedPrefix | src/plugins/matcher.rs:118-136 | a suffix of labels is a prefix seen from the top level |
| Labels.SplitInjective | src/plugins/adblock.rs:50-72 | different names have different label lists |
| SuffixTrie.Trie.AddRule | src/plugins/geosite.rs:56-74 | the trie grows in place to hold exactly the old rules and the new one |
| SuffixTrie.Trie.Insert | src/plugins/matcher.rs:118-136 | marks exactly one more path and keeps the tree shape |
| SuffixTrie.Trie.MatchPieces | src/plugins/geosite.rs:99-114 | the walk over the pieces from the right finds a match exactly when some rule is a suffix of the name's pieces |
| SuffixTrie.Trie.MatchRanges | src/plugins/geosite.rs:147-163 | the walk over precomputed ranges finds a match exactly when some rule is a suffix of the name's non-empty labels |
| SuffixTrie.Trie.MarkedPrefixIsRuleSuffix | src/plugins/geosite.rs:56-114 | marked prefixes seen from the top are the rules that are suffixes of the labels |
| DomainMatchers.DomainSet.AddPlain | src/plugins/geosite.rs:51-53 | adds the lower-cased substring and nothing else; the memo, left alone, stays sound exactly when no gapless name it remembers as unmatched contains it |
| DomainMatchers.DomainSet.AddDomain | src/plugins/geosite.rs:56-74 | adds the rule's non-empty labels; the memo, left alone, stays sound exactly when no gapless name it remembers as unmatched is covered by the rules now |
| DomainMatchers.DomainSet.Evict | src/plugins/geosite.rs:86-98 | any loss of remembered answers keeps the memo sound |
| DomainMatchers.DomainSet.Matches | src/plugins/geosite.rs:86-134 | on gapless names, whatever the memo went through, the answer is the unmemoised rule test; on the others when nothing is remembered |
| DomainMatchers.DomainSet.MatchesLowerWithParts | src/plugins/geosite.rs:136-171 | the same for the path over ranges, sharing the memo with the other path |
| DomainMatchers.Matcher.constructor | src/plugins/matcher.rs:89-149 | loading a list of lines builds exactly the rules the lines mean |
| DomainMatchers.Matcher.Load | src/plugins/matcher.rs:105-149 | by the form of the line, blanks around it aside: `suffix:` or a leading dot before a host adds the host's labels and the host, the bare host, `domain:` and `full:` the host only, `keyword:` the keyword, all in lower case; blank lines, comments, `regexp:` and unknown prefixes add nothing |
| DomainMatchers.LineMeans | src/plugins/matcher.rs:105-221 | the same of the rules of a list of lines, line by line |
| DomainMatchers.Matcher.Matches | src/plugins/matcher.rs:235-239 | the rule test of the cleaned name, from any memo state |
| DomainMatchers.Matcher.MatchesLower | src/plugins/matcher.rs:241-280 | on gapless names the answer is the unmemoised rule test, over any history of queries, evictions and both paths |
| DomainMatchers.Matcher.MatchesLowerWithParts | src/plugins/matcher.rs:282-325 | the same for the path over ranges, sharing the memo |
| DomainMatchers.ReadingsAgree | src/plugins/matcher.rs:241-325 | the two paths' tests imply one another in one direction always, in both on gapless names |
| DomainMatchers.RuleSet.Insert | src/plugins/adblock.rs:24-48 | a rule text adds exactly the one name it parses to, to one of the two sets |
| DomainMatchers.RuleSet.Matches | src/plugins/adblock.rs:50-72 | the strip loop is true exactly for listed names and names with a rule's labels as suffix, for every name |
| DomainMatchers.StripOne | src/plugins/adblock.rs:60-70 | dropping the first label of an unlisted name changes no suffix match |
| DomainMatchers.StringSetAndTrieHoldTheSameRules | src/plugins/adblock.rs:50-72 | on well-formed lower-case domains the string set and the trie hold the same label rules |
| DomainMatchers.AdGuardRule | src/plugins/adblock.rs:31-36 | the form of two bars, host, caret is the suffix rule of the host |
| DomainMatchers.HostRules | src/plugins/adblock.rs:36-46 | a host alone, and a host after either hosts-file address, is the exact rule of the host |
| DomainMatchers.CommentPatterns | src/plugins/adblock.rs:24-29 | blank lines, lines that start with an exclamation mark or a bracket, and lines with a double hash give no rule |
| CacheStore.KeyRoundTrip | src/plugins/cache.rs:59-113 | a key survives its codec up to the subnet, exactly when it has none |
| CacheStore.KeyToBytes | src/plugins/cache.rs:59-85 | the buffer is filled with the little-endian fields and the shortened subnet |
| CacheStore.KeyLayout | src/plugins/cache.rs:59-83 | byte by byte: name hash, type and class with the least significant byte first, then four address bytes and the prefix length, or seven and the prefix length, or zeros |
| CacheStore.EntryLayout | src/plugins/cache.rs:241-255 | byte by byte: timestamp, TTL and payload length with the least significant byte first, then the payload |
| CacheStore.UnLeRoundTrip | src/plugins/cache.rs:257-268 | every byte string is the little-endian form of the number it is read as |
| CacheStore.EntryRoundTrip | src/plugins/cache.rs:241-275 | a written entry followed by anything reads back as itself and takes exactly its own bytes |
| CacheStore.CutEntryFails | src/plugins/cache.rs:257-275 | an entry cut anywhere is refused |
| CacheStore.FramedPrefix | src/plugins/cache.rs:378-403 | a framed file cut after any number of bytes reads as exactly the records wholly inside the cut |
| CacheStore.DumpPrefix | src/plugins/cache.rs:621-648 | a dump cut anywhere reads as the records inside the cut, up to the first that does not parse |
| CacheStore.WholeIsLargest | src/plugins/cache.rs:378-403 | "wholly inside the cut" is the largest number of records whose encoding fits |
| CacheStore.FilesRoundTrip | src/plugins/cache.rs:378-648 | both formats give back the same keys, times, TTLs and bytes in order, with the messages the bytes parse to |
| CacheStore.CachePlugin.SaveToDisk | src/plugins/cache.rs:430-447 | writes the framed encoding of the listed entries in order, printing those without bytes and leaving out those that cannot be printed |
| CacheStore.SavedAsTheyAre | src/plugins/cache.rs:432-440 | entries with their bytes at hand are written as they are |
| CacheStore.SavedExactly | src/plugins/cache.rs:430-447 | a record is saved exactly when it is a listed entry with its bytes, or one without that can be printed, with the printed bytes |
| CacheStore.CachePlugin.LoadFromDisk | src/plugins/cache.rs:378-403 | leaves what the framed file's records leave when those past stale time plus an hour are dropped |
| CacheStore.CachePlugin.LoadFromFile | src/plugins/cache.rs:621-648 | the same for the dump, dropping those past stale time |
| CacheStore.CachePlugin.Handle | src/plugins/cache.rs:1152-1317 | a present entry is served exactly while its age (0 if the clock is behind) is below its TTL, or, without fake-IP protection, below TTL plus stale time in 64 bits; what is served is the bytes with the request's ID as the first two, if there are twelve or more, else the message under that ID; the entry is removed exactly when no time allows it and the protection does not hide it |
| CacheStore.LookupAnswers | src/plugins/cache.rs:1152-1317 | the lookup that the restart is measured by does what is said of Handle |
| CacheStore.LookupCannotTell | src/plugins/cache.rs:1152-1317 | a lookup on two stores that differ in dead entries only answers alike and leaves such stores |
| CacheStore.RunsCannotTell | src/plugins/cache.rs:1152-1317 | no run of lookups and refreshes tells such stores apart |
| CacheStore.LoadedHoldsTheAdmitted | src/plugins/cache.rs:390-402 | loading a saved store keeps exactly the entries younger than the filter's threshold |
| CacheStore.RestartIsInvisible | src/plugins/cache.rs:374-648 | in both formats, at every load time, the reloaded cache answers every later run as the original would have, exactly when for no entry TTL, stale time and grace wrap together |
| CacheStore.WrapShows | src/plugins/cache.rs:397-401 | an entry whose sum wraps is gone after a load at a given time at which a lookup would have served it fresh |
| CacheStore.LargestTtlIsForgotten | src/plugins/cache.rs:397-401 | an entry of the largest TTL, saved and loaded 3599 seconds later, is gone although fresh |
| Fallback.Run | src/plugins/fallback.rs:75-103 | a run succeeds exactly when the plugin ends within five seconds, without error, with a response; it takes as long as the plugin, five seconds at most |
| Fallback.AppliedIsWhollyFromOneRun | src/plugins/fallback.rs:60-67 | an applied context is the run's own but for the request, and nothing of an earlier application stays |
| Fallback.Select | src/plugins/fallback.rs:113-124 | an enabled branch that is due first; ties go either way |
| Fallback.FallbackPlugin.Deferred | src/plugins/fallback.rs:109-165 | the secondary starts exactly at the primary's failure or the threshold; the first success is applied whole; the error is returned exactly when both fail; the end time is exact |
| Fallback.FallbackPlugin.Standby | src/plugins/fallback.rs:167-213 | the secondary's answer is applied only from the primary's failure or the threshold on; the error is never returned; when the call panics, exactly up to a tie |
| Fallback.FallbackPlugin.HandleFallback | src/plugins/fallback.rs:69-213 | ends within min(threshold, 5 s) + 5 s, standby within 5 s; an answer is one run's |
| Fallback.DeferredEndBound | src/plugins/fallback.rs:109-165 | the end time of a deferred call is at most min(threshold, 5 s) + 5 s |
| Fallback.StandbyIsNoSlower | src/plugins/fallback.rs:109-213 | with the same runs, standby ends no later than deferred |
| Fallback.StandbyPanicsWhenBothFail | src/plugins/fallback.rs:184-213 | two plugins that hang make standby panic instead of returning the error |
| Fallback.StandbyPanicsBeforeTheAnswer | src/plugins/fallback.rs:188-205 | standby panics at the threshold although the primary would answer later |
| RateLimiter.RateLimitPlugin.ShouldLimit | src/plugins/ratelimit.rs:94-120 | a request is limited exactly in a running window in which it is over the maximum, by the 32-bit counter; any other opens a window; no other client's entry changes |
| RateLimiter.RateLimitPlugin.Cleanup | src/plugins/ratelimit.rs:123-130 | drops exactly the entries whose windows began two windows ago or earlier and changes no other |
| RateLimiter.KeptIff | src/plugins/ratelimit.rs:123-130 | what a cleanup step of a history drops, entry by entry |
| RateLimiter.CleanupIsInvisible | src/plugins/ratelimit.rs:72-130 | two histories with the same requests and any cleanups are decided alike |
| RateLimiter.AdmissionBound | src/plugins/ratelimit.rs:94-120 | a client is admitted at most 2 * max(1, maximum) times in any half-open interval of a window's length |
| RateLimiter.OneStepPaysItsAdmission | src/plugins/ratelimit.rs:94-130 | each step's admission is paid from the budget left for the interval |
| RateLimiter.CounterIsExactUntilItFills | src/plugins/ratelimit.rs:101-112 | the code decides all requests as an unbounded counter would exactly when no window receives 2^32 requests |
| RateLimiter.WrapBreaksTheBound | src/plugins/ratelimit.rs:101-112 | 2^33 requests at one instant break the bound, for every maximum |
| RateLimiter.BoundHoldsIffCounterCannotFill | src/plugins/ratelimit.rs:94-120 | a limit on the requests of each window guarantees the bound over all histories exactly when it is below 2^32 |
| Singleflight.EveryRun | src/core/singleflight.rs:32-50 | each cell's work begins at most once; all calls that joined a cell return its one result, errors included; the map has an entry only for keys somebody is in a call for |
| Singleflight.StepKeepsInv | src/core/singleflight.rs:32-50 | every step of every caller keeps the invariant |
| Singleflight.NoDeadlock | src/core/singleflight.rs:37-49 | while a call is open some caller can take a step other than joining |
| Singleflight.OpenCallsDrain | src/core/singleflight.rs:37-49 | without new calls the open ones end after a bounded number of steps |
| Singleflight.OneExecutionAtATime | src/core/singleflight.rs:7-47 | no overlap in runs whose removals spare unfinished cells; a removal that does not spare one can be continued to an overlap |
| Singleflight.SparingRunsNeverOverlap | src/core/singleflight.rs:37-47 | while removals spare unfinished cells, every such cell is the mapped one and no two executions of a key overlap |
| Singleflight.UnsparingRemoveLeadsToOverlap | src/core/singleflight.rs:47 | after a removal of somebody else's unfinished cell at most three steps lead to two executions of the key at once |
| Singleflight.LateWaiterRemovesNewerCell | src/core/singleflight.rs:37-47 | a legal run of two callers that reaches such a removal |
| WireNames.HashByte | bpf/titan_filter.c:66-72 | shift and wrapping additions are thirty-three times the hash plus the lower-cased byte modulo 2^64 |
| WireNames.HashBytesIncremental | src/bpf.rs:386-394 | the loop computes the fold over the bytes |
| WireNames.UpdateCacheHash | src/bpf.rs:121-123 | the three incremental hashes are the hash of name, type and class in one |
| WireNames.CalculateXdpHash | src/plugins/cache.rs:1015-1042 | the same value from the cache plugin's loops |
| WireNames.ParseDnsQnameHash | bpf/titan_filter.c:76-100 | finds the end exactly when a zero follows bytes in 1..0xBF within 128 bytes, and hashes exactly the name |
| WireNames.FindNameEnd | src/core/zerocopy.rs:252-278 | the loop ends where the label walk ends |
| WireNames.WalkEnds | src/core/zerocopy.rs:252-278 | on any bytes, the walk ends at e exactly when whole labels lead, within 255 bytes, to a zero at e - 1 or a compression pointer at e - 2 |
| WireNames.ScannersAgree | bpf/titan_filter.c:76-100 | on any bytes, where the kernel ends the walk ends too exactly when the bytes spell a name; otherwise, and only then, the kernel's zero lies inside a label, and the walk ends later or not at all |
| WireNames.KernelAgrees | src/core/zerocopy.rs:252-278 | on any bytes, where the walk ends the kernel ends too exactly when they spell a name of at most 128 bytes whose labels hold only bytes in 1..0xBF |
| WireNames.NoEndAtAPointer | src/core/zerocopy.rs:260-263 | before a compression pointer the kernel ends only at a zero inside a label |
| WireNames.NameEnds | bpf/titan_filter.c:76-100 | for a well-formed name and anything after it: when each scanner finds its end |
| WireNames.CaseDoesNotMatter | bpf/titan_filter.c:66-72 | names equal up to ASCII case hash alike |
| WireNames.SameUpToCaseIff | bpf/titan_filter.c:66-72 | names are equal up to case exactly when they agree byte by byte but for the two cases of the 26 letters |
| WireNames.ParseQuestion | src/core/zerocopy.rs:229-250 | refuses exactly short or unended questions; name, type and class are the bytes read |
| WireNames.KernelKey | bpf/titan_filter.c:223-241 | the key of a packet's question, or none exactly when name end, four more bytes or a non-zero name hash is missing |
| WireNames.KeysAgree | bpf/titan_filter.c:237-241 | of a packet both read, kernel and resolver read the same name exactly when the kernel's bytes spell one, and then the kernel's key is the resolver's key for it; otherwise the resolver reads a longer name |
| WireNames.StoredNamesAreFound | src/bpf.rs:121-123 | a query for a stored name in any case is looked up under the key it was stored under |
| XdpReply.CalcIpCsum | bpf/titan_filter.c:128-139 | the sum fits 32 bits, the folding loop ends, and the result is the complement of the folded sum |
| XdpReply.HeaderSum | bpf/titan_filter.c:128-139 | the sum is that of the header's ten words, in either byte order |
| XdpReply.FoldsToOnes | bpf/titan_filter.c:128-139 | a sum folds to all ones exactly when it is a positive multiple of 65535 |
| XdpReply.ComplementIsRight | bpf/titan_filter.c:355-357 | with that checksum the header's words fold to 0xFFFF (section 3.1 of RFC 791), in either byte order |
| XdpReply.CopyBody | bpf/titan_filter.c:316-347 | for every length up to 768 the chunks and the tail write exactly the cached bytes and leave the headers alone |
| XdpReply.Rewrite | bpf/titan_filter.c:316-366 | the packet in place becomes the reply: ends swapped, lengths and checksum set, body under the query's ID |
| XdpReply.ReplyIsWellFormed | bpf/titan_filter.c:349-366 | a reply's checksum and lengths are right, its ends are the query's exchanged, all other fields are the query's, its body is the cached one under the query's ID |
| XdpReply.ReplyBody | bpf/titan_filter.c:349-366 | the UDP checksum is off, the first two bytes of the body are the query's ID and the others the cached ones |
| XdpReply.UpdateCache | src/bpf.rs:125-141 | the entry holds at most 768 bytes of the response, its RCODE and the expiry a minute past the TTL, in 64-bit words that wrap |
| XdpReply.FindEntry | bpf/titan_filter.c:223-294 | the entry found is for the question's key, unexpired, of RCODE 0 and of a length in 1..768; none only if there is no such entry |
| XdpReply.TitanDnsFilter | bpf/titan_filter.c:141-370 | a packet is answered with the reply from its entry, which is unexpired, of RCODE 0 and of a length in 1..768, or passes unchanged; it passes only if it cannot be resized or nothing hits |
| XdpReply.WithId | src/core/zerocopy.rs:183-196 | the copy differs in the ID only |
| XdpReply.StoredResponseIsServed | src/bpf.rs:108-149 | a query for a stored name hits exactly when its entry has not expired and the RCODE is 0, and otherwise hits nothing at all; its answer is the response under the query's ID exactly when the response has at most 768 bytes |

## Left out

- Pipeline.Resolve: promises nothing when a sequence and a plugin share a name, because the registry insert overwrites one with the other.
- DomainMatchers.DomainSet.Matches: on names with an empty label right of a non-empty one a remembered answer may come from the other path; `Labels.ReadingsAgreeIffGapless` shows that no stronger statement holds.
- DomainMatchers.LineMeans: does not spell out rules whose host holds a space or a ':', has a '.' at an end, or starts with '#' or '/'; the parsing of such lines is modelled all the same.
- CacheStore.RestartIsInvisible: for stores whose entries all have bytes that parse and keys without subnet, and whose messages, where the bytes are shorter than a header, are what the bytes parse to. An entry stored with empty bytes, because its response could not be printed, is not read back.
- RateLimiter.AdmissionBound: for the 32-bit counter it needs that no window receives 2^32 requests; `RateLimiter.BoundHoldsIffCounterCannotFill` shows that no larger limit would do.
- Singleflight.OneExecutionAtATime: callers are not cancelled.
- XdpReply.StoredResponseIsServed: the name's own hash must not be zero, since the kernel takes that for a failed scan, and no other name may have taken the key.
- LockFreeShard: the machine is sequentially consistent, while the counter is accessed with relaxed ordering and the head with acquire and release; also the composition of 64 shards and the sum in `len()`, and crossbeam's memory reclamation: a pinned node's address is not reused.
- IterativeResolver: the trusted resolver and the choice of mode; both are arbitrary addresses here. Sockets and the TCP retry.
- Names are ASCII; Unicode lower-casing of rules and names is not modelled.
- Reading rule files and cache files is given as lines and bytes; file errors, periodic saving and the prefetch after a cache hit are left out. The load takes one time for the whole file.
- The cache's own eviction; in the memos eviction is an arbitrary loss.
- Durations are naturals, so overflow of a window or threshold in the time types is not modelled; the clock does not run backwards.
- In the XDP filter: the blacklist, statistics, the refresh ring buffer, IP options (the header is taken to be 20 bytes, as the code does) and fragments.
- `src/autopilot.rs`, `execute_smart` in `src/plugins/forward.rs`, the dashboard, API, metrics, logging and configuration parsing: heuristics over floating point, or plumbing.
- Hosts, reject, TTL, ECS and DNS64 plugins: leaves of the pipeline, arbitrary here.
