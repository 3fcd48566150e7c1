# hypershunt: a verified model

hypershunt is an HTTP server and reverse proxy. This project models, in Dafny, the parts of
it that carry real state machines, transformations and arithmetic, and proves what they promise:

- the **template and variable language** (`Templates`, `References`, `Variables`, `VarScopes`, `VarCycles`,
  `VarNeedsAnalysis`, `VarBuild`, `VarLayers`, `VarMeaning`): lexing and compiling `{name|fallback}` templates, layered
  definitions with late binding, rejection of dependency cycles, the "needs" analysis, lazy memoised
  evaluation, and sharing of its slots between two views of a request (`FrozenSlots`, `VarOverrides`). What variables
  mean is defined without evaluation order: the values of a request are the one assignment in which every variable
  equals the text of its own body. Acyclic tables have exactly one (`ValuesSolve`, `SolutionUnique`), and everything
  else is stated against it;
- **access policies** (`Access`, `AccessLaws`, `Policies`): three-valued predicates with a lazily resolved identity, and
  inlining of `apply` references;
- the **request-count archives** (`Archives`, `Metrics`): ring buffers at four resolutions;
- the **token bucket** (`RateLimit`, `RateLaws`) and its collector;
- the **response store** (`CacheStore`) and its **single-flight protocol** (`SingleFlight`), the latter as a
  state machine over interleaved steps;
- the **load balancer** (`LoadBalancer`), the **token cache** (`Jwt`, `JwtLaws`), the **PROXY protocol**
  (`ProxyHeaders`, `ProxyText`, `ProxyLaws`) and the **calendar** of the access log (`Calendar`).

`Digraph` (reachability, cycles, rankings), `Recency` (the lists both caches keep), `Arithmetic`, `Text`
and `Common` hold what several of these share.

Code that updates fields or buffers is modelled by classes and methods with loops (`VarScope`, `CycleSearch`,
`NeedsFold`, `EvalContext`, `Resolver`, `Archive`, `Counters`, `RateLimitRule`, `Store`, `UpstreamPool`,
`JwtManager`, `Reader`), each proved against functions or predicates on values; lemmas then state what the
source promises about those. Regular expressions, header-name syntax, UTF-8, IPv6 text, base64, JSON, hashing
and signatures are parameters (the `Lib` datatypes); clock readings, random numbers and hashes of requests are
arguments. `dafny verify dfyconfig.toml` checks the whole project.

## Findings

Some promises hold only under a condition; the code is modelled as it is and the condition proved.

- The ring scan of the load balancer sees every position exactly when the start index does not wrap during the
  round, or wraps at a multiple of the ring length (`LoadBalancer.ScanCoversIff`); otherwise one position is
  named that it skips.
- A consolidated archive slot is the counter's growth modulo 2^32, and the growth itself exactly when that fits
  in 32 bits (`Metrics.Conservation`); a window sum is exact precisely when no single tick overflowed
  (`Metrics.WindowExact`).
- A version 1 PROXY header is read back exactly when both addresses are of one family; a mixed pair is written
  under the source's family and refused (`ProxyText.V1RoundTrip`).
- The rate limiter reads its clock before it takes the lock (src/rate_limit.rs:98 and 110), so readings may reach
  a bucket out of order, and a late one sets the refill time back. `RateLimit.AllowsBound` bounds admissions for
  every order; the bound over elapsed time (`RateLimit.RateBound`) needs readings of the key that move forward no
  further than that time, and `RateLimit.LateReadingBreaksBound` exceeds it with others. One collection is invisible
  to a reading exactly when the bucket was kept or would be full at the time read (`RateLimit.SweepInvisibleIff`),
  which can fail only for a check that reads a time before the collection (`RateLimit.EvictionInvisible`,
  `RateLimit.EarlierCheckSeesCollection`).
- `try_files` renders against a copy of the context with another path that shares the memoised variable slots
  (src/handler/static_files.rs:413-416). A value read in one view is then read again in the other
  (`VarOverrides.ReadTwice`); that is right exactly when every filled variable has the same value in both
  (`VarOverrides.SharedSlotsRightIff`), and wrong for a variable defined as `{path}` (`VarOverrides.StalePath`).
- The documentation of `VarNeeds::uses_vars` (src/vars.rs:57-59) suggests that a variable that refers to others
  has it set; the code leaves it false in every variable's own needs (part of `VarNeedsAnalysis.Exact`) and sets
  it only in `absorb`, which is where it is used.
- `CacheStore::insert` of an object over the whole budget leaves an older entry of the same key in place
  (`CacheStore.Store.Insert`).

## Model

| member | source | states |
|---|---|---|
| Templates.Lex | src/headers.rs:96-128 | the loop yields the token stream `Tokens(s)` |
| Templates.TokensSound | src/headers.rs:96-128 | no character of the template is lost: the tokens' texts join to the input, in canonical shape |
| Templates.TokensComplete | src/headers.rs:96-128 | every canonical token list is what lexing its own text gives, so lexing is a bijection onto such lists |
| Templates.Build | src/headers.rs:248-306 | compiles each token in order and stops at the first capture error |
| Templates.CompileNeverFails | src/headers.rs:220-236 | outside match arms no template text fails to compile |
| Templates.CompiledInScope | src/headers.rs:298-301 | references compile to slots of the table compiled against |
| Templates.UnresolvedRendersVerbatim | src/headers.rs:30-31 | a template none of whose tokens resolves renders exactly as written |
| Templates.Refs | src/headers.rs:398-423 | lists exactly the direct references, each once |
| References.BuiltinsShow | src/headers.rs:67-83 | in every template, each of the twelve names shows its own field of the request, or the fallback when that is empty |
| References.BuiltinAsks | src/headers.rs:398-423 | `{username}` and `{groups}` ask for the identity, `{country}` for a lookup, and no built-in name for anything else |
| References.HeaderShows | src/headers.rs:279-284 | `{header:x}` shows the first request header of that name, or the fallback |
| References.NumberedGroupShows | src/headers.rs:172-177 | in an arm, `{1}` to `{9}` show what that group captured, or the fallback |
| References.MissingGroupFails | src/headers.rs:290-296 | a number beyond the pattern's groups does not compile, and the error names both |
| References.NamedGroupShows | src/headers.rs:163-168 | a group name shows the first group of that name |
| References.UnboundShowsItself | src/headers.rs:302-303 | a name that stands for nothing is shown as written, fallback and all |
| References.PlainHeaderShowsItself | src/headers.rs:271-274 | so is a header reference where no variables are known |
| Variables.FirstArmDecides | src/vars.rs:256-271 | the first matching arm decides, with its captures; no match gives the empty string |
| Variables.DepsDecide | src/vars.rs:277-296 | a variable's text depends on the variables it refers to and on no others |
| Variables.ValuesSolve | src/vars.rs:250-273 | in an acyclic table the pure evaluator gives every variable the text of its own body |
| Variables.SolutionUnique | src/vars.rs:250-273 | no other assignment does, so evaluation order cannot matter |
| VarScopes.VarScope.constructor | src/vars.rs:246-248 | a fresh scope has one empty slot per variable |
| VarScopes.VarScope.Empty | src/vars.rs:477-482 | the empty scope is a valid one without slots |
| FrozenSlots.MeaningSettles | src/vars.rs:497-511 | what filled slots determine: each reads as it is, every other variable has the text of its own body |
| FrozenSlots.MeaningUnique | src/vars.rs:497-511 | only one assignment does so, whatever the slots hold |
| FrozenSlots.MeaningKept | src/vars.rs:505-510 | storing a computed value changes what no variable reads |
| FrozenSlots.TruthfulIff | src/vars.rs:497-511 | every variable reads its pure value exactly when every filled slot holds it |
| VarScopes.VarScope.Get | src/vars.rs:497-511 | from any slots, whichever view filled them: terminates; a filled slot is returned as it is, any other variable is computed around the filled ones and stored; no variable then reads differently, only reachable ones get filled, and with truthful slots the result is the pure value |
| VarScopes.VarScope.Eval | src/vars.rs:250-273 | from any slots, the text of one body around them, filling only what the body can reach |
| VarScopes.VarScope.RenderParts | src/headers.rs:322-380 | from any slots, memoised rendering equals rendering with all the values they determine in hand |
| VarScopes.VarScope.RenderTemplate | src/headers.rs:309-311 | the same for any template of a route; with truthful slots it is the rendering under the pure values |
| VarScopes.OwnSlotUntouched | src/vars.rs:505-507 | recursion only ever touches other slots: a variable's own slot is still empty when its value is set |
| VarCycles.DepsOf | src/vars.rs:277-296 | lists exactly the variables a body refers to, each once |
| VarCycles.CycleSearch.Visit | src/vars.rs:308-341 | success keeps "1 marks exactly the path, 2 exactly the finished, the path is a path, the finished are ranked" and finishes the node; a failure is a closed path |
| VarCycles.CheckCycles | src/vars.rs:298-306 | succeeds exactly when the dependency graph is acyclic; the reported chain is a genuine cycle |
| VarNeedsAnalysis.Merge | src/vars.rs:63-72 | union of needs without duplicate headers |
| VarNeedsAnalysis.Direct | src/vars.rs:349-378 | exact direct needs and dependencies of a body, over input and all arms |
| VarNeedsAnalysis.NeedsFold.Resolve | src/vars.rs:391-407 | returns and memoises exactly what the variable needs through everything it reaches |
| VarNeedsAnalysis.ComputeNeeds | src/vars.rs:345-388 | every definition ends with its exact transitive needs, nothing else changed |
| VarNeedsAnalysis.Absorb | src/vars.rs:76-89 | adds exactly what a template can read through any depth of variables |
| VarNeedsAnalysis.NeedsSound | src/vars.rs:43-60 | a template renders the same in any two contexts that agree on all it needs (non-interference) |
| VarNeedsAnalysis.SnapshotKeeps | src/listener/service.rs:838-858 | a listed header has the same value in the snapshot as in the request |
| VarNeedsAnalysis.GatingInvisible | src/listener/service.rs:831-876 | building the context only from the needs (identity, country, header snapshot, empty scope) never changes a rendering |
| VarNeedsAnalysis.GatedRenders | src/listener/service.rs:831-876 | the least context that serves the needs withholds identity, country and headers not listed, and still renders every template of the route as the full one |
| VarOverrides.PathFreeValue | src/handler/static_files.rs:410-417 | a variable that reaches no `{path}` has the same value in a view with another path |
| VarOverrides.SharedSlotsRightIff | src/handler/static_files.rs:410-417 | the second view reads every variable right exactly when each one filled by the first has the same value in both |
| VarOverrides.SharedSlotsHold | src/handler/static_files.rs:410-417 | in particular while no filled slot belongs to a variable that reaches `{path}` |
| VarOverrides.ReadTwice | src/handler/static_files.rs:410-417 | the first view wins: for every table, variable and pair of contexts the second read returns what the first did |
| VarOverrides.StalePath | src/handler/static_files.rs:410-417 | the failing input: a fresh scope over a variable defined as `{path}`, read in two views, returns the first path both times |
| VarBuild.CompileBody | src/vars.rs:409-440 | succeeds exactly when every arm is reachable and compiles, and yields the compiled body |
| VarBuild.CompiledBodyInScope | src/vars.rs:409-468 | compiled bodies refer only to slots of their table |
| VarBuild.LayoutShadow | src/vars.rs:207-208 | an inner definition takes over its name's slot and nothing else |
| VarBuild.LayoutFresh | src/vars.rs:209-212 | a new name gets a new slot; `names` and `index` stay mutually inverse |
| VarBuild.AddLayer | src/vars.rs:179-215 | a layer is accepted exactly when its names are valid, free and distinct; each name keeps one slot with its innermost definition |
| VarLayers.Collect | src/vars.rs:175-215 | the same for all layers |
| VarLayers.CompileAll | src/vars.rs:217-225 | compiles the definitions in force; a failure means no table exists |
| VarLayers.BuildLayered | src/vars.rs:172-230 | succeeds on exactly the acceptable layerings, with an acyclic table of the definitions in force carrying exact needs |
| VarLayers.AcyclicByName | src/vars.rs:227-228 | being acyclic depends on names and definitions in force, not on slot order |
| VarLayers.ValuesByName | src/vars.rs:166-171 | variables have the same value under every layering with the same definitions in force |
| VarLayers.SameMeaning | src/vars.rs:166-171 | late binding: any template text renders the same against all such tables |
| VarLayers.OneLayerSuffices | src/vars.rs:162-171 | one layer of the definitions in force is accepted exactly when the layers are |
| VarMeaning.NamesAllowed | src/vars.rs:138-147 | layers are admitted exactly when every name is a lower-case letter followed by lower-case letters, digits and underscores, is none of fifteen reserved words, and is not repeated in its layer |
| VarMeaning.MatchAccepted | src/vars.rs:409-468 | a match is accepted exactly when `_` comes last if at all, every pattern compiles without a group named like a variable or built-in, and every value refers to groups its pattern has |
| VarMeaning.ReferenceBinds | src/headers.rs:270-302 | a reference to a defined variable always binds to it, never to a built-in, header or capture, in any arm the compiler accepts |
| VarMeaning.ReferenceShows | src/headers.rs:357-377 | from configuration text to response text: it shows the variable's value, or the fallback when that is empty, in any template or arm |
| VarMeaning.InForce | src/vars.rs:166-171 | the definition in force is the last of its name, outermost layer first |
| VarMeaning.ConstantValue | src/vars.rs:250-255 | a constant's value is what its definition's text shows |
| VarMeaning.MatchValue | src/vars.rs:256-271 | a match's value is what the value text of the first matching arm shows with its captures, else empty |
| Access.FirstDissentDecides | src/access.rs:337-347 | a conjunction answers Match when all do, else what the first other answer is |
| AccessLaws.AddressJudged | src/access.rs:285-292 | an address matches exactly when some network of its family agrees with it above the host bits |
| AccessLaws.MappedPeer | src/access.rs:361-371 | exactly the addresses ::ffff:0:0/96 become IPv4, with the same low 32 bits |
| AccessLaws.CountryJudged | src/access.rs:294-303 | a country matches exactly when it is known and listed |
| AccessLaws.AnonymousChallenged | src/access.rs:305-326 | an anonymous caller is challenged with 401 by every identity leaf |
| AccessLaws.CallerJudged | src/access.rs:305-326 | an authenticated caller matches by name, by any shared group, or at all |
| AccessLaws.NegationJudged | src/access.rs:328-335 | negation never challenges, and matches exactly when the inner predicate does anything else |
| AccessLaws.ChallengeOnlyExposed | src/access.rs:10-16 | a challenge is a 401 for an anonymous caller, from an identity leaf under no negation |
| AccessLaws.RuleSays | src/access.rs:195-228 | a rule gives its action when its predicate matches, 401 on a challenge, and falls through otherwise |
| AccessLaws.VerdictOrigin | src/access.rs:190-230 | a verdict is the action of a matching rule, such a 401, or the final 403 |
| AccessLaws.ActionsSay | src/access.rs:200-230 | unconditional rules act as written and an empty block denies with 403 |
| AccessLaws.LoginRedirect | src/access.rs:328-335 | an anonymous caller can be redirected instead of challenged |
| AccessLaws.LeavesAsk | src/access.rs:303-326 | identity leaves ask for the caller, the others do not, and negation asks when its inner predicate does |
| AccessLaws.ConjunctionAsks | src/access.rs:337-347 | a conjunction asks for the identity exactly when it gets as far as a part that does |
| AccessLaws.BlockAsks | src/access.rs:194-230 | a block does exactly when some rule does and all before it fall through |
| AccessLaws.UnaskedIrrelevant | src/access.rs:352-359 | a caller who was not asked for cannot have mattered |
| AccessLaws.FlagsExact | src/access.rs:73-92 | the two flags say exactly which leaves there are |
| Access.FirstRuleDecides | src/access.rs:190-194 | the first rule that speaks decides |
| Access.NoAuthNoChallenge | src/access.rs:85-92 | without identity leaves nobody is asked, everyone gets the same answer, and no challenge arises |
| Access.NoAuthVerdict | src/access.rs:194-230 | the same for rule lists, whose verdict is then one of their actions or none |
| Access.NoGeoVerdict | src/access.rs:169-181 | a block not flagged for GeoIP decides the same for every country |
| Access.EvalContext.constructor | src/access.rs:255-266 | a fresh context normalises the peer and has asked nobody |
| Access.EvalContext.ResolvePrincipal | src/access.rs:354-359 | the provider is called at most once; its first answer is used throughout |
| Access.EvalContext.EvalPredicate | src/access.rs:279-350 | equals the pure judgement for one fixed identity, asking for it exactly when the judgement gets that far |
| Access.EvalContext.Evaluate | src/access.rs:194-230 | the same for a whole block, with the default denial |
| Policies.Resolver.ResolveOne | src/router.rs:372-395 | resolves a policy to its expansion, keeps what was resolved, and explains every failure: a missing name, or the reported chain, a path of references that leads back into itself |
| Policies.Resolver.ResolveRuleDefs | src/router.rs:398-420 | a rule list resolves to itself with applied lists in place |
| Policies.ResolveNamedPolicies | src/router.rs:360-369 | in any order of names, succeeds exactly when all names are defined and none applies itself; missing names and reported chains are genuine |
| Policies.FlatteningUnique | src/router.rs:357-359 | there is only one flattening, so iteration order cannot show |
| Policies.CheckTcpBlockRules | src/router.rs:470-483 | accepts exactly the lists without identity predicates |
| Policies.StreamRulesIff | src/router.rs:454-483 | the lists allowed on streams are exactly those of addresses and countries alone |
| Policies.InlineRules | src/router.rs:424-452 | yields the expansion exactly when all names exist and, for streams, no inlined rule needs identity |
| Policies.InliningPreservesMeaning | src/access.rs:1-8 | the flat list decides as the nested policies do, falling through after an unmatched `apply` |
| Policies.BlockMeans | src/router.rs:346-353 | a location block after inlining says what its nested reading says, else denies with 403 |
| Policies.TcpBlockIgnoresIdentity | src/router.rs:454-483 | a block accepted for a stream never asks for identity and never challenges |
| Archives.Archive.Push | src/metrics.rs:1831-1841 | overwriting at `head` keeps the ring equal to the most recent values written |
| Archives.Archive.SumLast | src/metrics.rs:1930-1932 | the index arithmetic sums exactly the last n slots |
| Archives.Archive.WindowReq | src/metrics.rs:458-466 | sums exactly the last n slots, at most the whole ring |
| Metrics.Consolidate | src/metrics.rs:1999-2091 | appends the truncated sum of the source's last n slots |
| Metrics.Counters.Tick | src/metrics.rs:1776-1895 | every tick keeps all four levels consistent: each complete group of 12, 60 and 24 slots has exactly one coarser slot |
| Metrics.Conservation | src/metrics.rs:1776-1895 | over every run with a non-decreasing counter, each minute, hour and day slot is the growth over exactly its 12, 720 or 17280 ticks, modulo 2^32, and exact iff it fits |
| Metrics.SlotCounts | src/metrics.rs:1776-1895 | no slot is missing: one per 12, 720 and 17280 ticks |
| Metrics.Counters.Retained | src/metrics.rs:1897-2091 | the same for every slot still held, by its position in the ring |
| Metrics.WindowExact | src/metrics.rs:458-466 | the last n ticks sum to the growth over them exactly when no tick overflowed 32 bits |
| Metrics.Counters.WindowReq | src/metrics.rs:458-466 | the same for the retained hour, also before an hour has passed |
| RateLimit.RateLimitRule.CheckAt | src/rate_limit.rs:103-139 | a check sees the refilled bucket (full if absent), charges one token if it can, and touches no other key |
| RateLimit.RateLimitRule.EvictIdleAt | src/rate_limit.rs:148-176 | drops exactly the buckets untouched for the threshold that would be full, leaves the others as they are, and counts |
| RateLimit.AllowsBound | src/rate_limit.rs:103-176 | for clock readings in any order, from any state and with collections anywhere, a key is admitted at most as often as it has tokens, plus rate for every second its readings move forward |
| RateLimit.RateBound | src/rate_limit.rs:103-176 | from any state, while the readings of a key move forward by at most t - s, it is admitted at most burst + rate * (t - s) times |
| RateLimit.OrderedRateBound | src/rate_limit.rs:103-176 | in particular for a stretch from s to t whose readings arrive in order |
| RateLimit.LateReadingBreaksBound | src/rate_limit.rs:117-121 | with readings out of order, all within one second, that is exceeded: a concrete run |
| RateLimit.SweepInvisibleIff | src/rate_limit.rs:148-176 | one collection is invisible to a reading at any time exactly when the bucket was kept or would be full at that time |
| RateLimit.EvictionInvisible | src/rate_limit.rs:148-176 | over whole runs, collections at arbitrary points change no outcome of any check of any key, provided no check reads a time before a collection it follows |
| RateLimit.EarlierCheckSeesCollection | src/rate_limit.rs:148-176 | a check that does read an earlier time can tell: a concrete state |
| RateLimit.RetryAfterExact | src/rate_limit.rs:125-138 | Retry-After is the least whole number of seconds after which the key is admitted, when it fits 32 bits and the burst is at least 1 |
| RateLaws.BurstExact | src/rate_limit.rs:103-139 | at one instant a key is admitted exactly as often as it has whole tokens, at most as often as it asks |
| RateLaws.NewKeyHasBurst | src/rate_limit.rs:111-114 | a key never seen has its whole burst |
| RateLaws.TokensConserved | src/rate_limit.rs:103-176 | over any ordered stretch tokens are conserved: held at the start, or at a later moment when full, plus all earned since, less one per admission |
| RateLaws.DenialEarned | src/rate_limit.rs:125-138 | a refused key was admitted, since the start or a moment when full, more often than all it had and earned less one: the lower bound matching the upper one |
| RateLaws.RetryAfterLargest | src/rate_limit.rs:129-134 | without a rate, or when the wait exceeds 32 bits, 4294967295 is reported |
| Calendar.CivilIsRight | src/access_log.rs:445-457 | every integer day gets a valid date, whose day number is that day |
| Calendar.CivilInverse | src/access_log.rs:445-457 | inverse to days-from-civil on every valid date |
| Calendar.CivilEpoch | src/access_log.rs:442-444 | day 0 is 1970-01-01 |
| Calendar.CivilSuccessor | src/access_log.rs:445-457 | each day's date is the Gregorian successor of the previous day's |
| Calendar.CivilOrdered | src/access_log.rs:445-457 | dates keep the order of days |
| CacheStore.Store.Get | src/cache/store.rs:108-111 | returns the entry and makes it the most recently used |
| CacheStore.Store.Insert | src/cache/store.rs:116-139 | `bytes` stays the exact sum within budget; the new entry survives and exactly the shortest least-recently-used prefix that restores the budget goes; oversized objects are refused |
| CacheStore.Store.EvictToBudget | src/cache/store.rs:126-137 | the eviction loop, never removing the last entry, with subtractions that do not saturate |
| CacheStore.TrimmedShortest | src/cache/store.rs:113-115 | evicting k entries restores the budget exactly when k is at least what was evicted |
| CacheStore.Store.Remove | src/cache/store.rs:142-147 | removes the entry and its bytes |
| CacheStore.Store.EvictExpired | src/cache/store.rs:150-164 | leaves exactly the entries whose lifetime has not run out, in order |
| CacheStore.Coherence | src/cache/store.rs:106-164 | over every run of the operations the methods promise, a held entry is the response last accepted for its key and not removed since |
| CacheStore.HitIsLastStored | src/cache/store.rs:106-139 | so a hit returns that response |
| CacheStore.StoredIsFound | src/cache/store.rs:116-139 | a response just accepted is found |
| CacheStore.RecencyOrder | src/cache/store.rs:106-164 | over every run the list is in order of last use, so eviction takes what was used longest ago |
| SingleFlight.RunSound | src/cache/store.rs:39-104 | every state of every interleaving keeps the protocol's invariant |
| SingleFlight.OneLeader | src/cache/store.rs:86-90 | at most one registered leader per key |
| SingleFlight.LeadsIffFree | src/cache/store.rs:91-104 | a request leads exactly when no guard holds its key, else it follows that guard |
| SingleFlight.LeaderRegistered | src/cache/store.rs:95-103 | a leader gets a new open channel, registered for its key |
| SingleFlight.FollowerRegistered | src/cache/store.rs:92-94 | a follower is registered with the leader's channel and changes nothing else |
| SingleFlight.WaitEnds | src/cache/store.rs:24-28 | waiting ends only by that channel closing or by giving up, for one follower at a time |
| SingleFlight.RemovesOwnEntry | src/cache/store.rs:62-70 | a dropping guard removes its own entry, never a successor's |
| SingleFlight.CloseLeavesEntries | src/cache/store.rs:56-60 | closing the channel takes nothing from a later leader |
| SingleFlight.FollowersHaveLeader | src/cache/store.rs:24-28 | no follower waits on an open channel without a guard holding its sender |
| SingleFlight.DropWakesFollowers | src/cache/store.rs:50-55 | finishing a guard's drop closes its channel and lets its followers go on |
| SingleFlight.ClosedForGood | src/cache/store.rs:95-97 | a closed channel never opens again |
| LoadBalancer.BuildRing | src/lb.rs:218-223 | the nested loops build the weighted ring |
| LoadBalancer.RingCounts | src/lb.rs:197-200 | each upstream is on the ring exactly as often as its weight |
| LoadBalancer.RingSorted | src/lb.rs:218-223 | in order of the upstreams, which leaves one ring only |
| LoadBalancer.EligibleMeans | src/lb.rs:148-156 | eligible means a positive weight, healthy, no ejection still running, and the group asked for |
| LoadBalancer.ScanCoversIff | src/lb.rs:315-323 | one round of the scan sees the whole ring exactly when the start does not wrap misaligned |
| LoadBalancer.UpstreamPool.PickLeastConn | src/lb.rs:327-355 | minimal floor(1000 * in-flight / weight) among the eligible, with the exact tie-break; None iff nobody is eligible |
| LoadBalancer.LeastLoadedUnique | src/lb.rs:327-355 | the tie-break leaves exactly one choice |
| LoadBalancer.CostOf | src/lb.rs:327-355 | what is compared is in-flight requests times 1000 over weight, rounded down |
| LoadBalancer.PolicyStarts | src/lb.rs:297-314 | round-robin starts at the cursor, random at the number drawn, a hash policy at the hash or else the cursor; the cursor moves unless a hash was used |
| LoadBalancer.UpstreamPool.PickWhere | src/lb.rs:276-325 | the policy's choice among the eligible: least loaded, or first in scan order from the policy's start, the place there whenever it is eligible; what the cursor becomes; from a safe start, None iff nobody is eligible |
| LoadBalancer.UpstreamPool.Pick | src/lb.rs:243-273 | the policy's choice among the requested group whenever one of it is available at the first reading, else among all at the second; None from a safe start only if nobody is available; success whenever the first position scanned is available |
| LoadBalancer.WeightedFairness | src/lb.rs:197-200 | any round of consecutive cursor values visits each upstream exactly weight times |
| LoadBalancer.PickAtCursor | src/lb.rs:297-325 | with everyone available, a round-robin pick succeeds with the ring at the cursor and advances it |
| LoadBalancer.FairRound | src/lb.rs:297-325 | a round of actual picks, each at its own time with everyone available, chooses each upstream exactly weight times, also across an aligned wrap of the cursor |
| Jwt.ExpiryIsFinal | src/jwt.rs:236-252 | a token accepted now was accepted alike at all earlier times, an expired one stays expired, and nothing else ever changes (section 4.1.4 of RFC 7519) |
| JwtLaws.ValidIff | src/jwt.rs:184-271 | accepted for an identity exactly when the three pieces have our ES256 header, a signature that verifies over header and payload, that subject and groups, and an expiry ahead |
| JwtLaws.ExpiredIff | src/jwt.rs:236-243 | expired are exactly the genuine tokens whose expiry has come |
| JwtLaws.NotMineIff | src/jwt.rs:204-208 | not ours are exactly the tokens whose header names ES256 and another key |
| Jwt.PutKeeps | src/jwt.rs:264-270 | storing loses nothing below 1024 tokens and exactly the least recently used one from there on |
| Jwt.JwtManager.VerifyFully | src/jwt.rs:184-271 | the slow path: answers as full verification does, and stores a token exactly when it accepts it |
| Jwt.JwtManager.ValidateToken | src/jwt.rs:161-272 | with the cache, whatever was validated or evicted before, the answer is that of full verification now; a live hit moves up, an expired one is removed |
| Jwt.HitAgrees | src/jwt.rs:169-180 | a cache hit answers as full verification would |
| Jwt.AcceptedIsCached | src/jwt.rs:168-271 | after an accepted validation the token is the most recently used entry, with its own identity and expiry |
| Jwt.CollisionHarmlessIff | src/jwt.rs:162-180 | why hashes must not collide: a shared slot is right at all times exactly when both tokens check alike |
| ProxyHeaders.BuildV2 | src/proxy_proto.rs:53-85 | writes signature, command, family, length and address block |
| ProxyHeaders.BuildV2Unspec | src/proxy_proto.rs:97-104 | writes a header without addresses |
| ProxyHeaders.PathSlot | src/proxy_proto.rs:116-124 | a socket path slot is 108 bytes and null-terminated |
| ProxyHeaders.PathReads | src/proxy_proto.rs:116-124 | a path without zero bytes is read back from its slot, cut at 107 bytes if longer |
| ProxyHeaders.BuildV2Unix | src/proxy_proto.rs:109-127 | writes a 216-byte block of two path slots |
| ProxyHeaders.ParseV2 | src/proxy_proto.rs:234-324 | which inputs parse to what, and how much is consumed |
| ProxyHeaders.V2RoundTrip | src/proxy_proto.rs:53-85 | with any trailing bytes, addresses of one family come back as sent (mixed ones as none) and exactly the tail is left |
| ProxyHeaders.V2WithoutAddresses | src/proxy_proto.rs:95-127 | UNSPEC and AF_UNIX headers parse to none with exact consumption |
| ProxyLaws.V2Bytes | src/proxy_proto.rs:49-127 | every header byte by byte |
| ProxyLaws.V2Answers | src/proxy_proto.rs:234-324 | every header by its bytes: LOCAL and other families carry no addresses, unknown commands and short blocks fail, bytes behind the addresses are skipped |
| ProxyLaws.V2Refuses | src/proxy_proto.rs:234-262 | too short an input and any other signature fail |
| ProxyText.ParseV1 | src/proxy_proto.rs:157-226 | consumes exactly through the first line end within 108 bytes, and which lines mean what |
| ProxyText.V4Reads | src/proxy_proto.rs:207-212 | dotted-quad text is read back as the same octets |
| ProxyText.V1Fits | src/proxy_proto.rs:32-45 | every built header fits the 108-byte buffer |
| ProxyText.V1RoundTrip | src/proxy_proto.rs:32-45 | with any trailing bytes, a built header is read back exactly when both addresses are of one family, leaving exactly the tail |
| ProxyText.V1UnknownReads | src/proxy_proto.rs:91-93 | the UNKNOWN header parses to none with exact consumption |
| ProxyLaws.V1Text | src/proxy_proto.rs:31-45 | the line for every pair of addresses |
| ProxyLaws.V4Exact | src/proxy_proto.rs:207-209 | an IPv4 address is accepted exactly as four octets in decimal form |
| ProxyLaws.PortExact | src/proxy_proto.rs:196-205 | a port exactly in decimal, leading zeros and one plus sign allowed |
| ProxyLaws.V1AddressesIff | src/proxy_proto.rs:183-226 | a line gives addresses exactly when it is the keyword, a family, two addresses of it and two ports |
| ProxyLaws.V1UnknownIff | src/proxy_proto.rs:183-193 | it gives none exactly when its second word is UNKNOWN; every other line is refused |
| ProxyLaws.V1Length | src/proxy_proto.rs:160-176 | a line may reach exactly 108 bytes, its end included |

## Left out

- Configuration loading, reload, listeners, TLS, HTTP handlers and the network: sockets, signals and tasks.
- Regular expressions, header-name syntax, UTF-8, IPv6 text, base64, JSON, SHA-256 and ECDSA: parameters, with the
  assumptions on UTF-8 and IPv6 text written out in `ProxyText.LibOk` and those on hashes in `Jwt.CollisionFree`.
- VarOverrides.SharedSlotsHold: sufficient only (`SharedSlotsRightIff` is exact); a variable may reach `{path}` through
  an arm that is never taken.
- RateLimit.EvictionInvisible: sufficient only (`SweepInvisibleIff` is exact for one collection); an earlier reading may
  still find the collected bucket full.
- Lints for unknown tokens and the wording of error messages: diagnostics only.
- RateLimit.RateLimitRule.CheckAt: reals instead of rounded floating point; the derivation of the key from a request is
  an argument.
- Metrics.Counters.Tick: the `req` column only; the 16-bit columns, memory and CPU averages and per-path lists would add
  easy or saturating variants of the same loops. The counter does not wrap at 64 bits.
- CacheStore.Store.Insert: `bytes` is unbounded; in the source it is at most twice `max_bytes` before eviction, which
  64 bits hold for every budget below 2^63.
- Entry bodies, `Vary`, `Age` and conditional requests (src/cache/entry.rs): only size and freshness matter here.
- LoadBalancer.UpstreamPool.Pick: sequential access only; health checks, ejection and the hash functions are reflected
  only in the upstreams' fields and in the arguments, clock readings and random numbers (one each for either pass) in the
  arguments.
- Calendar.CivilIsRight: days are unbounded; the 64-bit addition of 719468 overflows only for the very last days.
- Jwt.JwtManager.ValidateToken: issuing tokens, cookies and keys are not modelled.
- SingleFlight: what followers do after waking (look up again or fetch) is not modelled.
- Path matching, rewriting and the rest of src/router.rs: direct comparisons that would only add easy members.
