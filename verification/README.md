# A verified model of the gateway's core

The gateway gives every domain a fake address, catches the traffic sent to those addresses with packet-filter
rules, and routes it by rules over domains and addresses. This project models that core in Dafny and proves what
its parts promise. Three kinds of model are used: classes whose methods follow the source's in-place updates,
specification functions those methods are proved against, and step systems for the parts where several threads
interleave, with one step for each critical section.

| files | what they model |
|---|---|
| `Net`, `Masks`, `Shards`, `Names`, `Basics` | addresses and prefixes, byte masks, shard hashes, names and labels |
| `Cursor`, `FakeIPPool`, `FakeIPRestart`, `FakeIPOps` | the FakeIP allocator, its maps, its expiry sweep, its file, and sequential runs of its operations |
| `FakeIPProtocol`, `FakeIPRuns` | concurrent FakeIP requests, sweeps, clears and lookups, from whatever a file restored |
| `Router`, `SuffixRules`, `RuleEngine`, `RuleChanges`, `AdBlock` | the two suffix matchers, the rule compiler, changes of a rule list |
| `Nftables` | the generated packet-filter programs and the machine that executes them |
| `UdpGateway`, `UdpSessions` | the UDP session table, sequentially and with all its threads |
| `Resolver`, `ResolverRuns` | the resolver cache, sequentially and with concurrent lookups, flights and cleaner |
| `Analytics` | the hourly buckets |

## Where the code does less than it seems to promise

Each of these is a property that fails, with a concrete or general case in which it does, and the condition under
which it holds.

- A subnet whose configured address is its last one has no usable address, and the allocator hands out an address
  outside it (`Cursor.StepOutside`); a pass of the loop stays inside exactly when `Cursor.StepStaysInsideIff` says.
- The expiry sweep deletes a domain from the host shard numbered like the address's shard. It keeps the two maps in
  agreement if and only if every expired record's domain hashes to the shard of one of its addresses
  (`FakeIPPool.SweepKeepsAgreementIff`). By parity alone at least half of all pairs of a domain and an address do not
  (`FakeIPRestart.OddAndEvenMisaligned`), and the domain entry then stays while its addresses are gone. A sequential
  run keeps the maps in agreement exactly when each of its sweeps meets the condition (`FakeIPOps.AgreesIffAligned`).
- Such a stale domain entry is answered from later, when its address may already be another domain's
  (`FakeIPRuns.StaleHit`, which `FakeIPRuns.StaleHitExample` shows for 198.18.1.2/31). Exactly: an address that a
  record lists is looked up to that record if and only if it neither waits to be entered nor has been lost, and two
  domains share an address only if one of them has lost it (`FakeIPProtocol.Safety`). A hit is sound exactly when every
  address of the record is in the address map under that record (`FakeIPProtocol.HitGuard`); once it is, only a clear
  or a sweep that finds the record expired takes it out (`FakeIPProtocol.LostOnlyByRemoval`).
- The same condition covers a request answered with a record whose address entries are still being made
  (`FakeIPRuns.HitBeforeEntries`).
- If a subnet's cursor goes all the way round while an address waits to be entered, a second record holds that address,
  and in no other case: a run is timely throughout if and only if at no state of it two records hold one address
  (`FakeIPRuns.TimelyIffUnique`). `FakeIPRuns.LateEntryShares` is a run with two domains. While nothing is removed, an
  address to spare in each subnet is enough to rule it out (`FakeIPRuns.CapacityKeepsTimely`).
- The blocklist and a router loaded with the same entries can disagree: the router trims one more trailing dot and skips
  the empty entry, and its walk never visits an empty first label of the queried name. `AdBlock.AgreesWithRouterIff` is
  the exact condition, `AdBlock.LeadingDotDiffers` a case; they agree when no entry is trimmed and the name has no leading
  dot (`AdBlock.AgreeOnNames`), and `AdBlock.LineEntryPlainIff` says which entries of a file are not trimmed.
- A prefix with host bits set makes rules that never fire (`Nftables.OutputRuleExact` with `Nftables.FiresIffContains`).
- The slow path of a UDP packet may write to a session that is already closed (`UdpSessions.SlowWriteMayFindClosed`):
  exactly when the session's listener has ended it, the sweeper found it idle for too long, or another handler's write on
  it failed (`UdpSessions.SlowWriteFindsClosedIff`).
- Of two UDP sessions created at once for a key, the end of one takes the other out of the table
  (`UdpSessions.RacingCreators`); `UdpSessions.CleanupUnlistsAnotherIff` and `UdpSessions.FailedWriteUnlistsAnotherIff`
  say exactly when.
- The resolver's cleaner can be noticed by a lookup that read the clock before the cleaner did and loads the cache after
  it (`ResolverRuns.EarlyReadingNoticesCleaner`), and can delete an entry stored between its check and its deletion
  (`ResolverRuns.CleanerDropsFreshEntry`). Over a whole run it is noticed exactly when some load or count is for an entry
  that it deleted and that the clock reading still allows (`ResolverRuns.CleanerUnobservedIff`).

## Model

| member | source | states |
|---|---|---|
| Net.ContainsIsInterval | fakeip.go:109 | membership in a prefix, host bits or not, is lying between two numbers that stay inside the address space |
| Cursor.StepFromCursor | fakeip.go:108-116 | one pass of the loop from any cursor inside the subnet reaches the first position after it on the line of visits |
| Cursor.StepFromVisit | fakeip.go:108-116 | every further pass moves one position on, through the wrap at the subnet's last address and at the end of the address space |
| Cursor.VisitInside | fakeip.go:104-129 | every visit is inside the subnet, unmapped, and never the configured address |
| Cursor.WindowDistinct | fakeip.go:104-129 | fewer than Size passes apart, two visits differ |
| Cursor.VisitsCoincideIff | fakeip.go:104-129 | two visits are to one address exactly when they are a multiple of Size passes apart |
| Cursor.WindowCovers | fakeip.go:104-129 | Size consecutive passes visit every usable address |
| Cursor.FullSweep | fakeip.go:104-129 | between two visits to the same address every usable address is visited |
| Cursor.SomeFree | fakeip.go:124 | pigeonhole: with fewer taken usable addresses than Size, a usable one is free |
| Cursor.StopsIffFree | fakeip.go:107-127 | from any cursor in the subnet the loop ever finds a free address exactly when one is still to come below the configured address or fewer than Size usable addresses are taken |
| Cursor.StepStaysInsideIff | fakeip.go:108-116 | the exact condition for a pass to stay inside the subnet |
| Cursor.StepOutside | fakeip.go:108-116 | a subnet configured with its last address makes the loop leave it, for the address after |
| Shards.HostPut | fakeip.go:163-164 | storing a domain in the shard its hash selects is storing it in the union of the shards |
| Shards.IpPut | fakeip.go:200-203 | the same for an address |
| Shards.SumIsCount | fakeip.go:212-219 | the sizes of the host shards add up to the number of distinct domains |
| FakeIPPool.LookupInverse | fakeip.go:244-261 | in agreeing maps, an address looks up to d exactly when d's record lists it, and no other domain lists it |
| FakeIPPool.Pool.Advance | fakeip.go:108-116 | the branches of one pass compute the next visit |
| FakeIPPool.Pool.NextForSubnet | fakeip.go:104-129 | whenever a free address is still to come the loop ends, and returns the first one after the cursor in cyclic order |
| FakeIPPool.Pool.NextV4ForSubnet | fakeip.go:104-129 | the same for an IPv4 subnet, whatever the others hold; only that subnet's cursor moves, to the address returned |
| FakeIPPool.Pool.NextV6ForSubnet | fakeip.go:131-156 | the same for an IPv6 subnet |
| FakeIPPool.Pool.Allocate | fakeip.go:178-186 | one address per subnet, IPv4 first, each the first free one of its subnet |
| FakeIPPool.Pool.GetFakeIP | fakeip.go:158-210 | a known domain gets its record's addresses and is renewed, nothing else changing; a new one gets the first free addresses and both maps gain exactly its entries; sharding and agreement are kept |
| FakeIPPool.Pool.GetFakeIPv4 | fakeip.go:222-231 | does to the pool what GetFakeIP does, and answers with the IPv4 addresses of the record in order |
| FakeIPPool.Pool.GetFakeIPv6 | fakeip.go:233-242 | the same for IPv6 |
| FakeIPPool.VersionsPartition | fakeip.go:222-242 | the two answers together are the record's addresses, each once |
| FakeIPPool.Pool.LookUpAddr | fakeip.go:244-261 | finds the record of the unmapped address in the union of the shards, renews that record and no other |
| FakeIPPool.Pool.UpdateMetricsTotal | fakeip.go:212-220 | the gauge is the number of distinct domains |
| FakeIPPool.AgreeInsert | fakeip.go:194-205 | entering a record of new addresses for a new domain keeps the two maps in agreement |
| FakeIPPool.Pool.SweepShard | fakeip.go:299-305 | one address shard keeps exactly its unexpired entries and reports exactly the domains of the others |
| FakeIPPool.Pool.CleanExpired | fakeip.go:290-321 | the whole sweep: addresses of expired records go, and a domain goes when an expired address of the domain's own shard number reports it; every entry still sits in the shard of its hash |
| FakeIPPool.SweepKeepsAgreementIff | fakeip.go:308-314 | the sweep keeps agreement if and only if each expired record's domain shares a shard number with one of its addresses; otherwise the domain stays without addresses |
| FakeIPPool.RehashedSweepKeepsAgreement | fakeip.go:308-314 | a sweep that rehashes the domain always keeps agreement |
| FakeIPPool.Pool.SaveToFileIfDirty | fakeip.go:323-359 | a dirty pool saves both cursors and every record, a clean one nothing |
| FakeIPPool.Pool.Close | fakeip.go:436-439 | closing saves in any case |
| FakeIPPool.Pool.Clear | fakeip.go:441-458 | empties both maps, keeps the cursors, saves an empty record list |
| FakeIPPool.Pool.KeepInPrefix | fakeip.go:395-416 | exactly the saved addresses, unmapped, that lie in a configured subnet, in order |
| FakeIPPool.Pool.RestoreCursors | fakeip.go:373-387 | a saved cursor is taken over exactly when the number of subnets is unchanged and its subnet contains it |
| FakeIPPool.Pool.constructor | fakeip.go:79-102 | for any subnets, usable or not, a new pool holds exactly the surviving saved records in both maps; if the saved records agree, so do the maps |
| FakeIPPool.Pool.LoadRecords | fakeip.go:388-434 | loading in any order yields exactly the unexpired records with an address in a subnet |
| FakeIPPool.LoadedAgrees | fakeip.go:388-434 | whatever the order, and whatever the subnets now are, loaded maps agree |
| FakeIPRestart.SnapshotAgrees | fakeip.go:328-335 | agreeing maps are saved as records that share no address |
| FakeIPRestart.RoundTrip | fakeip.go:388-434 | save then load with the same subnets gives back exactly the unexpired records in both maps |
| FakeIPRestart.Reopen | fakeip.go:361-434 | the same for whole pools, cursors included |
| FakeIPRestart.FnvParity | fakeip.go:58-66 | the parity of a hash is that of the bytes' sum plus one |
| FakeIPRestart.OddAndEvenMisaligned | fakeip.go:68-77 | a domain and an address of different byte parity hash to different shards |
| FakeIPRestart.SweepBreaks | fakeip.go:308-314 | so the sweep breaks agreement on every such record |
| FakeIPRestart.SweepBreaksExample | fakeip.go:308-314 | domain "a" with 198.18.0.2 is one |
| FakeIPOps.Perform | fakeip.go:158-458 | what a get, lookup, sweep, save, restart or clear does to both maps, the expiry times and the cursors, from any state |
| FakeIPOps.StepAgrees | fakeip.go:158-458 | a get, lookup, save, restart or clear keeps the maps in agreement; a sweep does exactly when every expired record is aligned |
| FakeIPOps.AgreesIffAligned | fakeip.go:158-458 | in every run of the operations, in any order, from agreeing maps, the maps agree at every state if and only if every sweep found all expired records aligned |
| FakeIPOps.RunAll | fakeip.go:158-458 | a pool, new or restored, put through any operations goes through such a run: the trace of what it held, each step as the operation says, ends with what it holds |
| FakeIPProtocol.PendingDistinct | fakeip.go:178-205 | two addresses handed out and not yet entered differ while the cursors are timely |
| FakeIPProtocol.EnterIpKeeps | fakeip.go:198-205 | entering an address never overwrites another record's entry |
| FakeIPProtocol.StepKeeps | fakeip.go:158-210 | every step of every request, sweep, clear or lookup keeps the invariant |
| FakeIPProtocol.LostOnlyByRemoval | fakeip.go:290-321 | a step takes an address from its record's lookup exactly when it clears its shard, or sweeps it and the record had expired when the sweep read the clock |
| FakeIPProtocol.HitGuard | fakeip.go:166-174 | the addresses a hit answers with can all be looked up to its record exactly when nothing of the record waits or has been lost |
| FakeIPProtocol.Safety | fakeip.go:158-210 | in every timely interleaving, from any restored pool: no address is held by two records; an address a record lists, and so every answered one, is looked up to it exactly when it is entered and not lost; two domains share no address that neither has lost; answers are of the domain's own record |
| FakeIPRuns.FullSweepBetween | fakeip.go:104-129 | in every interleaving from any restored pool, clears included, between two visits to an address every other usable address is handed out or found occupied |
| FakeIPRuns.SameVisitIff | fakeip.go:104-129 | in every interleaving from any restored pool, timely or not, two visits of a subnet are to one address exactly when a multiple of Size apart |
| FakeIPRuns.TimelyIffUnique | fakeip.go:178-205 | a run from any restored pool is timely throughout if and only if at no state of it two records hold one address |
| FakeIPRuns.CapacityKeepsTimely | fakeip.go:178-205 | a run in which nothing is removed and each subnet always has a usable address that nobody holds is timely throughout, and no two records ever hold one address |
| FakeIPRuns.OverrunIsFull | fakeip.go:107-127 | while nothing has been removed, a cursor overruns only when every usable address of its subnet is held |
| FakeIPRuns.UntimelyShares | fakeip.go:108-127 | the step that makes a cursor untimely hands out the very address that has waited too long |
| FakeIPRuns.LateEntryShares | fakeip.go:178-205 | a run in which two domains come to hold one address |
| FakeIPRuns.StaleHit | fakeip.go:166-174 | a timely run in which an expired and swept domain is answered with an address that is now another domain's |
| FakeIPRuns.StaleHitExample | fakeip.go:308-314 | a subnet in which that happens |
| FakeIPRuns.HitBeforeEntries | fakeip.go:166-205 | a second request for a domain can be answered while no address entry exists |
| Names.SplitIsPath | router.go:28-31 | the labels of a split name, from the right, are the ones its last dots cut off |
| Names.WalkIsPath | router.go:58-68 | the indexed walk visits those labels, except an empty first one |
| Names.WalkPrefixIffCovers | router.go:58-78 | the path of a rule is a prefix of the walk of a name exactly when the rule equals the name or follows a dot at its end, an empty first label of the name apart |
| Names.PathInjective | router.go:28-40 | different names have different paths |
| Router.DomainRouter.AddRule | router.go:21-43 | the heap trie becomes the one of the list with this entry added; names blank after trimming add nothing |
| Router.DomainRouter.MatchNode | router.go:46-81 | the walk returns the node of the longest prefix of the labels whose last entry has an upstream, or none |
| SuffixRules.ScanIsLongest | router.go:46-81 | the naive scan finds the longest rule that covers the name, is the last for its domain and has an upstream |
| SuffixRules.BestPrefixIsLongest | router.go:70-77 | the trie's answer has the longest path among the entries that apply |
| SuffixRules.TrieIsNaive | router.go:21-81 | the trie and the naive scan of the rule list agree on every list and every name |
| RuleEngine.Engine.constructor | rule_engine.go:36-103 | the compiled engine is the trie of the suffix rules and the items of the others, in list order |
| RuleEngine.Engine.AddConfig | rule_engine.go:41-99 | one more entry compiles to its suffix rules and items |
| RuleEngine.Engine.AddDomains | rule_engine.go:44-50 | an entry with domains and no type compiles to one suffix rule per domain, in order |
| RuleEngine.Engine.Match | rule_engine.go:105-152 | the compiled engine's answer is the direct interpreter's: longest suffix rule, else first other entry that applies, else the default |
| RuleEngine.ItemMeans | rule_engine.go:52-97 | the item an entry compiles to applies exactly when the entry does |
| RuleEngine.ItemsMean | rule_engine.go:120-148 | the first item that applies is the first entry that applies, for every list |
| RuleChanges.AppendAfterMatch | rule_subscription.go:88-89 | rules appended to a list with a MATCH entry change the answer only for domains an appended suffix rule covers |
| RuleChanges.AppendUncovering | rule_subscription.go:88-89 | appended suffix rules that do not cover a name leave its winner alone |
| RuleChanges.Interleaving | rule_engine.go:36-152 | how suffix entries and others are interleaved changes no answer |
| RuleChanges.Reordering | rule_engine.go:36-152 | the order of suffix rules over distinct domains changes no answer |
| RuleChanges.LeadingDotCoversNoName | router.go:28-40 | a rule with a leading dot covers only names with two dots in a row |
| AdBlock.AdBlocker.LoadLines | adblock.go:56-83 | the blocklist becomes exactly the entries of the lines, normalised |
| AdBlock.AdBlocker.IsBlocked | adblock.go:116-141 | true exactly when the normalised name is an entry or ends with a dot and an entry |
| AdBlock.ListedAt | adblock.go:129-138 | the places where the loop looks are the start of the name and those after a dot |
| AdBlock.RouterBlocks | router.go:46-81 | a trie of the entries blocks a name exactly when a non-empty entry follows a dot at its end, or is the name and the name has no leading dot |
| AdBlock.RulesAgreeIff | adblock.go:116-141 | the exact condition on a name for the blocklist and a trie of the entries as they stand to decide alike |
| AdBlock.AgreesWithRouterIff | adblock.go:116-141 | the exact condition on a name for the blocklist and a router to which the same entries were added to decide alike |
| AdBlock.LineEntryPlainIff | adblock.go:66-80 | an entry of a file is added to a router as it is exactly when it is not empty and has no trailing dot |
| AdBlock.AgreeOnNames | adblock.go:116-141 | when the router takes every entry as it is they decide alike on every name without a leading dot |
| AdBlock.LeadingDotDiffers | adblock.go:125-127 | on a queried name with a leading dot that is itself an entry they differ |
| Masks.MaskedNum | netlink_route.go:225-231 | and-ing bytes with a prefix mask of any length rounds the number down to the block |
| Masks.NumBytes | netlink_route.go:410-420 | the big-endian bytes of a number stand for that number |
| Masks.NumInjective | netlink_route.go:232-236 | byte strings of one length that stand for the same number are equal |
| Nftables.CompareIsContains | netlink_route.go:219-236 | masking and comparing is: zero host bits, and the prefix contains the field |
| Nftables.FiresIffContains | netlink_route.go:219-236 | on a packet of the rule's own family, firing is: zero host bits, and the prefix contains the destination |
| Nftables.PacketMarked | netlink_route.go:237-245 | in either byte order, the mark becomes Fwmark modulo 2^32 |
| Nftables.PacketRedirected | netlink_route.go:246-259 | the redirection finds the family's loopback address in register 1 and the big-endian port in register 2 |
| Nftables.OutputRuleExact | netlink_route.go:267-302 | an output rule accepts and leaves Fwmark exactly on the packets it fires for; else it breaks and touches nothing |
| Nftables.PreroutingRuleExact | netlink_route.go:215-264 | the same for a prerouting rule, with the redirection and the registers |
| Nftables.OutputChainExact | netlink_route.go:204-396 | a packet leaves the output chain marked exactly when some rule fires, whatever the order and families |
| Nftables.PreroutingChainExact | netlink_route.go:204-396 | the first rule that fires decides the redirection; with none the packet is untouched |
| Nftables.BuildChains | netlink_route.go:204-396 | both chains get one rule for each readable subnet, in order |
| Nftables.ParseCidrs | config.go:177-196 | the pool's subnets are the configured ones by family, in order; an unreadable one, or none, is an error |
| Nftables.MemberIsMarked | netlink_route.go:267-302 | with host-bit-free subnets a packet to any address of one leaves marked |
| Nftables.AllocatedIsMarked | fakeip.go:178-186 | every address the allocator hands out is marked on its way out |
| Nftables.PoolIsMarked | fakeip.go:198-205 | and so is every address the pool has a record for |
| UdpGateway.Gateway.FastPath | tproxy.go:468-480 | a packet of a known key is written to that key's open session and to no other, and renews it |
| UdpGateway.Gateway.HandleUdp | tproxy.go:507-625 | a packet is written to the key's session, stored first if new; a failed write ends it; the gauge is the table's size |
| UdpGateway.Gateway.Listen | tproxy.go:627-650 | all replies reach the client in order, then the key is dropped and the session closed |
| UdpGateway.Gateway.Sweep | tproxy.go:662-677 | exactly the sessions idle for more than three minutes are dropped and closed |
| UdpSessions.StepKeeps | tproxy.go:468-677 | every step of fast path, handlers, listeners and sweeper keeps the invariant |
| UdpSessions.TableIsOpen | tproxy.go:605-677 | whenever the write lock is free, no session in the table is closed or past its listener's cleanup, and the gauge is the table's size |
| UdpSessions.FastWriteIsSafe | tproxy.go:468-480 | in every interleaving the fast path writes only to a listed session the gateway has not closed |
| UdpSessions.SlowWriteIsSafeWhileListed | tproxy.go:614-615 | a handler's write finds its session open as long as it is still listed |
| UdpSessions.SlowWriteMayFindClosed | tproxy.go:515-615 | otherwise it may not |
| UdpSessions.SlowWriteFindsClosedIff | tproxy.go:614-680 | a handler's write finds its session closed exactly when its listener has ended it, the sweeper found it idle for over three minutes, or another handler's write on it failed |
| UdpSessions.CleanupUnlistsAnotherIff | tproxy.go:627-635 | a listener's cleanup unlists another session exactly when that one has taken over the key |
| UdpSessions.FailedWriteUnlistsAnotherIff | tproxy.go:616-621 | and so does a handler whose write failed |
| UdpSessions.RacingCreators | tproxy.go:605-631 | two creators of one key: an open session with a listener ends up outside the table |
| UdpSessions.NobodyLeaks | tproxy.go:599-635 | a session not fully closed has a handler that will spawn its listener, or a listener that will close it |
| UdpSessions.QuiescentIsClean | tproxy.go:599-635 | once all handlers and listeners are done, every connection is closed and the table is empty |
| Resolver.ReadReply | resolver.go:182-201 | the addresses of the type asked for, in order, and the least of 300 and their positive TTLs |
| Resolver.Cache.RawQuery | resolver.go:204-257 | stores IPv6 before IPv4 addresses with lifetime max(60, min(300, all positive TTLs)) and ten more minutes stale, or fails and stores nothing |
| Resolver.LifetimeUnique | resolver.go:235-246 | that lifetime is determined by the replies |
| Resolver.Cache.LookupIp | resolver.go:103-133 | who answers: the literal, the block, the fresh or stale entry, or a flight; and what is stored after |
| Resolver.Cache.Clean | resolver.go:262-272 | drops exactly the entries strictly past their stale time |
| Resolver.Cache.Clear | resolver.go:325-328 | drops every entry |
| Resolver.Cache.Count | resolver.go:336-346 | the number of entries that can still be answered from |
| ResolverRuns.CacheAnswers | resolver.go:113-128 | in every interleaving a cache answer at `now` is what a flight for that domain brought at t, with now - t < lifetime + 600 |
| ResolverRuns.FlightAnswers | resolver.go:131-151 | any other answer is what a flight for that domain brought |
| ResolverRuns.SingleFlight | resolver.go:135-138 | at most one flight per domain is under way |
| ResolverRuns.CleanerUnobservable | resolver.go:259-277 | a run with the cleaner and the same run without it have the same lookups, answers, flights and counts, provided each lookup reads the clock after the cleaner and each deleted entry is still stale |
| ResolverRuns.AtomicIsGentle | resolver.go:113-128 | reading the clock with the load, and checking with the deletion, meets those conditions |
| ResolverRuns.LoadTellsApartIff | resolver.go:115-128 | with any entries deleted, a load differs exactly when the cleaner dropped an entry the lookup's clock reading still allows |
| ResolverRuns.CountTellsApartIff | resolver.go:336-346 | a count differs exactly when a dropped entry is not yet past its stale time |
| ResolverRuns.DeletionTellsApartIff | resolver.go:265-270 | when one deletion changes a later load or count, whether checked in time or not |
| ResolverRuns.CleanerUnobservedIff | resolver.go:259-277 | over a whole run all lookups, answers and counts are those of the run without the cleaner if and only if no load or count is for an entry the cleaner dropped and the clock reading still allows |
| ResolverRuns.EarlyReadingNoticesCleaner | resolver.go:113-128 | that happens |
| ResolverRuns.CleanerDropsFreshEntry | resolver.go:265-270 | and so does the deletion of a fresh entry |
| Analytics.TopAdd | analytics.go:125-140 | dropping all but the 720 greatest of the kept keys and a new one keeps the 720 greatest of all keys ever seen |
| Analytics.TopUnique | analytics.go:125-140 | the greatest k keys of a set are one set |
| Analytics.AnalyticsStore.PruneOldBuckets | analytics.go:125-140 | keeps exactly the buckets of the greatest keys, as they are |
| Analytics.AnalyticsStore.RecordDnsQuery | analytics.go:64-85 | keeps buckets and domain counts exact for the queries with a name, and ignores one without |
| Analytics.AnalyticsStore.RecordTcpConn | analytics.go:87-104 | the same for TCP connections |
| Analytics.AnalyticsStore.RecordUdpConn | analytics.go:106-123 | the same for UDP |
| Analytics.AnalyticsStore.Clear | analytics.go:178-186 | starts again from no events |
| Analytics.RecordAll | analytics.go:64-140 | after any events in any order of hours, nameless queries included, the buckets are those of the 720 greatest hours seen, with exact counts, and every name has its exact count |

## Left out

- FakeIPPool.Pool.GetFakeIP: requires that each subnet's cursor has a free address to come to for a new domain, because the source's loop never returns without one (`Cursor.StopsIffFree`), and so leaves out a subnet whose configured address is its last (`Cursor.StepOutside`); the query count it also records is in `Analytics`.
- FakeIPPool.Pool.constructor: leaves out subnets that hold IPv4-mapped IPv6 addresses.
- FakeIPProtocol.Safety: assumes disjoint subnets with an address after the configured one; the assumption that the cursors are timely is exact (`FakeIPRuns.TimelyIffUnique`).
- FakeIPRestart.Reopen: the file's text form is taken to give back what was saved.
- Nftables.PreroutingChainExact: says which rule decides for any packet, but a rule of one family may fire on bytes of a packet of the other; exactness against the destination is stated per family.
- Nftables.BuildChains: the prefix parser and the port number are parameters.
- RuleEngine.Engine.Match: the prefix parser and the default upstream are parameters; the case of no engine at all is left out.
- AdBlock.AdBlocker.LoadLines: reading files and downloading lists is left out, both feed the same lines.
- FakeIPOps.RunAll: a get for which no address is left never returns in the source; in a run it is a step that changes nothing.
- UdpSessions.StepKeeps: updates of the last-active time are single steps; dialling, rejection and write errors are free choices of the environment.
- UdpGateway.Gateway.HandleUdp: one handler at a time; interleavings are in `UdpSessions`.
- ResolverRuns.CacheAnswers: a count reads the clock and the whole cache in one step, and clearing deletes keys one by one at any time.
- Resolver.Cache.LookupIp: what the two queries bring back, the literal address and the blocklist's verdict are parameters.
- Analytics.RecordAll: hours are ordered numbers instead of formatted times; loading a saved file and the sorted summary are left out.
- Names and lines are ASCII: lower-casing and white space follow the ASCII subset of the source's Unicode functions.
- Sockets, DNS, DoH, SOCKS5 and HTTP exchanges, retries and byte relays.
- JSON and YAML text, file writes and renames.
- Policy routes, sysctl, the transparent-proxy socket lookup and the netlink calls that install or remove the rules.
- The web interface, dashboard, certificates, authentication, metrics text and logging.
- The health checker, the connection tracker, the SOCKS address parser and the HTTP header rewriter.
