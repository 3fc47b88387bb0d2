# Verification of the NetSentry edge sensor

A Dafny 4.11 model of the sensor's edge services, with proofs. `dafny verify dfyconfig.toml` checks all of it.

The system keeps one fact, "this address is blocked until T", in several places at once, and most of the
results are about those places agreeing:

* **Kernel rules** (`Iptables`, `BlockRules`, `KernelTheorems`): named chains, the four commands issued against
  them, first-match evaluation, and the three loops that add and delete the rules of one address. Every command
  may be hit by a fault of the environment: it can exit non-zero for an unrelated reason or fail to start.
* **The network filter** (`FilterModel`, `FilterService`, `BlockStore`): classes with the cache, the kernel table
  and the stored records as fields; each method is proved equal to a function on its state.
* **Whole runs** (`Enforcement`, `Refinement`, `Recovery`, `RecordStack`, `Lifecycle`): block and unblock requests,
  packet look-ups, the two phases of the sweep, crashes and the replay of stored records, in any order, with
  arbitrary faults and store failures. History variables record what the properties are conditional on.
* **Rule engine** (`RuleParser`, `RuleFile`, `RuleMatcher`): the line parser, insert-or-replace by SID and removal
  by address on the text of the file, and the in-memory set as an index of that file.
* **Collector** (`Collector`, `CollectorModels`): batching and counters under interleaving, the connection monitor
  and the command log.
* **Smaller parts**: `Ipv4` (normalisation of addresses), `Forwarder` and `PacketCache` (the SPAN-mode block map and
  the cache synchronised from it), `Retry` (exponential backoff).

Time is one non-decreasing clock in nanoseconds; stored dates are cut to milliseconds and durations to whole
seconds where the program does so. Each handler reads the clock once.

## Findings

Behaviours that hold only conditionally, each with its exact condition and a failing input.

* The comment on `apply_rule` says it is idempotent. On the file it is exactly when the rule carries a SID and
  occupies one line, and no line of the file but the replaced one keeps a carriage return at its end
  (`RuleFile.ApplyIdempotentIff`). A rule without a SID, a rule with a newline in its message and a file with a doubled
  carriage return all fail (`RuleFile.TwoLineRuleIsAppendedAgain`, `RuleFile.StrayCarriageReturnIsLost`).
* A block that succeeds between the two phases of a sweep that already collected its address is lost from the cache
  and, where its rules were unique, from the kernel (`Refinement.BlockDuringSweepIsLost`). A fresh process can get
  there if the kernel has the built-in chains and at most one copy of the address's rules (`Refinement.LosingRun`).
  The fast path answers what the log of successful operations says, at every moment of a run, exactly when no sweep in
  it drops an entry of that address that has not run out (`Refinement.FastPathRefinesLog`, for one step
  `Refinement.SweepHarmlessIff`). The forwarder's cleanup behaves alike (`Forwarder.CleanupInvisibleIff`).
* Lazy eviction drops the cache entry and leaves the rules; if the sweep has not collected the address by then, nothing
  the process does by itself ever removes them (`Enforcement.EvictionLeavesRules`, `Enforcement.StrayRulesStay`).
* The active records of an address form a stack exactly while each unblock takes a record with only copies of itself
  above (`RecordStack.AlwaysAStackIff`). Whatever the store picks among equal dates, that is so for one unblock exactly
  when the stack is settled (`BlockStore.NewestIsTop`). Two blocks recorded in one millisecond can break it
  (`RecordStack.TieMayPopTheLower`).
* "At least as many unblocks as blocks" does not keep an address unblocked across restarts; the condition is needed of
  every final stretch of the run (`RecordStack.UnblockingSticksIff`). An unblock followed by a block shows it, restart
  included (`RecordStack.UnblocksAreNotSavedUp`, `RecordStack.BlockedDespiteEqualTotals`).
* After a restart every block that should be there is there, but how long it stays depends on the cursor's order: the
  last unexpired record wins (`Recovery.ReplayLeavesLast`), so every record is honoured exactly when that one lives
  longest (`Recovery.EveryRecordHonouredIff`, `Recovery.ShorterRecordLastWins`).
* "At most one copy" is lost exactly when the loop reaches a rule that is present, its `-C` fails for another reason
  than absence and the addition works (`KernelTheorems.BlockKeepsAtMostOnceIff`, over runs
  `Enforcement.AlwaysUniqueIff`).
* "A blocked address is dropped on DOCKER-USER" fails exactly when the administrator had written the same rule behind
  one that may accept (`KernelTheorems.BlockCutsOffIff`, `KernelTheorems.HandWrittenRuleDefeatsInsertion`).
* `shortest_downtime` also counts outages still in progress, so it can be far below every completed outage
  (`CollectorModels.OngoingOutageUnderstates`). It is the shortest completed one exactly when no failing check found a
  shorter, positive one in progress (`CollectorModels.ShortestIsOutageIff`).

## Model

| member | source | states |
|---|---|---|
| BlockRules.SpecsAreTheManagedRules | src/services/edge/network-filter/src/lib.rs:690-762 | the six rules wanted for an address are exactly the rules of the managed shapes for it, chain by chain |
| BlockRules.StripKeepsVerdict | src/services/edge/network-filter/src/lib.rs:690-762 | striking out rules managed for addresses a packet does not involve never changes its verdict |
| KernelTheorems.SuccessfulBlockEnforces | src/services/edge/network-filter/src/lib.rs:410-439 | when the add loop reports success, all four INPUT/OUTPUT/FORWARD rules are present, and both DOCKER-USER rules if that chain exists, whatever faults occurred |
| KernelTheorems.BlockKeepsAtMostOnceIff | src/services/edge/network-filter/src/lib.rs:414-424 | after the add loop every rule is there at most once exactly when it was before and no reached, present rule had its check fail and its addition work |
| KernelTheorems.PresentRuleIsDuplicatedIff | src/services/edge/network-filter/src/lib.rs:414-438 | a rule that is present gains one copy under exactly those faults and keeps its count under all others |
| KernelTheorems.BlockKeepsAtMostOnce | src/services/edge/network-filter/src/lib.rs:414-424 | check-then-add never makes a second copy while checks fail only for absence |
| KernelTheorems.BlockSucceedsIff | src/services/edge/network-filter/src/lib.rs:410-439 | the add loop reports success exactly when every rule is seen to be there or added, DOCKER-USER alone being allowed to be missing |
| KernelTheorems.DishonestCheckDuplicates | src/services/edge/network-filter/src/lib.rs:416-423 | blocking again an address whose first rule is present, with a first check that fails, adds a second copy |
| KernelTheorems.SuccessfulUnblockRemovesAll | src/services/edge/network-filter/src/lib.rs:636-658 | a removal that reports success leaves no rule of the address exactly when each was there at most once |
| KernelTheorems.UnblockSucceedsIff | src/services/edge/network-filter/src/lib.rs:636-658 | a removal succeeds exactly when no command faults, and each rule loses one copy exactly up to the first fault |
| KernelTheorems.ExpiryLeavesExactlyTheFailures | src/services/edge/network-filter/src/lib.rs:542-571 | after the sweep's deletions exactly the rules whose deletion failed are left |
| KernelTheorems.UnblockUndoesBlock | src/services/edge/network-filter/src/lib.rs:615-658 | block then unblock, both successful, gives back every chain rule for rule, if the address had none before, under any faults |
| KernelTheorems.UninvolvedPacketsUnaffected | src/services/edge/network-filter/src/lib.rs:690-762 | two tables that agree outside the managed rules of some addresses give every other packet the same verdict |
| KernelTheorems.DroppedRegardlessIff | src/services/edge/network-filter/src/lib.rs:693-712 | a chain drops a packet whatever its foreign rules mean exactly when a matching drop precedes them all |
| BlockRules.LayeredMeansFront | src/services/edge/network-filter/src/lib.rs:690-712 | on a layered DOCKER-USER only drops stand before the rules of a targeted address |
| KernelTheorems.EnforcedAddressIsCutOff | src/services/edge/network-filter/src/lib.rs:693-712 | packets to or from an enforced address with only drops before its rules are dropped on DOCKER-USER whatever the administrator's rules are |
| KernelTheorems.BlockCutsOffIff | src/services/edge/network-filter/src/lib.rs:410-439 | after a successful block a packet is dropped on DOCKER-USER whatever foreign rules mean exactly when it was before, or it involves the address and the rule for its direction was not yet on the chain or not seen there |
| KernelTheorems.SpecsCatch | src/services/edge/network-filter/src/lib.rs:690-762 | which packets the rules of an address match, chain by chain, by source, destination and interface |
| KernelTheorems.EnforcedAddressNeverReachesPolicy | src/services/edge/network-filter/src/lib.rs:713-760 | packets from the address entering on the interface (INPUT, FORWARD) or to it leaving there (OUTPUT, FORWARD) get the administrator's verdict or, where there is none, a drop |
| KernelTheorems.HandWrittenRuleDefeatsInsertion | src/services/edge/network-filter/src/lib.rs:414-418 | a hand-written copy behind an accepting rule leaves the address accepted after a successful block |
| FilterService.NetworkFilter.ApplyIptablesBlock | src/services/edge/network-filter/src/lib.rs:410-439 | the loop of checks and additions computes the specified table and result, early exits included |
| FilterService.NetworkFilter.RemoveIptablesBlock | src/services/edge/network-filter/src/lib.rs:636-658 | the deletion loop computes the specified table and result, stopping at the first real failure |
| FilterService.NetworkFilter.BlockIpDirect | src/services/edge/network-filter/src/lib.rs:217-256 | rules first, then an entry with the request's reason, level and source for 3600 seconds an hour, and only on success; trust is untouched |
| FilterService.NetworkFilter.RestoreBlockedIp | src/services/edge/network-filter/src/lib.rs:259-288 | expired records are ignored; others live their remaining whole seconds, at least one |
| FilterService.NetworkFilter.UnblockIp | src/services/edge/network-filter/src/lib.rs:615-633 | the cache entry stays when a deletion failed; the counter does not go below zero |
| FilterService.NetworkFilter.ShouldBlockPacket | src/services/edge/network-filter/src/lib.rs:118-166 | Block exactly for an unexpired cache entry, Allow exactly for unexpired trust otherwise, expired entries evicted, rules untouched |
| FilterService.NetworkFilter.IsIpBlocked | src/services/edge/network-filter/src/lib.rs:661-667 | true exactly for an unexpired cache entry |
| FilterService.NetworkFilter.SweepOne | src/services/edge/network-filter/src/lib.rs:474-572 | the rules spelled out in the sweep are those of the shared list, and the entry goes whatever the deletions report |
| FilterService.NetworkFilter.Sweep | src/services/edge/network-filter/src/lib.rs:462-582 | one tick leaves exactly the entries and the trust that have not run out, as they were |
| FilterService.NetworkFilter.RestoreActiveBlocks | src/services/edge/network-filter/src/services/mod.rs:47-86 | the startup loop is the specified replay of the cursor's records, failures skipped |
| FilterService.Controller.BlockIp | src/services/edge/network-filter/src/controllers/mod.rs:77-140 | normalise, block, then append one active record dated to the millisecond of the request and of its end; each error leaves the state the source leaves |
| FilterService.Controller.UnblockIp | src/services/edge/network-filter/src/controllers/mod.rs:142-191 | normalise, unblock, then deactivate the newest active record with the date and reason, only after kernel success |
| FilterService.Controller.UnblockIpByPath | src/services/edge/network-filter/src/controllers/mod.rs:193-238 | the same with the fixed reason |
| FilterModel.SweepChangesNoAnswer | src/services/edge/network-filter/src/lib.rs:467-572 | a sweep done in one go changes no later answer about any address |
| FilterModel.SweepLeavesLive | src/services/edge/network-filter/src/lib.rs:467-572 | a sweep leaves exactly the entries that have not run out |
| FilterModel.RestoredLifetime | src/services/edge/network-filter/src/lib.rs:274-278 | a restored entry lives for the whole seconds left, and for one second when less is left |
| Enforcement.ChainsStayLayered | src/services/edge/network-filter/src/lib.rs:410-439 | over any run DOCKER-USER is (managed drops)(original) and every other chain is (original)(managed drops), if no rule of a targeted address was there at first |
| Enforcement.UntargetedTrafficUnaffected | src/services/edge/network-filter/src/lib.rs:690-762 | over any run, from any table, packets between addresses never targeted keep their verdict on every chain |
| Enforcement.BlockedAddressIsCutOff | src/services/edge/network-filter/src/lib.rs:217-256 | over any run, packets of a mapped address with no failed unblock since are dropped on DOCKER-USER, if only drops stood before any rules of that address at first |
| Enforcement.CachedImpliesEnforced | src/services/edge/network-filter/src/lib.rs:217-288 | over any run from any table under any faults, a mapped address with no failed unblock since its last block has all its rules |
| Enforcement.EnforcedIsAccountedFor | src/services/edge/network-filter/src/lib.rs:136-139 | every rule managed for an address that had none at first belongs to one that is mapped, was evicted, lost in a crash, left by a failure, or got a rule twice |
| Enforcement.StrayRulesStay | src/services/edge/network-filter/src/lib.rs:467-572 | the rules of an address that neither the cache nor a sweep knows stay over every run that does not block, unblock or restore it |
| Enforcement.EvictionLeavesRules | src/services/edge/network-filter/src/lib.rs:136-139 | looking up an enforced address whose block has run out, before a sweep collects it, makes its rules permanent in that sense |
| Enforcement.ManagedRulesStayUnique | src/services/edge/network-filter/src/lib.rs:410-439 | over any run from at most one copy, at most one copy of each managed rule of an address that never got one twice |
| Enforcement.AlwaysUniqueIff | src/services/edge/network-filter/src/lib.rs:410-439 | the rules of an address are unique at every moment of a run exactly when no block or restore in it met the duplicating faults |
| Enforcement.UnblockLeavesNothing | src/services/edge/network-filter/src/lib.rs:615-658 | after any run a successful unblock of such an address leaves none of its rules, and block-unblock restores the table |
| Refinement.FastPathRefinesLog | src/services/edge/network-filter/src/lib.rs:118-166 | over any run from agreement, an address is refused at every moment exactly as its last successful operation says, if and only if no sweep drops an unexpired entry of it |
| Refinement.StartedAgrees | src/services/edge/network-filter/src/lib.rs:97-112 | a fresh process starts in agreement |
| Refinement.QuietIsHarmless | src/services/edge/network-filter/src/lib.rs:467-572 | no sweep does so in a run that attempts no block or restore of the address while a sweep holds it collected |
| Refinement.EvictionChangesNoAnswer | src/services/edge/network-filter/src/lib.rs:136-139 | lazy eviction changes no answer, then or later |
| Refinement.SweepHarmlessIff | src/services/edge/network-filter/src/lib.rs:474-572 | dropping a collected address keeps cache and log in agreement exactly when its entry is expired |
| Refinement.BlockDuringSweepIsLost | src/services/edge/network-filter/src/lib.rs:467-572 | a successful block between the sweep's phases is lost from the cache, and from the kernel if the rules were unique |
| Refinement.LosingRun | src/services/edge/network-filter/src/lib.rs:462-582 | a fresh process on a kernel with the built-in chains and at most one copy of the address's rules has a run that loses a block that way |
| BlockStore.DeactivatedRecord | src/services/edge/network-filter/src/controllers/mod.rs:164-176 | deactivation changes one record, in three fields, dated to the millisecond |
| BlockStore.StackOfDeactivate | src/services/edge/network-filter/src/controllers/mod.rs:163-178 | deactivating a record takes exactly it off the stack of its address |
| BlockStore.NewestIsTop | src/services/edge/network-filter/src/controllers/mod.rs:163-177 | deactivating the newest active record pops the stack for every choice among equal dates exactly when every record that may be picked has only copies of itself above it |
| BlockStore.ChronologicalIsSettled | src/services/edge/network-filter/src/controllers/mod.rs:163-177 | with strictly increasing dates that is so |
| BlockStore.NewestExists | src/services/edge/network-filter/src/controllers/mod.rs:163-177 | while an address has an active record there is a newest one to select |
| Recovery.MappedIsStored | src/services/edge/network-filter/src/controllers/mod.rs:107-133 | over any run, a mapped address whose record was written has an active record expiring at most one second earlier |
| Recovery.ReplayLeavesLast | src/services/edge/network-filter/src/services/mod.rs:59-84 | the replay leaves for an address exactly the entry of its last unexpired record, with that record's dates, reason, level and source, in any cursor order and whatever befalls the records of others |
| Recovery.FailedRecordIsSkipped | src/services/edge/network-filter/src/services/mod.rs:71-83 | a record whose commands cannot be started is skipped and the loop goes on |
| Recovery.BlockedAfterRestartIff | src/services/edge/network-filter/src/services/mod.rs:56-84 | after a restart an address is blocked exactly when some record on its stack is unexpired |
| Recovery.CrashRecoveryLosesNoBlock | src/services/edge/network-filter/src/services/mod.rs:47-86 | after any run, crash and replay, an address with over a second left is blocked and enforced again, in any cursor order and whatever befalls the records of others |
| Recovery.EveryRecordHonouredIff | src/services/edge/network-filter/src/services/mod.rs:56-84 | the replay blocks the address for as long as every one of its records asks exactly when the last unexpired record lives longest |
| Recovery.ShorterRecordLastWins | src/services/edge/network-filter/src/services/mod.rs:56-84 | the restored duration depends on which record the cursor returns last |
| RecordStack.RunDepth | src/services/edge/network-filter/src/controllers/mod.rs:107-184 | over any run the number of active records of an address follows push on block and pop on unblock, ties included |
| RecordStack.DepthIsLargestFinalExcess | src/services/edge/network-filter/src/controllers/mod.rs:107-184 | from empty, that number is the largest excess of blocks over unblocks in a final stretch of the run |
| RecordStack.UnblockingSticksIff | src/services/edge/network-filter/src/controllers/mod.rs:158-184 | an address has no active record exactly when every final stretch has at least as many unblocks as blocks |
| RecordStack.UnblocksAreNotSavedUp | src/services/edge/network-filter/src/controllers/mod.rs:158-184 | equal totals do not suffice: a faultless unblock followed by a faultless block leaves that block's record |
| RecordStack.BlockedDespiteEqualTotals | src/services/edge/network-filter/src/services/mod.rs:56-84 | and a restart before it runs out blocks the address |
| RecordStack.NoRecordNoBlock | src/services/edge/network-filter/src/services/mod.rs:56-84 | an address without active records stays unblocked through any restart, under any faults |
| RecordStack.AlwaysAStackIff | src/services/edge/network-filter/src/controllers/mod.rs:107-225 | over any run the active records follow push and pop at every moment exactly when each unblock took a record with only copies of itself above |
| RecordStack.RecordsFormAStack | src/services/edge/network-filter/src/controllers/mod.rs:107-225 | they do, whatever the store picks, if every unblock meets a settled stack |
| RecordStack.SpacedIsSettled | src/services/edge/network-filter/src/controllers/mod.rs:107-225 | every unblock does if no two blocks of the address are recorded in one millisecond |
| RecordStack.TieMayPopTheLower | src/services/edge/network-filter/src/controllers/mod.rs:105-177 | two blocks at one instant and an unblock can leave the second record where a stack keeps the first |
| Lifecycle.BlockLastsItsHours | src/services/edge/network-filter/src/lib.rs:118-256 | a successful block of h hours is refused until 3600 h seconds after the request and no longer, with its reason and level, through everything that does not concern the address, crash the process or sweep the entry early |
| Lifecycle.RecordSaysRequest | src/services/edge/network-filter/src/controllers/mod.rs:111-126 | the record holds the request and the milliseconds of the request and of its end |
| Lifecycle.BlockIsRecorded | src/services/edge/network-filter/src/controllers/mod.rs:107-133 | a successful stored block adds that record on top of the stack of the address |
| Lifecycle.LatestBlockIsUndone | src/services/edge/network-filter/src/controllers/mod.rs:107-184 | a block and a later unblock leave the records as they were, whichever record the store picks, if the others are from earlier milliseconds |
| Lifecycle.SecondBlockIsUndone | src/services/edge/network-filter/src/controllers/mod.rs:107-184 | of two blocks in different milliseconds an unblock takes back the second and leaves exactly the first |
| Lifecycle.BlocksApartFormAStack | src/services/edge/network-filter/src/controllers/mod.rs:107-225 | judged by the times of the steps, blocks in different milliseconds make the records a stack throughout |
| Lifecycle.TickClearsExpired | src/services/edge/network-filter/src/lib.rs:462-572 | a scan and faultless drops leave exactly the unexpired addresses mapped, and no rule of a dropped one whose rules were unique |
| Lifecycle.MarksAreCleared | src/services/edge/network-filter/src/lib.rs:217-256 | what the provisos hold against an address is cleared by a successful block, restore or unblock and a faultless drop |
| Lifecycle.CleanRunsNeedNoProviso | src/services/edge/network-filter/src/lib.rs:217-288 | over any run without faults and failed writes every mapped address has all its rules, unique if they were, and a record that outlives the mapping but for a second |
| Ipv4.ParsePrintInverse | src/services/edge/network-filter/src/controllers/mod.rs:43-59 | the accepted strict dotted decimals are exactly the printed addresses |
| Ipv4.NormalizeExact | src/services/edge/network-filter/src/controllers/mod.rs:43-59 | a target normalises to an address exactly when its host part is that address verbatim |
| Ipv4.NormalizeIdempotent | src/services/edge/firewall-forwarder/src/main.rs:90-103 | the result is canonical and a fixed point |
| Ipv4.NormalizeUndecorates | src/services/edge/network-filter/src/controllers/mod.rs:43-59 | scheme, port and path around an address are taken off |
| Strings.LinesOfUnlinesStripped | src/services/edge/rule-engine/src/executor.rs:38-62 | lines written out and read back lose one carriage return at their ends and nothing else |
| Strings.UnlinesOfLines | src/services/edge/rule-engine/src/executor.rs:88-96 | a text without carriage returns that is empty or ends in a newline is recovered from its lines |
| Strings.LastLineUnterminated | src/services/edge/rule-engine/src/executor.rs:38 | an unterminated last line is a line like the others |
| Strings.TrimIsExact | src/services/edge/rule-engine/src/parser.rs:32 | trimming takes off the blanks at both ends and nothing else |
| Strings.TrimCharIsExact | src/services/edge/rule-engine/src/parser.rs:50-53 | every quote at either end is taken off and nothing else |
| Strings.ParseU64Exact | src/services/edge/rule-engine/src/parser.rs:55 | exactly the digit strings, with or without a plus sign, that fit 64 bits are read |
| RuleParser.ParseOfRender | src/services/edge/rule-engine/src/parser.rs:31-73 | parsing recovers action, source, destination, message and SID of every rendered rule |
| RuleParser.FindSkips | src/services/edge/rule-engine/src/parser.rs:66-70 | a first-occurrence search cannot straddle a character its pattern lacks |
| RuleParser.ParseIgnoresTrim | src/services/edge/rule-engine/src/parser.rs:32-35 | blanks around a line do not affect its parse |
| RuleParser.ParsesIff | src/services/edge/rule-engine/src/parser.rs:31-47 | a line parses exactly when, trimmed, it is not empty, is no comment and has at least five blanks |
| RuleParser.CommentNeverParses | src/services/edge/rule-engine/src/parser.rs:33-35 | a line whose first character that is no blank is # never parses |
| RuleParser.BareHeader | src/services/edge/rule-engine/src/parser.rs:38-56 | a line with exactly five blanks yields its addresses, no message and no SID |
| RuleParser.OptionValue | src/services/edge/rule-engine/src/parser.rs:66-73 | an option's value reaches from the first occurrence of its key to the next semicolon or the end, trimmed |
| RuleParser.NoOption | src/services/edge/rule-engine/src/parser.rs:66-68 | an option is missing exactly when its key occurs nowhere |
| RuleFile.RulesFile.ApplyRule | src/services/edge/rule-engine/src/executor.rs:22-73 | the in-place search and replace writes the specified text, for a missing file too |
| RuleFile.RulesFile.RemoveRuleByIp | src/services/edge/rule-engine/src/executor.rs:80-103 | a missing file stays missing; otherwise a pass over the lines writes the filtered text |
| RuleFile.UpsertIdempotentIff | src/services/edge/rule-engine/src/executor.rs:41-60 | on the lines in memory a second insertion changes nothing exactly when the rule has a SID |
| RuleFile.ApplyIdempotentIff | src/services/edge/rule-engine/src/executor.rs:16-73 | on the file, for every rule and every text, a second application changes nothing exactly when the rule has a SID and one line and no other line keeps a carriage return |
| RuleFile.TwoLineRuleIsAppendedAgain | src/services/edge/rule-engine/src/executor.rs:41-62 | a rule with a SID and a newline in its message is appended again |
| RuleFile.StrayCarriageReturnIsLost | src/services/edge/rule-engine/src/executor.rs:38-62 | a doubled carriage return in the file is changed by the second application |
| RuleFile.UpsertTouchesOneLine | src/services/edge/rule-engine/src/executor.rs:41-60 | one line is replaced or appended and all others stay as and where they were |
| RuleFile.UpsertKeepsSidsDistinct | src/services/edge/rule-engine/src/executor.rs:41-54 | pairwise-distinct SIDs stay pairwise distinct |
| RuleFile.ApplyTwiceIsApplyOnce | src/services/edge/rule-engine/src/executor.rs:22-73 | the same on the text of the file, for single-line rules with a SID |
| RuleFile.RemovalIsExact | src/services/edge/rule-engine/src/executor.rs:88-96 | a line survives with its multiplicity unless it parses with that source |
| RuleFile.RemovalKeepsOrder | src/services/edge/rule-engine/src/executor.rs:88-96 | the survivors keep their order |
| RuleFile.RemovalKeepsComments | src/services/edge/rule-engine/src/executor.rs:88-96 | every comment line stays, in order, whatever rule it hides |
| RuleFile.ApplyKeepsComments | src/services/edge/rule-engine/src/executor.rs:41-60 | applying a rule replaces no comment line |
| RuleFile.RenderedIsTargetedIff | src/services/edge/rule-engine/src/executor.rs:88-94 | a rendered rule is removed for its source address and no other |
| RuleFile.RemovalsCommuteOnFile | src/services/edge/rule-engine/src/executor.rs:80-103 | removals commute and are idempotent on the text |
| RuleFile.RemovalKeepsSidsDistinct | src/services/edge/rule-engine/src/executor.rs:88-96 | removal keeps SIDs distinct |
| RuleFile.RemoveUndoesApply | src/services/edge/rule-engine/src/executor.rs:22-103 | removing a source undoes applying a fresh rule for it, text for text |
| RuleMatcher.RuleMatcher.ReloadFrom | src/services/edge/rule-engine/src/matcher.rs:48-80 | the set becomes exactly the sources, neither empty nor any, of the lines that parse with action drop, or stays if there is no file |
| RuleMatcher.RenderedIsIndexedIff | src/services/edge/rule-engine/src/matcher.rs:61-67 | a rendered rule contributes its source exactly when its action is drop and its source is neither empty nor any |
| RuleMatcher.RuleMatcher.Check | src/services/edge/rule-engine/src/matcher.rs:83-96 | blocks exactly the listed addresses, with the stated reason |
| RuleMatcher.AddKeepsIndex | src/services/edge/rule-engine/src/matcher.rs:99-103 | applying a fresh drop rule and adding its address equals a reload |
| RuleMatcher.RemoveKeepsIndex | src/services/edge/rule-engine/src/matcher.rs:106-110 | removing an address from both equals a reload |
| RuleMatcher.ReusedSidIndex | src/services/edge/rule-engine/src/executor.rs:43-51 | with a reused SID the set is a superset by at most the replaced line's address, and exact just if that is still listed |
| RuleMatcher.SetCoversFile | src/services/edge/rule-engine/src/matcher.rs:48-110 | over any sequence of changes SIDs stay distinct and no listed address is missing; with fresh SIDs the set is the index |
| RuleMatcher.ApplyThenRemove | src/services/edge/rule-engine/src/matcher.rs:99-110 | applying a fresh drop rule for a new address and removing the address again leaves file and set as they were |
| Collector.EventsOfLine | src/services/edge/raspi-collector/src/services/mod.rs:412-455 | a line yields one event exactly when it is an alert with a source that is not engine noise, each field as stated, severities 1, 2, 3 as levels 9, 6, 3 |
| Collector.Tail.FlushBatch | src/services/edge/raspi-collector/src/services/mod.rs:458-478 | the whole buffer is taken, counted as collected, then as sent or failed |
| Collector.Tail.TailEveJson | src/services/edge/raspi-collector/src/services/mod.rs:481-543 | batches then buffer are the parsed lines in order, batches have 1 to 50 events, fewer than 50 wait, and the whole outcome is the specified fold over the wake-ups |
| Collector.TailIsARun | src/services/edge/raspi-collector/src/services/mod.rs:458-543 | whatever wakes the loop and however its sends end, what it does is a run of the interleaving model |
| Collector.NothingIsLost | src/services/edge/raspi-collector/src/controllers/mod.rs:121-330 | in every interleaving collected - sent - failed is the size of the sends under way (or dropped), and order and batch bounds hold |
| Collector.CollectedIsEverything | src/services/edge/raspi-collector/src/controllers/mod.rs:121-330 | collected is the sum of everything handed in and everything flushed |
| Collector.OutcomesAreCounted | src/services/edge/raspi-collector/src/services/mod.rs:467-477 | only accepted sends count as sent and only refused ones as failed |
| Collector.FlushAtFifty | src/services/edge/raspi-collector/src/services/mod.rs:523-527 | a delivered line starts a flush exactly when it brings the buffer to fifty |
| CollectorModels.ConnectionMonitor.UpdateCheck | src/services/edge/raspi-collector/src/models/mod.rs:180-242 | a check changes the fields as specified: sample, status change, extremes |
| CollectorModels.ConnectionMonitor.GetStatus | src/services/edge/raspi-collector/src/models/mod.rs:244-300 | the report is the specified function of the fields |
| CollectorModels.MonitorFollowsHistory | src/services/edge/raspi-collector/src/models/mod.rs:157-242 | every field is the stated function of the check history: periods, totals, counters, last 100 samples, extremes |
| CollectorModels.TimeIsAccountedFor | src/services/edge/raspi-collector/src/models/mod.rs:193-226 | accounted time never exceeds elapsed time and misses under a second per period plus the construction gap |
| CollectorModels.StatusIsTrue | src/services/edge/raspi-collector/src/models/mod.rs:244-300 | every field of the report is the stated function of the history; the percentage is the true ratio, so the clamp at 100 never fires |
| CollectorModels.LongestSessionIsMaximum | src/services/edge/raspi-collector/src/models/mod.rs:216-234 | the longest uptime is the longest completed session or the open one as last checked |
| CollectorModels.ShortestOutageIsLowerBound | src/services/edge/raspi-collector/src/models/mod.rs:197-241 | the shortest downtime never increases and bounds from below every completed outage and every positive reading of one in progress |
| CollectorModels.ShortestOutageIsAttained | src/services/edge/raspi-collector/src/models/mod.rs:197-241 | it is a length some check saw, closing an outage or in progress |
| CollectorModels.ShortestIsOutageIff | src/services/edge/raspi-collector/src/models/mod.rs:197-241 | it is the shortest completed outage exactly when no failing check found a shorter, positive one in progress |
| CollectorModels.OngoingOutageUnderstates | src/services/edge/raspi-collector/src/models/mod.rs:236-241 | an hour-long outage seen after ten seconds is recorded as ten |
| CollectorModels.ReportedDependsOnLastThree | src/services/edge/raspi-collector/src/models/mod.rs:271-279 | the reported status depends on the last three checks only |
| CollectorModels.ReportedByLastChecks | src/services/edge/raspi-collector/src/models/mod.rs:271-279 | what the status is after each combination of the last checks and the last response time |
| CollectorModels.LastChangeIsLast | src/services/edge/raspi-collector/src/models/mod.rs:193-215 | the status last went up (down) at the last check that switched it so |
| CollectorModels.SinceIsLastChange | src/services/edge/raspi-collector/src/models/mod.rs:193-215 | the period under way began there, or at the beginning |
| CollectorModels.SumOfConcat | src/services/edge/raspi-collector/src/models/mod.rs:265-269 | the sum behind the average is additive |
| CollectorModels.AppliedOfConcat | src/services/edge/raspi-collector/src/models/mod.rs:87-96 | so are the counts of applied commands |
| CollectorModels.WsDebugState.RecordCommand | src/services/edge/raspi-collector/src/models/mod.rs:87-106 | the log holds the last 50 commands in order and the counters count all of them |
| Forwarder.Forwarder.BlockIp | src/services/edge/firewall-forwarder/src/main.rs:181-242 | the block is recorded whether or not the router accepted it |
| Forwarder.Forwarder.UnblockIp | src/services/edge/firewall-forwarder/src/main.rs:244-272 | the block is forgotten whatever the router said |
| Forwarder.Forwarder.GetBlockedSimple | src/services/edge/firewall-forwarder/src/main.rs:355-377 | the payload lists exactly the unexpired blocks with their expiries, each once |
| Forwarder.ListedForItsHours | src/services/edge/firewall-forwarder/src/main.rs:206-232 | a block of h hours that nothing on the address follows is listed until 3600 h seconds after it was made and no longer |
| Forwarder.Forwarder.CollectExpired | src/services/edge/firewall-forwarder/src/main.rs:431-441 | the first phase collects exactly the expired addresses |
| Forwarder.Forwarder.DropCollected | src/services/edge/firewall-forwarder/src/main.rs:443-449 | the second phase drops exactly the collected addresses, whatever their entries are by then |
| Forwarder.CleanupInvisibleIff | src/services/edge/firewall-forwarder/src/main.rs:424-451 | the two-phase cleanup changes no later listing exactly when no collected address was blocked again in between |
| Forwarder.UndisturbedCleanup | src/services/edge/firewall-forwarder/src/main.rs:424-451 | a cleanup nothing comes between leaves exactly what has not run out |
| PacketCache.PacketCache.Sync | src/services/edge/packet-processor/src/main.rs:186-236 | the cache is rebuilt from the payload, or left alone if there is none |
| PacketCache.LastEntryDecides | src/services/edge/packet-processor/src/main.rs:199-223 | an address is cached exactly if an element names it; the last one decides, and blocks until the next sync if its expiry cannot be read |
| PacketCache.PacketCache.TtlCleanup | src/services/edge/packet-processor/src/main.rs:163-182 | exactly the expired entries go |
| PacketCache.EvictionChangesNoAnswer | src/services/edge/packet-processor/src/main.rs:163-182 | the timer changes no answer |
| PacketCache.BlockedAfterSyncIff | src/services/edge/packet-processor/src/main.rs:199-223 | a synced address is blocked exactly until its whole seconds left at the sync are over |
| PacketCache.CacheTracksSnapshot | src/services/edge/packet-processor/src/main.rs:163-277 | until the next sync a cached block is a live block of the snapshot, and one with a second left is cached |
| Retry.RetryWithBackoff | src/shared/utils/src/lib.rs:48-79 | first success or last error, at most max(1, attempts) runs in 8 bits, each sleep within its cap |
| Retry.SleepIsTheDraw | src/shared/utils/src/lib.rs:70-75 | each sleep is the drawn number of milliseconds |
| Retry.DelayClosedForm | src/shared/utils/src/lib.rs:59-75 | after k delays the cap is min(base * 2^k, max), the first one uncapped |
| Retry.SumOfDelaysExact | src/shared/utils/src/lib.rs:59-75 | the sum of the caps is the geometric sum up to the point where doubling reaches the maximum and the maximum each time after it |
| Retry.SumOfDelaysCapped | src/shared/utils/src/lib.rs:70-75 | total sleep is at most one base delay and then the cap each time |
| Retry.SumOfDelaysGeometric | src/shared/utils/src/lib.rs:70-75 | it is at most the geometric sum, which it reaches while the cap is out of reach |

## Left out

- HTTP, WebSocket, MongoDB driver, logging, environment variables, reverse DNS, packet capture: foreign calls. The store is a sequence of records whose writes may fail, the kernel a table whose commands may fail.
- Choice of network namespace (`nsenter` or the container's own): one kernel table is modelled, and what the sweep achieves in the kernel is stated per deletion that works.
- Kernel edits by other programs, and creation or deletion of DOCKER-USER during a run.
- Locks of the concurrent maps: each look-up or update is one atomic step.
- FilterService.NetworkFilter.ShouldBlockPacket: does not model that the expired entry is removed (lib.rs:138) while the guard of the look-up (lib.rs:128) is still held, which the documentation of the map warns can deadlock; the contract describes a call that returns.
- Clock readings inside one handler: one reading per handler; the replay at startup happens at one instant.
- Pending packets, trust grants, `apply_vps_decision` and the average processing time: nothing in the repository inserts a pending packet. The trust map is a field with arbitrary content.
- FilterService.NetworkFilter.RestoreActiveBlocks: takes the records the cursor yielded; a cursor that breaks off is a shorter list.
- Order of the forwarder's management listing (sorted by date) and the firewall's own answer beyond success or failure.
- RuleFile.LinesOfApplied: apart from idempotence, which is settled for every text, results about the rules file are for single-line rules and texts without carriage returns, as the single-line parser documents; input/output errors on the file are left out.
- Concurrent rewrites of the rules file: each change is atomic. Nothing in the repository calls `add_blocked_ip` or `remove_blocked_ip` outside the matcher; `RuleMatcher.SetCoversFile` pairs each with the change of the file it is meant to accompany.
- Network-filter's own listing as the cache source: it returns a bare array, which the packet processor ignores.
- Duration mapping in `handle_vps_command` and the registration and reconnect loop of the command listener.
- Retry.RetryWithBackoff: durations are unbounded, so the overflow of doubling a duration near the type's maximum is not modelled.
- Floating point: percentages and response times are reals; the collection rate is not modelled.
- Identifiers and payloads of events, junk-packet filtering, telemetry thresholds, configuration and shell scripts: single expressions or plumbing with no state that has to agree with anything else.
