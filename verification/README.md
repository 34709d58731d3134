# Verification of the chain-data service's core algorithms

The service answers wallet queries about the Cardano chain from two upstreams, Koios and Blockfrost.
Its HTTP layer is thin. What can go wrong sits in a handful of algorithms around it, and this project
states what each of them promises and proves it:

- **Transaction history.** A page is the smallest set of whole blocks, oldest first, with at least 50
  transactions (`History.dfy`). Blockfrost settles it by pulling address pages round by round
  (`BlockfrostHistory.dfy`), Koios by an incremental merge of ordered streams (`KoiosHistory.dfy`). When
  each answers that page is proved exactly, and a client of both methods that follows the cursor is
  proved to be given the whole history, whichever of them answers each page (`HistoryProviders.dfy`).
  Which answers a Koios stream reads to its end is said without its fields in `HistoryStreams.dfy`.
- **The process cache.** Its operations as functions of its state (`CacheState.dfy`), the class that
  performs them on maps and counters (`ProcessCache.dfy`), every interleaving of reads, completions,
  failures, guarded writes and clears (`CacheRuns.dfy`), the class proved to perform every one of them
  (`CacheSteps.dfy`), what a stored value is served for and until when (`CacheServes.dfy`), and the
  epoch-keyed protocol parameters with their shared recovery on top (`CachedParams.dfy`): what they keep,
  and what every caller gets (`ParamsRecovery.dfy`).
- **The Koios client.** The offset and keyset page walk over an upstream that may change between pages
  (`KoiosPaging.dfy`), the walks it completes said page by page (`KoiosWalks.dfy`), exactly which rows an
  offset walk then returns, and what a second walk that agrees with it rules out (`KoiosOffsets.dfy`),
  greedy packing under a byte budget (`PackBySize.dfy`), bounded retry and the limit learned from a 413
  (`KoiosClient.dfy`).
- **Parsers with exact acceptance.** The CBOR subset of Byron addresses against a grammar of items
  (`Cbor.dfy`), the address envelope and payload (`ByronAddress.dfy`), the CRC-32 and the damage it always
  notices (`Crc32.dfy`), as the remainder that the standard defines (`Crc32Remainder.dfy`),
  pointer-address numbers (`PointerAddress.dfy`), trusted-proxy ranges (`TrustedProxies.dfy`) and the
  intervals of numbers they are (`ProxyRanges.dfy`).
- **Governors and pools.** Token buckets (`TokenBucket.dfy`), the bounded worker pool (`WorkerPool.dfy`)
  and the group testing of payment credentials (`Credentials.dfy`).

Objects that the source updates in place are classes whose methods are proved equal to functions of the
old state; loops are loops with invariants. Where several callers interleave between awaits, the steps
between two awaits are the steps of a state machine, and the theorems are about all its runs.

Where the code does less than a reader might expect, the code is followed and the difference is a result:
an input that shows it, and exactly when it does not arise.

- The 200-page cap can hide history (`CapHidesHistory`). It does so exactly when the promised page is not
  within it (`CapDecidesThePage`), and never while a page and two of the fullest blocks fit into 20,000
  rows (`SparseBlocksFit`).
- An offset walk can miss a row that was there all along (`OffsetWalkMayMissARow`). It returns such a row
  if and only if at some read the row stood on the very page that read asked for
  (`OffsetWalkReturnsExactly`, `FullPageWalkReturnsExactly`); a missed one moved back over a page boundary
  between two reads (`MissedRowSlidBack`), and did so in each of two walks that agree
  (`AgreedMissSlidBackTwice`).
- A token taken under one key and used for another may be refused although nothing relevant was cleared:
  a scoped view's, taken under the empty key (`ScopedTokenIsConservative`), and the recovery's, taken for
  the parameters of all epochs (`PrefixTokenIsConservative`). `TokenIsExact` says when each passes.
- Offset pages are refused when their ranges name different totals (`ChangedTotalIsRefused`), but a walk told
  of 2,000 rows takes an empty range after 1,000 for its end (`ShrunkListIsAccepted`).
  `OffsetEndsExactly` says which walks are complete.
- An entry that is stored again keeps its old place in the cache and may be the first to go
  (`StoredAgainKeepsItsPlace`); `EvictedExactly` says which entries survive.
- A computed wait is too short after the clock has run back (`ClockRunningBackShortensTheWait`);
  `NextCheck` says exactly when the next check is granted.

`dafny verify dfyconfig.toml` checks everything.

## Model

| member | source | states |
|---|---|---|
| `History.CutPage` | src/providers/blockfrost/tx-info.ts:366-369 | the loop that extends a page through its boundary block stops at the end the specification names, with that block |
| `History.CutIsPage` | src/providers/blockfrost/tx-info.ts:350-370 | cutting the sorted, deduplicated rows yields exactly the page of their transactions and its boundary block |
| `History.SortIsStable` | src/providers/koios/account.ts:152 | sorting by height keeps the transactions of every block in the order they were listed in |
| `History.PageUnique` | src/providers/blockfrost/tx-info.ts:350-355 | at most one set of transactions meets the page contract |
| `History.PageExists` | src/providers/blockfrost/tx-info.ts:350-355 | and every history has one |
| `History.PageKeepsBlocksWhole` | src/providers/koios/account.ts:149-151 | no page leaves part of a block behind: everything off the page is strictly newer than everything on it |
| `History.SettledPage` | src/providers/blockfrost/tx-info.ts:376-383 | the page of a part of the history is the page of all of it, once nothing unread belongs to or precedes its boundary block |
| `History.NextCursorAdvances` | src/providers/koios/account.ts:149-151 | the next cursor leaves exactly the rows after the page |
| `History.FollowingTheCursorEnumerates` | src/providers/koios/account.ts:149-156 | following the cursor concatenates to the whole sorted history past the first cursor, nothing skipped or repeated |
| `History.PageAfterIsPage` | src/providers/blockfrost/tx-info.ts:356-370 | the pages so followed are the pages of the contract |
| `BlockfrostHistory.AddressCursor.Advance` | src/providers/blockfrost/tx-info.ts:326-348 | a cursor's rows are always the rows past the block cursor on the pages fetched so far; the flags say whether more can follow |
| `BlockfrostHistory.MergePage` | src/providers/blockfrost/tx-info.ts:356-370 | the merge over cursors is the cut of the sorted rows, one per hash, of all of them in order |
| `BlockfrostHistory.PageOfIsPage` | src/providers/blockfrost/tx-info.ts:350-370 | that merge is the page of the transactions it was given |
| `BlockfrostHistory.Needing` | src/providers/blockfrost/tx-info.ts:422-426 | selects exactly the cursors that may still hold part of the page |
| `BlockfrostHistory.MergeOrPull` | src/providers/blockfrost/tx-info.ts:420-431 | a round settles the page or spends pages the cap still allows |
| `BlockfrostHistory.Settle` | src/providers/blockfrost/tx-info.ts:409-431 | the settle loop ends, and then no cursor can still hold part of the page |
| `BlockfrostHistory.AddressSetTxHistory` | src/providers/blockfrost/tx-info.ts:387-436 | ends for any listings; over ascending, consistent ones it answers the page of everything readable within the cap, in order |
| `BlockfrostHistory.CapDecidesThePage` | src/providers/blockfrost/tx-info.ts:347 | the answer is the promised page if and only if that page is within the cap of addresses that list it; always when no listing exceeds the cap |
| `BlockfrostHistory.SparseBlocksFit` | src/providers/blockfrost/tx-info.ts:347 | the answer is the promised page, however long the histories, while no address has more rows in one block than let a page and two such blocks fit into 20,000 rows |
| `BlockfrostHistory.CapHidesHistory` | src/providers/blockfrost/tx-info.ts:347 | 20,000 transactions in the cursor's own block make the answer empty although history follows |
| `KoiosHistory.AddressHistoryStream.Account` | src/providers/koios/addresses.ts:102-142 | a page is accepted exactly when its range, place, status and the row bound are consistent, for any answer at all |
| `KoiosHistory.AddressHistoryStream.CheckOrder` | src/providers/koios/addresses.ts:144-149 | accepted exactly when every row continues the order |
| `KoiosHistory.AddressHistoryStream.Accept` | src/providers/koios/addresses.ts:100-151 | the whole new state of a stream for any answer, and exactly which answers are refused |
| `KoiosHistory.TruthIsConsistent` | src/providers/koios/addresses.ts:88-142 | a truthful answer is refused only where it shows that the list goes on past the row bound |
| `HistoryStreams.ReadAnswers` | src/providers/koios/addresses.ts:81-152 | fed answers until it is done, a stream reads them all if and only if their ranges tile the rows from 0 to the end, within 100,000, and the rows are in order throughout |
| `HistoryStreams.OrderedJoins` | src/providers/koios/addresses.ts:144-149 | checking each page against the row before it is checking the order of the whole |
| `KoiosHistory.OrderIsHeightThenHash` | src/providers/koios/addresses.ts:71-75 | the order is by height and then by the first differing character of the hashes |
| `KoiosHistory.AddressHistoryStream.Fill` | src/providers/koios/addresses.ts:81-152 | over a truthful list a stream always stands at its next row, and fails exactly at the bound of a longer list |
| `KoiosHistory.FirstHead` | src/providers/koios/addresses.ts:247-253 | picks the head that comes first by height and then hash, of the earliest stream that has it |
| `KoiosHistory.TakeNext` | src/providers/koios/addresses.ts:257-261 | taking the oldest head keeps the merge invariant: what was taken is a downward-closed part of the history |
| `KoiosHistory.StoppedIsPage` | src/providers/koios/addresses.ts:254-264 | wherever the merge may stop, what it holds is the page of all the lists |
| `KoiosHistory.BoundedAddressHistoryRows` | src/providers/koios/addresses.ts:207-265 | the early-stopping merge returns the page, and throws exactly when the page itself reaches row 100,000 of a longer list |
| `KoiosHistory.GetTxHistoryByAddresses` | src/providers/koios/addresses.ts:335-368 | the final sort and cut keep that page, in order |
| `KoiosHistory.SecondCut` | src/providers/koios/addresses.ts:358-365 | cutting a page once more takes nothing off it |
| `KoiosHistory.AccountTxHistory` | src/providers/koios/account.ts:142-156 | the stake-account page holds whole oldest blocks of the listing, and is the page when the listing has no repeats |
| `HistoryProviders.ProvidersAgree` | src/providers/blockfrost/tx-info.ts:375-376 | over one chain the answers of the two methods hold the same transactions if and only if the cap hides nothing of the page, and then end in the same block |
| `HistoryProviders.BlockfrostAnswers` | src/providers/blockfrost/tx-info.ts:387-436 | what the settled walk returns is the promised page past the cursor if and only if the cap hides nothing of it |
| `HistoryProviders.CapSparesAll` | src/providers/blockfrost/tx-info.ts:347 | short listings, or sparse blocks, keep the cap from hiding anything past any cursor |
| `HistoryProviders.AnswerPage` | src/providers/koios/addresses.ts:335-368 | one page asked of either method is the promised page, unless the stream merge reaches its row bound |
| `HistoryProviders.CursorLeavesTheRest` | src/providers/koios/addresses.ts:358-365 | for any provider of promised pages, the next cursor leaves exactly what the page did not hold |
| `HistoryProviders.FollowingAnyProviderEnumerates` | src/providers/koios/account.ts:149-151 | a client that follows the cursor over any source of promised pages is given all newer history once, in block order |
| `HistoryProviders.FollowCursor` | src/providers/koios/account.ts:149-151 | a client that calls the two methods, either for each page, and follows the cursor is given all newer history once, in block order, unless some page reaches the row bound of the stream merge |
| `CacheState.EvictionKeepsTheNewestUsable` | src/cache/index.ts:156-173 | eviction leaves a suffix of the usable entries in insertion order within the bound, and drops a usable one only when the usable ones alone exceed it |
| `CacheState.FenceHolds` | src/cache/index.ts:142-154 | a token taken under any key passes for a key only if no later clear overlapped that key |
| `CacheState.TokenIsExact` | src/cache/index.ts:147-154 | a token taken under any key passes for another if and only if that key's own token had the same value and no later clear overlapped it |
| `CacheState.PrefixTokenIsExact` | src/providers/cached.ts:102-104 | a token taken under a prefix of the key passes if and only if the last clear it saw overlapped the key too and none since did |
| `CacheState.PrefixTokenIsConservative` | src/providers/cached.ts:102-104 | clearing one epoch's parameters makes a token for all epochs useless for another epoch, whose own token passes |
| `CacheState.FenceIsExact` | src/cache/index.ts:147-154 | a token taken under the same key passes if and only if no later clear overlapped it |
| `CacheState.ScopedTokenIsExact` | src/providers/factory.ts:72-74 | exactly when a token taken under the empty key passes for a key |
| `CacheState.ScopedTokenIsConservative` | src/providers/factory.ts:72 | one unrelated clear makes a scoped write refused that an unscoped one would make |
| `ProcessCache.MemoryCache.GenerationFor` | src/cache/index.ts:147-154 | the loop over cleared prefixes finds the number of the last overlapping clear |
| `ProcessCache.MemoryCache.Evict` | src/cache/index.ts:156-173 | the two deletion loops leave exactly the newest usable entries |
| `ProcessCache.MemoryCache.Read` | src/cache/index.ts:176-230 | a hit, the attempt in flight, or a new registered attempt with its token; nothing else changes |
| `ProcessCache.MemoryCache.Loaded` | src/cache/index.ts:191-201 | a settled load stores exactly when its token is still current |
| `ProcessCache.MemoryCache.Failed` | src/cache/index.ts:202-221 | a failed load serves the stored value exactly when its token is current and the value still usable, and changes nothing |
| `ProcessCache.MemoryCache.Cleanup` | src/cache/index.ts:222-226 | unregisters the attempt itself and no other |
| `ProcessCache.MemoryCache.Peek` | src/cache/index.ts:233-236 | a value exactly before its expiry; how long it may be served is `ServedWithinDeadlines` |
| `ProcessCache.MemoryCache.Set` | src/cache/index.ts:238-243 | the new state after an unguarded store |
| `ProcessCache.MemoryCache.SetIfGeneration` | src/cache/index.ts:249-253 | stores exactly when the token is still current |
| `ProcessCache.MemoryCache.SizeForPrefix` | src/cache/index.ts:259-265 | counts the entries under the prefix |
| `ProcessCache.MemoryCache.Clear` | src/cache/index.ts:267-282 | drops exactly the entries and registrations under the prefix, keeps the order of the rest and numbers the clear |
| `CacheRuns.StepKeeps` | src/cache/index.ts:175-283 | every event keeps the invariant: bounded size, every entry traced to its store, one registered attempt a key |
| `CacheRuns.SizeIsBounded` | src/cache/index.ts:116-121 | at every reachable state the cache holds at most its bound |
| `CacheRuns.ClearFencesEntries` | src/cache/index.ts:142-145 | after a clear, nothing stored under a key it matched came from an attempt or token that began before it |
| `CacheRuns.ClearFencesAttempts` | src/cache/index.ts:191-221 | a load that began before a matching clear stores nothing, and its failure serves no fallback |
| `CacheRuns.ClearFencesTokens` | src/cache/index.ts:249-253 | a token taken before the clear, under whatever key, writes nothing under a key it matched |
| `CacheRuns.OverlapNeedsClear` | src/cache/index.ts:182-186 | two loads of one key overlap only if a matching clear fell between their starts |
| `CacheRuns.MissesShareTheAttempt` | src/cache/index.ts:182-226 | concurrent misses join one attempt on their own key, and a late cleanup spares every other registration |
| `CacheRuns.StoredEarlier` | src/cache/index.ts:191-201 | whatever is traced to a key was stored there by an earlier event of the run |
| `CacheRuns.ServedWithinDeadlines` | src/cache/index.ts:175-236 | a value is read or peeked before the expiry its store fixed, or served after a failed refresh before the later deadline its store fixed; serving extends neither |
| `CacheServes.EvictedExactly` | src/cache/index.ts:156-173 | an entry survives an eviction if and only if there are not too many, or it is usable and fewer usable ones than the bound are newer |
| `CacheServes.SavedIsServed` | src/cache/index.ts:176-251 | a value saved at a time is what every later read or peek gives before that time plus the ttl and none from then on, and what an undisturbed failed load falls back to before the stale window ends, unless it is cleared, replaced or crowded out |
| `CacheServes.TakenTokenPasses` | src/cache/index.ts:245-253 | a token taken under a key passes for it as long as no clear names a prefix of the key or anything under it |
| `CacheServes.StoredAgainKeepsItsPlace` | src/cache/index.ts:163-172 | a value stored again may be the first to be dropped |
| `CacheSteps.Perform` | src/cache/index.ts:175-283 | the class answers each event, and changes, exactly as the step machine does |
| `CacheSteps.PerformAll` | src/cache/index.ts:175-283 | so every run of the step machine is a run of the class, answer by answer |
| `CachedParams.DigitsReadBack` | src/providers/cached.ts:86 | the decimal digits of an epoch read back as the epoch |
| `CachedParams.KeysAreSpelled` | src/providers/factory.ts:64-73 | the keys as they are spelled in the process cache and in a scoped view, whose tokens are taken under the empty key |
| `CachedParams.KeysAreApart` | src/providers/cached.ts:86 | no two epochs share a cache key and none has the tip's |
| `CachedParams.CacheStepKeepsGood` | src/providers/cached.ts:81-92 | the cache hands on only what it was given: if writes match their keys, so do entries and outcomes |
| `CachedParams.NextKeepsSound` | src/providers/cached.ts:94-157 | every step of readers, loads, shared recoveries, clears and other users of the cache keeps the invariant |
| `CachedParams.EntryHoldsItsEpoch` | src/providers/cached.ts:85-92 | in every interleaving the entry keyed on an epoch holds that epoch's parameters |
| `CachedParams.ReturnedMatchesATip` | src/providers/cached.ts:149-157 | what a call returns carries the epoch of the tip it obtained, or of the tip its recovery fetched with those parameters |
| `CachedParams.OneRecoveryAtATime` | src/providers/cached.ts:94-134 | however many callers find a mismatch, one recovery at most is fetching |
| `ParamsRecovery.MismatchIsRecovered` | src/providers/cached.ts:98-104 | a caller whose parameters did not match its tip joins the recovery under way, or starts one that takes a token for each of its keys first |
| `ParamsRecovery.ArrivalGives` | src/providers/cached.ts:149-157 | a settled load or recovery gives each waiting caller exactly what came of it; a recovered pair is returned |
| `ParamsRecovery.RecoveryAdvances` | src/providers/cached.ts:106-134 | a recovery fetches the tip, then the parameters, succeeds exactly when they match, and once forgotten is not joined |
| `ParamsRecovery.MismatchWasAnswered` | src/providers/cached.ts:85-92 | in every history a noted mismatch came of parameters of another epoch than the one asked for |
| `ParamsRecovery.ThrowsOnlyOnFailure` | src/providers/cached.ts:149-157 | in every history a call that threw had been waiting for a load or recovery that the upstream failed, or that got a pair that does not match; a mismatch alone never throws |
| `ParamsRecovery.NoCallerIsStuck` | src/providers/cached.ts:94-157 | in every history a waiting caller can go on, or an upstream answer it depends on is still to come |
| `ParamsRecovery.PublishStoresPair` | src/providers/cached.ts:118-125 | a recovered pair whose tokens still pass is stored, the tip for 10 seconds and the parameters for 6 days |
| `CachedParams.ClearedTipIsNotStored` | src/providers/cached.ts:101-119 | a clear of the tip's key since then keeps the tip out, and the parameters are written as if alone |
| `CachedParams.ClearedParamsAreNotStored` | src/providers/cached.ts:102-125 | a clear of the epoch's key since then keeps the parameters out, and the tip is written as if alone |
| `CachedParams.ClearedRecoveryStoresNothing` | src/providers/cached.ts:101-125 | with both keys cleared since the recovery took its tokens nothing is stored, and its callers still get the pair |
| `KoiosWalks.AppendPage` | src/providers/koios/client.ts:553-569 | a page is added exactly when no key repeats |
| `KoiosPaging.LessIsHashThenIndex` | src/providers/koios/client.ts:644-650 | keys are in order by the first differing character of their hashes and then by index |
| `KoiosWalks.TakePage` | src/providers/koios/client.ts:571-687 | one page: refused only where no complete walk begins with these answers, otherwise taken in with its keys |
| `KoiosWalks.WalkBatchPages` | src/providers/koios/client.ts:538-688 | ends whatever the upstream answers, and returns rows exactly when its pages make a complete walk, said of the pages themselves, and then the rows of those pages |
| `KoiosWalks.OffsetEndsExactly` | src/providers/koios/client.ts:571-687 | a walk by offsets is complete if and only if partial pages, each with status 206, tile the beginning of one total of at most 100,000 and the last page reaches that total, or nothing is left; or its one page is short and has no range |
| `KoiosWalks.KeysetEndsExactly` | src/providers/koios/client.ts:571-687 | a walk by keys is complete if and only if each page ends past the one before, within the bound, until one holds all its own range counts |
| `KoiosWalks.RangedWalkIsWhole` | src/providers/koios/client.ts:655-679 | where pages have ranges up to the end, every one names the number of rows returned |
| `KoiosWalks.ChangedTotalIsRefused` | src/providers/koios/client.ts:655-657 | no walk is complete whose ranges name different totals |
| `KoiosWalks.ShrunkListIsAccepted` | src/providers/koios/client.ts:614-631 | an empty range ends a walk at the rows read, whatever total was named before |
| `KoiosPaging.KeysetWalkIsComplete` | src/providers/koios/client.ts:571-687 | over rows that change between pages: keys ascend, every row was there at some page read, every key there at all of them is returned |
| `KoiosPaging.FixedListIsReturned` | src/providers/koios/client.ts:538-688 | over an unchanging list both kinds of walk return it, if and only if it is within 100,000 rows |
| `KoiosOffsets.OffsetWalkReturnsExactly` | src/providers/koios/client.ts:571-687 | a key there at every read of an offset walk is returned if and only if at some read it stood on the page asked for; pages may have any length |
| `KoiosOffsets.FullPageWalkReturnsExactly` | src/providers/koios/client.ts:571-687 | with full pages: if and only if at some read k its index was from 1,000 k up to 1,000 (k + 1) |
| `KoiosOffsets.MissedRowSlidBack` | src/providers/koios/client.ts:787-789 | a missed key went from past a page boundary to before it between two reads |
| `KoiosOffsets.RowThatStaysIsReturned` | src/providers/koios/client.ts:787-789 | a key that never moves back is returned |
| `KoiosOffsets.SameMembership` | src/providers/koios/client.ts:793-796 | the comparison of two walks holds exactly when their keys are the same in order |
| `KoiosOffsets.BatchAllPages` | src/providers/koios/client.ts:761-804 | the whole read: rows exactly when one complete walk, and where it is to be verified a second with the same keys, make it |
| `KoiosOffsets.ReadIsOneWalkOrTwo` | src/providers/koios/client.ts:778-802 | a read by keys, one not to be verified and one of a single page is one complete walk; any other is the second of two with the same keys in order |
| `KoiosOffsets.AgreedReadReturnsExactly` | src/providers/koios/client.ts:787-801 | of two agreeing walks, a key there throughout is returned if and only if the first met it, and if and only if the second did |
| `KoiosOffsets.AgreedMissSlidBackTwice` | src/providers/koios/client.ts:787-801 | a key there throughout and missing from the agreed result moved back over a page boundary in each of the two walks |
| `KoiosOffsets.OffsetWalkMayMissARow` | src/providers/koios/client.ts:787-791 | an offset walk over truthful pages can miss a row that was there throughout, with no total or key giving it away |
| `PackBySize.Pack` | src/providers/koios/schema.ts:118-154 | rejects exactly when an item cannot fit alone; otherwise non-empty chunks in order, within budget less margin, and as few as any |
| `PackBySize.BodyIsSerialized` | src/providers/koios/schema.ts:110-118 | the bytes counted are those of the body: what surrounds the list, and the items with a comma between each pair |
| `PackBySize.GreedyStaysAhead` | src/providers/koios/schema.ts:141-149 | after any number of chunks the greedy packing has carried at least as many items as any other that fits |
| `PackBySize.GreedyIsShortest` | src/providers/koios/client.ts:266-268 | no in-order packing that fits uses fewer chunks |
| `KoiosClient.Read` | src/providers/koios/client.ts:474-494 | a timeout, a malformed answer or a server error is tried again, every 4xx and anything else ends the read, as the last attempt does; waits grow linearly |
| `KoiosClient.BatchClient.SendAll` | src/providers/koios/client.ts:707-708 | all chunks' rows in order, or the error of a chunk that failed |
| `KoiosClient.BatchClient.PackAdaptively` | src/providers/koios/client.ts:700-719 | at most two runs; a second one only where the first failed with a 413 naming a smaller limit, which is then the limit and what the items are packed to |
| `Cbor.HeadReads` | src/domain/byron-address.ts:62-86 | a head of any width is read where one is written |
| `Cbor.HeadWasWritten` | src/domain/byron-address.ts:62-86 | wherever a head is read, one is written with that type, value and length |
| `Cbor.StandardHeads` | src/domain/byron-address.ts:62-86 | heads are written as the examples of RFC 8949 are |
| `Cbor.StandardItems` | src/domain/byron-address.ts:107-141 | and items of every kind |
| `Cbor.SkipCborItem` | src/domain/byron-address.ts:116-141 | the recursive reader, with its loops, computes the skip function, and ends |
| `Cbor.SkipsExactlyItems` | src/domain/byron-address.ts:107-141 | skipping succeeds if and only if the encoding of an item starts there, and ends where that item ends |
| `Cbor.NoItemBeginsAnother` | src/domain/byron-address.ts:107-111 | no item's encoding is a proper beginning of another's |
| `ByronAddress.IsByronAddressPayload` | src/domain/byron-address.ts:154-185 | accepts exactly the encodings of a three-element body: 28-byte root, map, type 0 to 2, nothing trailing |
| `ByronAddress.BodyReadsExactly` | src/domain/byron-address.ts:143-148 | what the payload check reads at its offsets is exactly what the grammar says |
| `ByronAddress.OpenEnvelope` | src/domain/byron-address.ts:201-221 | the payload and checksum of exactly the byte strings that are read as envelopes |
| `ByronAddress.EnvelopeIsRead` | src/domain/byron-address.ts:201-221 | an encoded envelope is read back as what it holds |
| `ByronAddress.AddressesAreSoundEnvelopes` | src/domain/byron-address.ts:187-193 | the addresses are exactly the envelopes whose payload and checksum are sound |
| `ByronAddress.IsByronAddress` | src/domain/byron-address.ts:196-231 | accepts exactly the envelopes of a sound payload with the standard's checksum, and refuses everything else without failing |
| `ByronAddress.DamageIsNoticed` | src/domain/byron-address.ts:11-12 | of two envelopes with one checksum whose payloads differ within four consecutive bytes, at most one is an address |
| `Crc32.Crc32` | src/domain/byron-address.ts:26-38 | the masked bit loop computes the register's step function over all bytes |
| `Crc32.StepIsOneToOne` | src/domain/byron-address.ts:33-34 | the bit step loses nothing: the register before it can be told from the one after |
| `Crc32.StepIsOnto` | src/domain/byron-address.ts:33-34 | every 32-bit register is reached by one step, so the step is a bijection |
| `Crc32.StepIsLinear` | src/domain/byron-address.ts:33-34 | the bit step is linear over exclusive or |
| `Crc32.WindowChangesChecksum` | src/domain/byron-address.ts:26-38 | two payloads of one length that differ only within four consecutive bytes never share a checksum |
| `Crc32Remainder.ChecksumIsRemainder` | src/domain/byron-address.ts:26-38 | the checksum is the complemented remainder of the message and 32 zero bits, the first 32 bits of them complemented, by the CRC-32 generator |
| `Crc32Remainder.CheckValue` | src/domain/byron-address.ts:26-38 | the checksum of "123456789" is 0xCBF43926 |
| `Crc32Remainder.LeadingZeroChangesChecksum` | src/domain/byron-address.ts:27 | a zero byte before any message changes its checksum |
| `TokenBucket.Limiter.TryAcquire` | src/prices/rate-limit.ts:59-69 | one turn keeps the balance between zero and the capacity, grants exactly when a token is there, and otherwise computes a wait after which a lone caller is granted on a clock that has not run back |
| `TokenBucket.Limiter.Refill` | src/providers/blockfrost/rate-limiter.ts:45-53 | a refill keeps the balance between zero and the capacity and takes nothing away, on a clock that may run back |
| `TokenBucket.CheckAll` | src/prices/rate-limit.ts:58-70 | a limiter checked at any readings grants exactly the checks the runs below are about |
| `TokenBucket.PacesAreAsConfigured` | src/prices/rate-limit.ts:45-51 | one token comes per interval, or as many per second as configured |
| `TokenBucket.StaysWithin` | src/prices/rate-limit.ts:46-56 | the bucket is never overdrawn or over full, and runs on the highest clock reading |
| `TokenBucket.GrantsInWindow` | src/prices/rate-limit.ts:14-20 | for any waiters and clock jumps, grants in a window are at most a full bucket and the window's refill |
| `TokenBucket.PricesPerMinute` | src/prices/geckoterminal.ts:79-81 | at most 28 price calls in any minute |
| `TokenBucket.RequestsPerMinute` | src/providers/blockfrost/client.ts:108-109 | at most 1,100 chain requests in any minute at the default pace |
| `TokenBucket.BooksBalance` | src/prices/rate-limit.ts:50-64 | at any moment the balance is a full bucket, plus the refill since, less the grants since, for some moment it was full |
| `TokenBucket.NextCheck` | src/prices/rate-limit.ts:60-66 | a lone waiter's next check is granted if and only if the bucket can hold a token and the shortfall has been made up |
| `TokenBucket.LoneWaiterIsServed` | src/prices/rate-limit.ts:66-67 | on a clock that does not run back, the computed wait suffices |
| `TokenBucket.EarlierCheckIsRefused` | src/prices/rate-limit.ts:66-67 | a check any whole number of milliseconds earlier is not granted |
| `TokenBucket.SmallBucketStarves` | src/prices/rate-limit.ts:62 | a capacity below one never grants |
| `TokenBucket.ClockRunningBackShortensTheWait` | src/prices/rate-limit.ts:53 | after the clock has run back the computed wait may not suffice |
| `WorkerPool.SharedPool.ClaimNext` | src/providers/blockfrost/concurrency.ts:31-33 | the next item, or the end, with the shared variables after it: a step of the runs below |
| `WorkerPool.SharedPool.SettleCall` | src/providers/blockfrost/concurrency.ts:34-39 | a result at its own index, or the first error and the abort flag: a step of the runs below |
| `WorkerPool.BoundedAndOnce` | src/providers/blockfrost/concurrency.ts:24-27 | in every schedule: calls in flight within the limit, the number of items, or one; none two for one item, every item handed out once and in order |
| `WorkerPool.FinishedIsComplete` | src/providers/blockfrost/concurrency.ts:43-44 | when all runners are done: every result is the worker's own for its item, or the error is one a call gave |
| `WorkerPool.NoCallAfterFailure` | src/providers/blockfrost/concurrency.ts:12-16 | once a failure is recorded no further worker call is made |
| `WorkerPool.Progress` | src/providers/blockfrost/concurrency.ts:31-41 | every step uses up a finite budget |
| `WorkerPool.SomeStepIsEnabled` | src/providers/blockfrost/concurrency.ts:31-43 | until every runner has finished some step can be taken |
| `WorkerPool.MapWithConcurrency` | src/providers/blockfrost/concurrency.ts:19-45 | the whole call ends under every schedule, with every item's own result in order, or else with an error a worker call gave |
| `Credentials.UsedPaymentCredentials` | src/providers/koios/addresses.ts:268-284 | exactly the used credentials in order, with at most 1 + 2k·ceil(log2 n) probes |
| `Credentials.SplitIsExact` | src/providers/koios/addresses.ts:280-283 | the halves' answers make the whole's in order, and their probes stay within the whole's bound |
| `Credentials.Log2IsCeiling` | src/providers/koios/addresses.ts:280 | the levels of halving are the logarithm to base 2, rounded up |
| `Credentials.Unique` | src/providers/koios/addresses.ts:300 | each credential once, in the order of their first occurrences |
| `Credentials.Grouped` | src/providers/koios/addresses.ts:302-305 | groups of five, only the last of fewer, that concatenate to the request |
| `Credentials.MergedIsUsed` | src/providers/koios/addresses.ts:316-317 | merging the groups' results gives exactly the used credentials in their order |
| `Credentials.AnyScheduleFindsTheUsed` | src/providers/koios/addresses.ts:306-317 | the same for every schedule of the pool that probes the groups |
| `PointerAddress.NextPointerPart` | src/http/routes/addresses.ts:42-52 | the end of the part at the offset, exactly when there is one |
| `PointerAddress.PartsAreNumbers` | src/http/routes/addresses.ts:34-41 | a part is exactly the minimal base-128 encoding of a number below 2^64 |
| `PointerAddress.EncodedSpells` | src/http/routes/addresses.ts:34-41 | reading back an encoded number gives the number |
| `PointerAddress.PartIsEncoded` | src/http/routes/addresses.ts:34-41 | encoding what an accepted part spells gives its bytes back |
| `PointerAddress.EncodeIsInjective` | src/http/routes/addresses.ts:39-40 | no two numbers share an encoding |
| `PointerAddress.RangeIsLength` | src/http/routes/addresses.ts:46-48 | the ten-group and first-group rules are exactly the bound 2^64 |
| `PointerAddress.KnownPointer` | src/http/routes/addresses.ts:34-41 | the pointer of the CIP 19 test vectors is encoded as it is there |
| `PointerAddress.HasPointerPayload` | src/http/routes/addresses.ts:54-62 | accepts exactly three such numbers after the first 29 bytes and nothing else |
| `TrustedProxies.IPv6Bytes` | src/config/index.ts:199-213 | the bytes of the eight groups, zeroes where they were compressed, or nothing when the count is wrong |
| `TrustedProxies.SharesPrefix` | src/config/index.ts:217-223 | whether two addresses agree on every one of the first bits |
| `TrustedProxies.Normalize` | src/config/index.ts:231-280 | exactly which entries are refused, and what an accepted one is recorded as |
| `TrustedProxies.NestedOrDisjoint` | src/config/index.ts:216-217 | of two ranges with an address in common, the narrower lies in the wider |
| `TrustedProxies.MappedRangeIsIPv4Range` | src/config/index.ts:265-270 | an entry inside the mapped block matches a mapped peer exactly when its recorded IPv4 range matches the peer |
| `TrustedProxies.OtherRangesAreDisjoint` | src/config/index.ts:253-258 | every other accepted IPv6 range is disjoint from the mapped block |
| `TrustedProxies.RecordKeepsPeers` | src/config/index.ts:253-279 | a record matches exactly the IPv4 peers its entry did, only as an IPv4 range, with at least eight bits |
| `TrustedProxies.ParseTrustedProxies` | src/config/index.ts:225-283 | the list is accepted exactly when every entry is, and trusts exactly the IPv4 peers the entries did |
| `TrustedProxies.FewEntriesLeavePeersOut` | src/config/index.ts:156-167 | fewer than 256 accepted entries never trust every IPv4 peer |
| `ProxyRanges.AgreeIsInRange` | src/config/index.ts:217-223 | addresses share leading bits if and only if their numbers have the same quotient by the size of the range, and so lie in one interval |
| `ProxyRanges.CoversEveryPeer` | src/config/index.ts:271-273 | an IPv6 entry is refused as covering if and only if every mapped IPv4 peer lies in its interval |
| `ProxyRanges.AcceptedExactly` | src/config/index.ts:231-280 | exactly which entries are accepted, in numbers: 8 to 32 bits, 8 to 128 bits leaving some mapped peer out, 104 to 128 bits inside the mapped block |
| `ProxyRanges.TrustsInterval` | src/config/index.ts:217-223 | a range trusts exactly the IPv4 peers of its interval |

## Left out

- HTTP transport, schema validation, routes, the OpenAPI document and logging: an upstream's answer enters as a value that has passed validation, or as a failure.
- Hydration of a history page into full transactions, and the guards against missing or extra rows there.
- `resolveCollateralSpent`, the pool, DRep, proposal and account scans of both drivers, `resolveAdaPoolsBatch` and `expandExponential`: they would add more of the same kinds of loop.
- The textual form of `Content-Range`, of the limit a 413 names and of a proxy list: their parsed values are inputs. So are base58 and bech32 payloads, sixteen-byte IPv6 addresses and the byte lengths of serialized items.
- Strings are sequences of characters compared character by character; UTF-16 code units and locales are not modelled, and epochs are naturals printed in decimal.
- Every synchronous step of the cache reads the clock once, where the source may read it twice within a step.
- `noCache`, which forwards every read, and the per-consumer time-to-live tables.
- Floating-point rounding in the two token buckets: balances and times are real numbers. The pace is taken to be positive and the capacity not negative, which the Blockfrost driver checks of its settings and the price client fixes by a constant.
- How a class method's steps interleave is not expressed in Dafny's methods: `MemoryCache` and `SharedPool` perform one step a call, and the runs are stated over values equal to their states; `PerformAll` and `MapWithConcurrency` make the calls of a run one after another. The parameter decorator and its recovery are modelled on values only.
- BlockfrostHistory.Settle: pulls the pages of a round one address after another, where the source overlaps them; which rows a cursor ends up with does not depend on it. A page that answers 404 after earlier pages did not is not modelled.
- KoiosHistory.BoundedAddressHistoryRows: stated for streams that are each answered truthfully from a fixed, ordered list, as the read promises; what is accepted of any other upstream is `ReadAnswers`, which, as the source, does not compare the totals of its pages. That packing yields one stream for each body is `PackAdaptively`'s.
- KoiosPaging.KeysetWalkIsComplete: takes each answer to be truthful about the rows of its moment; what is accepted of other answers is `KeysetEndsExactly`.
- KoiosOffsets.BatchAllPages: one attempt at the read; that a refused one is tried again is `KoiosClient.Read`'s. Asking for verification without a row key is a refusal like any other, where the source throws a TypeError at once.
- HistoryProviders.FollowCursor: takes both upstreams to tell of one chain that does not change while the client pages through it; a client is not part of the source, which only promises what its cursor is for.
- Credentials.UsedPaymentCredentials: the answer and the bound need probes that are right about their groups; errors are one value.
- TrustedProxies.ParseTrustedProxies: repeats are removed by what an entry means, where the source compares the text; an address that the URL parser cannot read, such as a scoped one, is kept and matches no IPv4 peer.
- Stack depth: skipping a deeply nested item may exhaust the source's stack, which it treats as a refusal.
