# Verified models of the node's in-memory structures and arithmetic kernels

A Dafny model of the parts of the node whose code is an optimisation of a much
simpler meaning, with proofs that the two agree. Each module stands for one
component and can be read on its own.

* **Coins** — the UTXO cache stack. Caches with DIRTY and FRESH flags, stacked to
  any depth over a store, behave as one plain map from outpoints to unspent coins.
* **AddrBook, AddrMan** — the address manager. Seven indexes change step by step
  through eviction and swap-delete; `Consistent` ties them together, and every
  operation of every run keeps it. In a consistent book the two tables and the
  records determine everything else (`AddrBook.TablesDetermine`), so the contracts
  of the operations speak of tables and records. Of the entries the manager's own
  check asks for one thing more, `TimesOk`, and the operations say exactly when they
  keep that.
* **AddrPolicy** — which entries are of use, how many are handed out, and when an
  announced address is listed, without reference to the code's own order of tests.
* **AddrFile, AddrLoad, AddrStore, AddrCheck** — the address manager's file and its own
  consistency check. Saving and loading gives the same book up to the names of its
  entries, every file that is accepted gives a consistent book and every file whose
  addresses differ does, and the check accepts exactly what it tests for.
* **DbTransaction, DbIterator** — nested write/delete overlays with a staged,
  all-or-nothing commit and exact memory accounting, which behave as a stack of plain
  maps, and a merging iterator that works over another of its kind.
* **CheckQueue** — the script check queue as a system of interleaved steps: what
  Wait answers, when it returns, and that it does return.
* **ArithUint, CompactTarget** — limb arithmetic of any width against arithmetic
  modulo a power of two, the compact target format and block work.
* **SkipList, BlockChain** — how far skip pointers lead and how long the walk along
  them is; skip-list ancestors, the active chain, forks and locators.
* **Cuckoo** — the lossy signature cache: what an insertion conserves and when a new
  epoch begins.
* **Radix, Base58** — Base58 text by rewriting one big number between two bases.
* **Gf32, Bech32** — the checksum as a polynomial remainder over GF(32), and the
  text format (section "Bech32" of BIP 173).
* **CompactBlocks** — taking a compact block in and completing it (sections
  "HeaderAndShortIDs" and "Short transaction IDs" of BIP 152).
* **Sums, Powers, Options** — totals over finite maps; powers of two and division;
  a value that may be missing.

Containers that the program mutates in place are fields of sequence, map or set
type that the methods reassign; fixed-size limb, digit and slot buffers are
arrays. Clock readings, random draws, hash functions, address rules and the order
in which an unordered container is walked are parameters or arbitrary choices.

Where the code differs from what one might expect it is kept as it is, and the
difference is stated exactly:

* `AddCoin` on an outpoint that the view still holds as unspent, with no overwrite
  allowed and no entry cached, marks the new entry FRESH and so breaks the cache's
  invariant. `Coins.CoinsCache.AddCoin` says that the cache stays valid if and only
  if an overwrite was allowed or the view held no coin there, and
  `Coins.AddOverStored` reaches the case.
* `SpendCoin` also returns true when there is no coin to spend, if and only if an
  entry for the outpoint is cached or the store under the cache still holds one
  (`Coins.CoinsCache.SpendCoin`); `Coins.SpendAgain` reaches the case.
* `Good`, `Attempt` and the settling of collisions take a time at or before the epoch
  as it comes. They keep every index consistent all the same, and keep the times as
  the manager's own check wants them if and only if the time is late enough
  (`AddrMan.AddrMan.Good`, `AddrMan.AddrMan.Attempt`, `AddrMan.AddrMan.ResolveOne`).
* The walk along skip pointers is not logarithmic. Below height 2^k it takes at most
  k * k / 4 + 2 * k steps (`SkipList.WalkIsShort`; 117 for the 2^18 blocks that the
  source mentions with 110), and from height 2^k - 1 to height two at least
  (k - 1) * (k - 1) / 4 + k - 2 (`SkipList.WalkIsLong`).
* Bech32 decoding after encoding gives the input back if and only if the prefix is
  non-empty and printable and the text has at most 90 characters
  (`Bech32.ReadText`).

## Model

| member | source | states |
|---|---|---|
| Coins.CacheOkIsSane | src/coins.cpp:326-341 | an entry whose flags keep their promises about the parent view never has one of the three forbidden attribute combinations |
| Coins.Stored | src/coins.cpp:70-108 | storing an entry changes the view at its outpoint only, to the entry's coin or to nothing if it is spent |
| Coins.CleanedView | src/coins.cpp:268-283 | clearing the flags and dropping spent entries of a cache that has just been written to its parent changes neither the view nor the flags' promises |
| Coins.OverlayTwice | src/coins.cpp:255-283 | laying a cache over its own overlay changes nothing, and an empty cache shows its parent, so a cache keeps its view when its base takes that view over |
| Coins.MemoryInUnits | src/memusage.h:52-64 | a script of at most 28 bytes costs no memory, a longer one its length and at least 16 bytes of overhead, rounded to a multiple of 16 |
| Coins.CoinsStore.BatchWrite | src/coins.h:185-219 | the store's view after a batch is the cache's overlay on its old view, whether or not the batch map is erased on the way |
| Coins.CoinsCache.FetchCoin | src/coins.cpp:44-59 | changes no view at any level; an entry is found exactly when cached afterwards, which is when the view has a coin, an entry was cached or the store holds something there, and it shows what the view shows |
| Coins.CoinsCache.GetCoin | src/coins.cpp:61-68 | returns the view's coin, never a spent one, and reports exactly whether there is one |
| Coins.CoinsCache.HaveCoin | src/coins.cpp:163-166 | true exactly when the view has an unspent coin |
| Coins.CoinsCache.AddCoin | src/coins.cpp:70-108 | throws exactly on a forbidden overwrite of a cached coin, otherwise a coin whose script has at most 10000 bytes and does not begin with OP_RETURN is in the view afterwards and any other changes nothing; the cache stays valid if and only if an overwrite was allowed or the view had no coin there |
| Coins.CoinsCache.SpendCoin | src/coins.cpp:130-150 | removes the coin from the view and from nothing else and hands it out if there was one; true exactly when the view has the coin, an entry for it is cached or the store under the cache holds something there, and then only a spent coin is handed out where the view has none |
| Coins.SpendAgain | src/coins.cpp:130-150 | a stored coin spent a second time still answers true, with a spent coin |
| Coins.AddOverStored | src/coins.cpp:70-108 | a coin added over a stored one, with nothing cached and no overwrite allowed, leaves the cache invalid without throwing |
| Coins.CoinsCache.BatchWrite | src/coins.cpp:183-253 | taking a valid child's entries in never meets a misapplied FRESH flag, keeps this cache valid, and makes its view the child's |
| Coins.CoinsCache.Flush | src/coins.cpp:255-266 | empties the cache, leaves its view unchanged and makes the parent's view equal to it; never throws |
| Coins.CoinsCache.Sync | src/coins.cpp:268-283 | leaves the view unchanged, makes the parent's view equal to it, and keeps exactly the unspent entries with clear flags; never throws |
| Coins.CoinsCache.Uncache | src/coins.cpp:285-298 | drops exactly an unflagged entry and changes no view |
| Coins.CoinsCache.SanityCheck | src/coins.cpp:326-341 | succeeds exactly when no entry has one of the three forbidden combinations of dirty, fresh and spent and the usage is the exact sum; a valid cache always succeeds |
| Coins.CoinsCache.AddCoins | src/coins.cpp:118-128 | for every outpoint the view afterwards holds the output of the transaction with that number if it is spendable, with the given height and flags, and otherwise what it held before; never throws within the no-overwrite obligation |
| Coins.CoinsCache.Housekeep | src/coins.cpp:255-298 | a fetch, uncache, sync or flush at any level below the top changes the top view not at all |
| Coins.CoinsCache.Run | src/coins.cpp:44-298 | for every run of operations on a stack of any depth, with mutations at the top and the no-overwrite obligation met, the top view equals a plain map given the same operations and nothing throws |
| AddrBook.SwappedKeeps | src/addrman.cpp:435-457 | exchanging two places of vRandom finds both ids live and keeps every index consistent |
| AddrBook.JoinedKeeps | src/addrman.cpp:419-433 | giving an unknown address a new id keeps every index and counter exact, the entry having no reference yet; ids are not reused |
| AddrBook.DeletedLastKeeps | src/addrman.cpp:459-474 | deleting an unreferenced entry keeps every index and counter exact |
| AddrBook.UnslottedKeeps | src/addrman.cpp:476-492 | emptying an occupied new slot finds a live entry with a reference, and takes exactly that reference back |
| AddrBook.SlottedKeeps | src/addrman.cpp:602-616 | filling an entry's own empty slot keeps its reference count equal to its number of slots |
| AddrBook.DemotedKeeps | src/addrman.cpp:514-530 | the entry in a tried slot is live and without references, and taking it out keeps all other indexes exact |
| AddrBook.PromotedKeeps | src/addrman.cpp:545-550 | putting an unreferenced entry into its free tried slot keeps every index and counter exact |
| AddrBook.TriedUnreferenced | src/addrman.cpp:1068-1076 | a tried entry has no reference from the new table |
| AddrBook.LiveIsStanding | src/addrman.cpp:1046-1149 | in a consistent book the live ids are exactly the ids in the two tables, and an entry is tried exactly when it stands in the tried table |
| AddrBook.TablesDetermine | src/addrman.cpp:1046-1149 | two consistent books with the same tables and records agree on every entry up to its place in vRandom |
| AddrBook.StillFacing | src/addrman.cpp:628-684 | while ids keep their addresses and occupied tried slots stay occupied, every live pending collision keeps facing an occupied slot |
| AddrMan.AddrMan.Find | src/addrman.cpp:406-417 | finds exactly the live entry with an address |
| AddrMan.AddrMan.Create | src/addrman.cpp:419-433 | the new id, its entry, its index entries and counters, and nothing else |
| AddrMan.AddrMan.SwapRandom | src/addrman.cpp:435-457 | both places hold live ids, so no assertion fails; exactly the two places are exchanged |
| AddrMan.AddrMan.Delete | src/addrman.cpp:459-474 | exactly one entry goes, the others change at most their place in vRandom |
| AddrMan.AddrMan.ClearNew | src/addrman.cpp:476-492 | the slot is emptied, its entry loses one reference and is deleted exactly when that was its last |
| AddrMan.AddrMan.Unlist | src/addrman.cpp:498-511 | an early-stopping round over all new buckets removes the entry from every one of its slots, leaving no reference |
| AddrMan.AddrMan.MakeTried | src/addrman.cpp:494-551 | the entry leaves all its new slots and takes its tried slot; the entry in its way goes to its own new bucket, clearing that slot; records are kept and no assertion fails |
| AddrMan.AddrMan.AddSingle | src/addrman.cpp:553-626 | exactly when an announced address gets a slot, which slot, what becomes of its record, and that everything else is kept; unroutable addresses change nothing |
| AddrMan.AddrMan.Good | src/addrman.cpp:628-684 | exactly when an entry moves to the tried table or is noted as a collision, with the resulting tables, record and collision set; unknown addresses change nothing; for any time, and exactly which times keep the times in order |
| AddrMan.GoodTimes | src/addrman.cpp:628-684 | after a report of a connection the times are in order exactly if its time is after the epoch, or is the epoch and the entry is not tried |
| AddrMan.AddrMan.Add | src/addrman.cpp:686-696 | the books in between lead from the book before to the book after, each by what AddSingle does with the next address; reports true exactly if some address got a slot; touches neither the tried table nor the collisions |
| AddrMan.AddTimes | src/addrman.cpp:553-626 | announcing an address keeps the times in order |
| AddrPolicy.UsefulEntries | src/addrman.cpp:67-90 | an entry is worth keeping exactly if it was tried within a minute, or was seen within thirty days and not more than ten minutes ahead, has had a success or fewer than three attempts, and a success within a week or fewer than ten attempts |
| AddrPolicy.RefreshedMeans | src/addrman.cpp:568-578 | what an announcement does to a known entry: its services become the union bit by bit, and its time moves exactly if the announced one, less the penalty, is more than an hour or a day later |
| AddrPolicy.NewcomerListed | src/addrman.cpp:553-626 | an unknown address is listed exactly if it is routable and its slot is empty or held by an entry that is not worth keeping or stands elsewhere too |
| AddrPolicy.KnownListed | src/addrman.cpp:553-626 | a known address gets a further slot exactly if it is routable, the announcement is news, the entry is not tried, has fewer than eight slots and wins the draw at one in two to its slots, and the slot is empty or held by another entry that is not worth keeping |
| AddrMan.AddrMan.Attempt | src/addrman.cpp:698-716 | sets the last try of the address's entry and, if a failure is to be counted and none has been since the last good connection, counts it and notes when; nothing else; the times stay in order exactly if the address is unknown or the time is not before the epoch |
| AddrMan.AddrMan.Connected | src/addrman.cpp:849-866 | moves exactly the last-seen time of the address's entry, and only after twenty minutes |
| AddrMan.AddrMan.SetServices | src/addrman.cpp:868-882 | sets exactly the services of the address's entry |
| AddrMan.AddrMan.ResolveOne | src/addrman.cpp:899-954 | whether a pending collision is dropped, kept or resolved by replacing the tried entry; the branch for an empty slot is dead; the times stay in order exactly if nothing is replaced or the clock is after the epoch |
| AddrMan.EvictsExactly | src/addrman.cpp:899-954 | whose slot it is after a collision has been settled and whether the collision stays pending, by the four hours without a connection and the sixty seconds or forty minutes of the source alone |
| AddrMan.RecentStays | src/addrman.cpp:899-954 | a tried entry that was reached within the last four hours is tried afterwards, and its last connection is not forgotten |
| AddrMan.AddrMan.ResolveCollisions | src/addrman.cpp:895-956 | takes every pending collision once, in ascending order of ids; the books in between lead from the book before to the book after, each by what ResolveOne does with the next id; only ever removes collisions; no tried entry that was reached within four hours of the readings of the clock loses its place |
| AddrMan.AddrMan.SelectTriedCollision | src/addrman.cpp:958-984 | either reports nothing after removing at most one dead id, or returns the live tried entry that occupies the picked id's slot; id -1 is never looked up |
| AddrMan.AddrMan.GetAddr | src/addrman.cpp:811-847 | distinct, live, eligible addresses within the limit; all eligible ones if the limit is not reached; only the order of vRandom changes |
| AddrPolicy.LimitIsLargest | src/addrman.cpp:815-821 | the limit is the largest number within both the percentage and the maximum asked for |
| AddrMan.AddrMan.Run | src/addrman.cpp:419-984 | for every run of operations the book stays consistent, ids are never reused, occupied tried slots stay occupied, every live pending collision faces one and there are at most ten; with clocks after the epoch the times stay in order too |
| AddrFile.WithTriedKeeps | src/addrman.cpp:298-319 | every tried record of a file written from a consistent book finds its slot free, and no entry is lost |
| AddrFile.ApplyStep | src/addrman.cpp:353-382 | every bucket entry of such a file finds its old slot free and its entry short of references, so it goes back to the same bucket and position |
| AddrFile.RoundTrip | src/addrman.cpp:131-404 | loading what was saved from a consistent book of valid addresses, with the same address map, gives a consistent book in which every entry equals its old one in every field but the two that are not saved, and with the same tables, slots, reference counts and counters up to renaming of ids, in whatever order entries are written |
| AddrLoad.AppliedAny | src/addrman.cpp:353-382 | whatever a file's buckets say, applying them keeps all indexes in order, and every valid entry that they name ends with a slot or finds another entry in the slot of its own source |
| AddrLoad.PrunedAny | src/addrman.cpp:384-394 | dropping the entries without a slot, in any order, keeps all indexes in order, drops no other entry and leaves none behind |
| AddrLoad.AnyFile | src/addrman.cpp:229-394 | every file whose records have different addresses gives a consistent book that holds nothing but its records, and loses a valid tried record, or a valid new one that a bucket names, only to another entry in its slot |
| AddrStore.Serialize | src/addrman.cpp:131-227 | the file written by the loops is the saved form of the book, from which every entry can be read back field by field (AddrFile.RoundTrip), and the two count assertions hold |
| AddrStore.WriteBuckets | src/addrman.cpp:210-223 | every bucket is written as the indexes its entries had in the list of new entries |
| AddrStore.Unserialize | src/addrman.cpp:229-404 | for every file the loops build the book the file stands for, and swap-delete never meets a dead place; a file is refused exactly when its lowest reader version is below 32 or above 36, it has more than 65536 new or 16384 tried records, or its book fails the check; every book it accepts is consistent; if the records have different addresses the book is consistent, and the check fails exactly for times out of order or a null key |
| AddrStore.SavedFits | src/addrman.cpp:249-285 | a consistent book has no more new and tried entries than the tables have slots, so its file is never refused as incompatible or too large |
| AddrStore.Reload | src/addrman.cpp:131-404 | saving and loading a consistent manager of valid addresses gives the same book up to names, every saved field of every entry included, and is accepted exactly when the saved times make sense and the key is not null |
| AddrCheck.CheckAddrman | src/addrman.cpp:1046-1149 | the check returns 0 exactly for the books that meet what it tests: every entry, both tables in both directions, exact totals, a key that is not null and the recorded network counts; any other code names something that is wrong |
| AddrCheck.ConsistentPasses | src/addrman.cpp:1046-1149 | a consistent book passes the check exactly when its times are in order and its key is not null |
| AddrCheck.PassesMeans | src/addrman.cpp:1046-1149 | a book that passes the check has vRandom and entries in step, times in order, no unreferenced entry, every address indexed, both tables in order, exact totals and a key |
| AddrCheck.PassingIsConsistent | src/addrman.cpp:397-403 | the check is all that loading needs: a book read from any file at all, repeated addresses included, is consistent once it passes |
| DbTransaction.Written | src/dbwrapper.h:693-717 | moving a key from the deletes to the writes sets it in the view and changes the pending size by exactly its charges |
| DbTransaction.Erased | src/dbwrapper.h:765-775 | moving a key from the writes to the deletes removes it from the view and changes the pending size by exactly its charges |
| DbTransaction.OverlayTwice | src/dbwrapper.h:783-860 | laying one overlay over another is one overlay in which the inner one's writes and deletes win |
| DbTransaction.Transaction.Write | src/dbwrapper.h:693-717 | sets one key of the view, keeps writes and deletes disjoint and the memory usage exact |
| DbTransaction.Transaction.Erase | src/dbwrapper.h:765-775 | removes one key from the view, keeps writes and deletes disjoint and the memory usage exact |
| DbTransaction.Transaction.Read | src/dbwrapper.h:724-741 | returns what the view through all enclosing transactions holds, at any depth |
| DbTransaction.Transaction.Exists | src/dbwrapper.h:748-758 | true exactly when the view has the key, at any depth |
| DbTransaction.Transaction.Clear | src/dbwrapper.h:777-781 | drops everything pending, so that the view is the parent's |
| DbTransaction.Transaction.Commit | src/dbwrapper.h:783-860 | either nothing changes or the enclosing transaction's view becomes this one's view before the commit, this one becomes clean, and both keep exact memory accounting; what lies further out is unchanged |
| DbTransaction.Transaction.CommitTo | src/dbwrapper.h:783-860 | replaying the batch afterwards gives the overlay of the transaction on what the batch gave before |
| DbTransaction.Transaction.CommitRoot | src/evo/evodb.cpp:54-62 | committing the outermost transaction by way of a batch makes the store hold what the transaction showed |
| DbTransaction.Transaction.CommitAt | src/dbwrapper.h:783-860 | a commit at any level copies what that level shows to the level around it and changes no other; it throws exactly if the memory for the staged copy is not there, and then changes nothing |
| DbTransaction.Transaction.Run | src/dbwrapper.h:693-860 | for every stack of transactions and every run of writes, erases and clears at the innermost level and commits at any, the views equal a stack of plain maps, writes and deletes stay disjoint and the memory accounting exact at every level; only a commit that is short of memory throws |
| DbIterator.LessTotal | src/dbwrapper.h:640-649 | the order of serialised keys is total and irreflexive |
| DbIterator.LessIsLexicographic | src/dbwrapper.h:640-649 | one key comes before another exactly if at the first byte where they part its byte is the smaller, or it is a proper prefix |
| DbIterator.Decided | src/dbwrapper.h:615-627 | the smaller of the two positions, past deleted and overwritten parent keys, is the first key of the overlay view |
| DbIterator.TxnIterator.SkipDeletedAndOverwritten | src/dbwrapper.h:605-613 | the parent iterator stops at its first key that is neither deleted nor overwritten |
| DbIterator.TxnIterator.Next | src/dbwrapper.h:540-553 | moves to the first key of the view after the current one |
| DbIterator.TxnIterator.SeekToFirst | src/dbwrapper.h:516-521 | stands at the first key of the view |
| DbIterator.TxnIterator.Seek | src/dbwrapper.h:528-533 | stands at the first key of the view not below the given one |
| DbIterator.TxnIterator.GetValue | src/dbwrapper.h:592-602 | the value the overlay view has for the current key |
| DbIterator.Scan | src/dbwrapper.h:507-627 | from the start point to the end the iterator visits exactly the overlay view's keys that do not come before it in byte order, each once, in increasing byte order and with its overlay value, however deep the nesting |
| CheckQueue.BatchSize | src/checkqueue.h:107-112 | a batch has at least one check, never more than are queued, and more than one only up to the limit |
| CheckQueue.BatchIsShare | src/checkqueue.h:107-112 | a batch of more than one check leaves as much for every other running or idle thread and one more, and short of the limit no larger one does |
| CheckQueue.TakeBatch | src/checkqueue.h:107-119 | takes exactly the last checks of the queue, never pops an empty one, and is what the step system does for a thread that finds checks |
| CheckQueue.RunBatch | src/checkqueue.h:120-127 | the result is whether all went well so far and every check of the batch passes, and a run of that many Execute steps of the thread ends with it |
| CheckQueue.BatchVerdict | src/checkqueue.h:120-127 | until it finishes, a thread keeps its batch whatever the others do, and its verdict is that of the checks it has run |
| CheckQueue.StepKeepsInv | src/checkqueue.h:68-129 | every step of a worker or the master that can be taken is safe and keeps the invariant on counts, results and sleepers |
| CheckQueue.EveryInterleaving | src/checkqueue.h:68-186 | for every interleaving each Wait returned true exactly when every check of its round passes, the to-do count is queued plus in flight, no enabled step can go wrong, and a master asleep without a pending wake-up has a worker holding checks |
| CheckQueue.ReturnMeansDone | src/checkqueue.h:76-102 | when Wait returns nothing is queued or in flight, nothing leaks into the next round, and the result is that of this round's checks |
| CheckQueue.ReturnsExactly | src/checkqueue.h:76-102 | Wait returns at exactly those steps at which the master looks, the queue is empty and nothing is left to do |
| CheckQueue.WaitReturns | src/checkqueue.h:68-129 | once the master waits, every run without spurious wake-ups in which Wait has not returned is at most as long as what was left to do, and some thread can go on, so Wait returns under every schedule |
| CheckQueue.WaitCanReturn | src/checkqueue.h:68-129 | from every state with the master inside some run ends with Wait returning whether every check of the round passes |
| CheckQueue.NothingLost | src/checkqueue.h:68-186 | in every run the checks answered for by returned Waits and those of the current round are, in order, the checks that were added |
| CheckQueue.EveryWaitReturns | src/checkqueue.h:68-186 | from every state that a run of a new queue reaches with the master inside, Wait can return, and no check has been lost or answered for twice |
| ArithUint.Add | src/arith_uint256.h:127-137 | limb addition is addition modulo 2^BITS, for every width |
| ArithUint.Negate | src/arith_uint256.h:69-76 | complement and increment is negation modulo 2^BITS |
| ArithUint.Sub | src/arith_uint256.h:139-143 | subtraction by adding the negation is subtraction modulo 2^BITS |
| ArithUint.Increment | src/arith_uint256.h:165-172 | the rippling increment is adding one modulo 2^BITS |
| ArithUint.MulSmall | src/arith_uint256.cpp:54-64 | multiplying by a 32-bit number is exact modulo 2^BITS |
| ArithUint.Mul | src/arith_uint256.cpp:66-80 | schoolbook multiplication is multiplication modulo 2^BITS |
| ArithUint.ProductFits | src/arith_uint256.cpp:72-74 | carry plus accumulator plus limb product never exceeds 64 bits |
| ArithUint.ShiftLeft | src/arith_uint256.cpp:20-35 | left shift is multiplication by a power of two modulo 2^BITS |
| ArithUint.ShiftRight | src/arith_uint256.cpp:37-52 | right shift is the floor quotient by a power of two |
| ArithUint.CompareTo | src/arith_uint256.cpp:108-118 | the limb comparison is the comparison of values |
| ArithUint.EqualTo | src/arith_uint256.cpp:120-132 | equality with a 64-bit number is equality of values |
| ArithUint.Bits | src/arith_uint256.cpp:178-191 | the bit length: the value lies between the two neighbouring powers of two |
| ArithUint.Div | src/arith_uint256.cpp:82-106 | throws exactly for a zero divisor; otherwise the floor quotient, with the true remainder left in the working copy |
| CompactTarget.OverflowTest | src/arith_uint256.cpp:212-214 | the three-way test on size and mantissa says exactly whether the number needs more than 256 bits |
| CompactTarget.SetCompact | src/arith_uint256.cpp:198-216 | the value modulo 2^256 of the compact number, and exactly when the sign and overflow flags are set |
| CompactTarget.GetCompact | src/arith_uint256.cpp:218-239 | the compact form of a number, from its byte length and leading bytes |
| CompactTarget.CompactRoundTrip | src/arith_uint256.cpp:198-239 | decoding an encoded number gives it with only low-order bytes cleared and with the sign it was given unless it is zero, and re-encoding is stable |
| CompactTarget.Reencode | src/arith_uint256.cpp:198-239 | encoding, decoding and encoding again gives the same compact form, no overflow, the sign unless the number is zero, and loses only the lowest bytes |
| CompactTarget.WorkFormula | src/chain.cpp:141-144 | the complement form of the quotient equals the quotient of 2^256 by the target plus one, which fits |
| CompactTarget.GetBlockProof | src/chain.cpp:132-145 | for every 32-bit nBits it does not divide by zero; the work W of a valid proof-of-stake target T satisfies W * (T + 1) <= 2^256 < (W + 1) * (T + 1), a valid proof-of-work target has work 1, and a negative, overflowing or zero one has none |
| SkipList.InvertLowestOneClears | src/chain.cpp:80-81 | clears exactly the lowest set bit |
| SkipList.SkipHeightOnes | src/chain.cpp:83-92 | a skip from an even height clears one bit; one from an odd height clears two above the last, as far as there are any, and stays odd |
| SkipList.WalkIsShort | src/chain.cpp:83-119 | from any height below 2^k to any height below it the walk takes at most k * k / 4 + 2 * k steps |
| SkipList.WalkIsLong | src/chain.cpp:83-119 | from height 2^k - 1 to height two it takes at least (k - 1) * (k - 1) / 4 + k - 2 steps, so no logarithmic bound holds |
| BlockChain.BlockIndex.GetAncestor | src/chain.cpp:94-119 | with every skip pointer right, the walk terminates, never meets a missing parent, and returns exactly the block that walking parents reaches; with no skip pointer missing, within the bound on steps |
| BlockChain.BlockIndex.BuildSkip | src/chain.cpp:126-130 | sets the skip pointer to the ancestor at the skip height and keeps every skip pointer of the tree right |
| BlockChain.TreeGrows | src/chain.h:139-152 | a block added on top of a tree with right skip pointers keeps it so |
| BlockChain.Chain.SetTip | src/chain.cpp:20-30 | every slot holds the tip's ancestor at its height although the loop stops at the first slot that is right |
| BlockChain.Chain.FindFork | src/chain.cpp:61-70 | the highest ancestor of a block that lies in the chain, or null if none does |
| BlockChain.LastCommonAncestor | src/chain.cpp:164-181 | the highest block that two blocks have as a common ancestor, or null; the closing assertion holds |
| BlockChain.LocatorEntries | src/chain.cpp:32-49 | the ancestors at depths 0 to 10 and then at 9 plus each power of two, down to height zero; logarithmically many |
| Cuckoo.FastRange | src/cuckoocache.h:239-249 | the scaled hash lies within the table, and its share of the table is the hash's share of 2^32 |
| Cuckoo.LiveUpdate | src/cuckoocache.h:389-445 | overwriting one slot exchanges exactly what that slot contributed to the live elements |
| Cuckoo.AgedRollsOver | src/cuckoocache.h:285-317 | ageing turns the live elements of the current epoch into those of the old one, with their multiplicities, drops the old ones, and leaves the current epoch empty; the number counted for it is that of the current epoch's live elements |
| Cuckoo.Cache.constructor | src/cuckoocache.h:336-349 | a new cache has the given size, at least two slots, nothing live and an epoch ahead, which is 45 percent of its slots where 45 times their number fits in 32 bits, and at least one |
| Cuckoo.Cache.EpochCheck | src/cuckoocache.h:285-317 | a new epoch begins exactly if the wait is over and the current epoch has as many live elements as an epoch takes: then the current elements become the old ones, the old ones go, and the wait starts again; otherwise nothing changes and the wait is exact |
| Cuckoo.Cache.Insert | src/cuckoocache.h:389-445 | after the epoch check, which is exact, the live elements afterwards together with at most one dropped element are those before together with the new one, each with its epoch mark; nothing but an older copy is dropped if the element is there already or one of its slots is garbage; every live element stays in one of its eight slots |
| Cuckoo.Cache.Contains | src/cuckoocache.h:466-476 | never misses a live element, answers by the table alone, and erasing turns at most the one slot found into garbage |
| Cuckoo.EraseThenFind | src/cuckoocache.h:442-455 | looking an element up for erasure and then again always succeeds the second time if it did the first |
| Radix.CanonicalIsDigits | src/base58.cpp:74-83 | digits without a leading zero are determined by their value |
| Base58.LetterAndBack | src/base58.cpp:18-36 | the table maps every letter of the alphabet back to its digit, and no letter is a space |
| Base58.Alphabet | src/base58.cpp:18-36 | the letters ascend with their digits, and are the digits and Latin letters but for 0, I, O and l |
| Base58.ScaledMeans | src/base58.cpp:104-108 | one pass over the digits multiplies and adds exactly, up to the carry that is left |
| Base58.MulAdd | src/base58.cpp:60-68 | the in-place pass stops where the carry dies out, keeps the leading digit in use non-zero, and leaves no carry when the result fits |
| Base58.EncodeFits | src/base58.cpp:97-110 | 138 base-58 digits per 100 bytes suffice at every length, so the carry assertion holds |
| Base58.DecodeFits | src/base58.cpp:52-67 | 733 bytes per 1000 base-58 digits suffice at every length, so the carry assertion holds |
| Base58.EncodeBase58 | src/base58.cpp:87-125 | a '1' per leading zero byte followed by the base-58 digits of the number the rest stands for |
| Base58.DecodeBase58 | src/base58.cpp:38-133 | the bytes a text stands for, or failure exactly for text that is not spaces, alphabet, spaces, or that exceeds the limit |
| Base58.DecodeEncoded | src/base58.cpp:38-125 | decoding what was encoded gives the bytes back exactly when they are within the limit |
| Base58.EncodeDecoded | src/base58.cpp:38-125 | encoding what was decoded gives the text back without its surrounding spaces |
| Base58.EncodeBase58Check | src/base58.cpp:135-142 | the text of the bytes followed by the first four bytes of their hash |
| Base58.DecodeBase58Check | src/base58.cpp:144-167 | succeeds exactly when the text stands for some bytes followed by their checksum, and returns those bytes |
| Base58.CheckedRoundTrip | src/base58.cpp:135-167 | checked text reads back exactly when bytes and checksum are within the widened limit |
| Gf32.MulLinear | src/bech32.cpp:47-54 | multiplication in GF(32) distributes over addition |
| Gf32.Mul18 | src/bech32.cpp:38-45 | the generator's last coefficient times a field element is zero only for zero |
| Gf32.StepInjective | src/bech32.cpp:80-92 | appending a symbol keeps different remainders different |
| Gf32.AppendDivides | src/bech32.cpp:33-92 | for every polynomial some quotient times the generator plus the remainder computed step by step is the polynomial |
| Gf32.DivisionUnique | src/bech32.cpp:33-92 | quotient and remainder of a polynomial by the generator are determined |
| Gf32.AppendIsRemainder | src/bech32.cpp:33-92 | the remainder computed step by step is the remainder of the division and nothing else is |
| Gf32.WindowAdds | src/bech32.cpp:62-66 | symbols in a window of at most six add themselves to the remainder that zeroes there would give |
| Bech32.Constants | src/bech32.cpp:111-115 | the five constants of the loop are x^6 modulo the generator times the powers of the field's primitive element |
| Bech32.PolyMod | src/bech32.cpp:33-119 | the bit-packed loop computes the remainder of the polynomial modulo the generator |
| Bech32.ExpandHRP | src/bech32.cpp:128-140 | high bits, a zero, low bits of the prefix: every character is 32 times its high part plus its low part |
| Bech32.VerifyChecksum | src/bech32.cpp:143-151 | accepts exactly when the remainder of prefix and data is one |
| Bech32.CreateChecksum | src/bech32.cpp:154-165 | the six coefficients of the remainder of prefix, data and six zeroes, plus one |
| Bech32.ChecksumUnique | src/bech32.cpp:143-165 | exactly one six-symbol ending makes a data part acceptable, and it is the checksum created |
| Bech32.ErrorsDetected | src/bech32.cpp:33-151 | for data of any length, every change confined to six consecutive symbols of an accepted sequence, so every change of one symbol, is rejected |
| Bech32.Encode | src/bech32.cpp:173-186 | prefix, separator, and the letters of data and checksum |
| Bech32.Decode | src/bech32.cpp:189-220 | prefix in lower case and data without checksum, or failure exactly for an ill-formed or unaccepted text |
| Bech32.ReadText | src/bech32.cpp:173-220 | decoding what was encoded gives prefix and data back, exactly for non-empty printable prefixes and texts of at most 90 characters |
| Bech32.TextOfRead | src/bech32.cpp:173-220 | encoding what was decoded gives the text back in lower case |
| CompactBlocks.Announce | src/blockencodings.cpp:21-31 | the first transaction is sent along and the others are short ids, in order |
| CompactBlocks.FreeUnique | src/blockencodings.cpp:86-90 | the i-th empty slot is unique, and later ids get later slots |
| CompactBlocks.PlacesFromDifferences | src/blockencodings.cpp:63-79 | the place of a transaction sent along is the one that differences between neighbours, less one, determine |
| CompactBlocks.MapShortIds | src/blockencodings.cpp:85-107 | never looks outside the slots; on success the i-th short id owns the i-th slot not filled by a transaction sent along; fails exactly for repeated ids or an overfull bucket |
| CompactBlocks.Scan | src/blockencodings.cpp:109-167 | fills only slots by the transactions that own them, counts exactly, and leaves a slot empty only if no transaction at hand or more than one owns it |
| CompactBlocks.PartialBlock.PlacePrefilled | src/blockencodings.cpp:63-79 | never writes outside the slots, refuses exactly the placements that are null, too far or leave a gap, and puts every accepted transaction in its place |
| CompactBlocks.PartialBlock.InitData | src/blockencodings.cpp:51-172 | exactly which announcements are invalid, by their header, counts and placements, and which others fail, and for accepted ones the placement, the mapping and where every further transaction came from |
| CompactBlocks.PartialBlock.FillBlock | src/blockencodings.cpp:181-220 | header, signature and the slots completed by the missing transactions in order; invalid exactly without a header or with the wrong number of them; usable once |
| CompactBlocks.RebuiltFaithful | src/blockencodings.cpp:51-172 | from an announcement of a block, and when whatever shares a short id with one of its transactions is that transaction, every filled slot holds the block's own transaction |
| CompactBlocks.MergeMissing | src/blockencodings.cpp:189-198 | the missing transactions in order complete such slots to the block's own list |
| CompactBlocks.Relay | src/blockencodings.cpp:21-220 | announcing, taking in, asking for what is missing and filling in gives the same header, signature and transactions, and fails exactly when short ids collide, a bucket is overfull or the block is found mutated |

## Left out

- Files, sockets, RPC, I2P, LevelDB itself, command-line tools, logging and start-up: input, output and foreign calls.
- Cryptography and hashing: hashes are arbitrary functions within their ranges.
- Random selection weights: the address manager's Select and GetChance work in floating point; random draws elsewhere are arbitrary choices.
- Locks and memory order: the address manager, caches and transactions are sequential here; only the check queue is modelled with interleavings, and its stop request is not.
- The UTXO cache's best-block hash, failed flushes, EmplaceCoinInternalDANGER and the state after AddCoin throws; the vector growth slack in memory usage.
- Aliasing: references into the address map are modelled by ids, and the bucket tables are sequence-valued fields rather than arrays.
- AddrStore.Unserialize: the stream itself and its errors are not modelled; the file is a value whose lists have the lengths it states, and its key stands for the bucket functions it determines and for whether it is null.
- AddrCheck.CheckAddrman: of the codes for the two tables it says only that the table is not in order, and no entry has the id that marks an empty slot.
- CheckQueue.EveryInterleaving: critical sections are atomic steps and there is no stop request.
- Cuckoo.Cache.constructor: the depth limit is a parameter, because the source computes it by a floating-point logarithm; collection flags are booleans, not packed atomic bits.
- Base58 text is a sequence of characters; int overflow of lengths beyond two gigabytes is not modelled.
- CompactBlocks.PartialBlock.InitData: the transaction count limit of 65535 that the deserializer enforces is required; hash bucket sizes are an arbitrary condition; nothing is said about the logging counter for extra transactions.
- CompactBlocks.PartialBlock.FillBlock: says nothing of the slots after it reports too few missing transactions.
- The differential index formatter, amount and script compression, compact filters, ban list, GetBlockProofEquivalentTime, CacheMap and CacheMultiMap: easier members, or without a clean meaning.
