# txcache: per-sender transaction lists and the sender registry

A Dafny model of two sequential pieces of the transaction mempool in
`storage/txcache`:

- **The per-sender list** (`txListForSender`). It holds one sender's pending
  transactions sorted by nonce, with running totals of bytes, gas and fee,
  and a resumable copy cursor. The list is a `seq<Node>`. Each operation is a
  pure function that returns the new list together with what the Go method
  returns. The module is `TxListForSender`.
- **Properties that span several list operations.** These are in
  `TxListProperties`:
  - where equal nonces land;
  - why the early stop in the removal scan loses nothing on a sorted list;
  - the add/remove round trip;
  - the fee bookkeeping bug and its correction;
  - the invariants that survive any mix of operations;
  - sweeping the copy cursor.
- **The sender registry** (`txListBySenderMap`). It is a finite map from
  sender to list, plus a live-sender counter. It creates lists lazily, routes
  adds and removes, and drops a sender once its list runs empty. The module is
  `TxListBySenderMap`.
  - The registry is written against a record of list operations (`ListOps`),
    so its contracts hold for any list.
  - The two Go files come from different revisions. The registry calls list
    methods whose signatures differ from the shown list (and one,
    `notifyAccountNonce`, the shown list lacks).
- **Registry properties over runs of operations**, and the registry wired to
  the modelled list. These are in `SenderMapProperties`. The wired list
  removes with the corrected fee bookkeeping (`RemoveTxIntended`, see
  Findings), not the as-written `RemoveTx`. Its answer and remaining nodes
  are provably the same as the as-written removal's, and the registry reads
  nothing else, so every registry fact holds for the shipped list too.

Modelling choices:

- **Transactions.** A transaction is a record `Tx(id, sndAddr, nonce, size,
  gas, fee)`.
  - `id` stands for Go pointer identity, so the identity test in
    `findListElementWithTx` is record equality.
  - `size`, `gas` and `fee` stand for the results of `estimateTxSize`,
    `estimateTxGas` and `estimateTxFee`, whose definitions are not part of
    this model.
- **Totals and counter.** These are unbounded `int`, because the totals can go
  negative after the gas/fee mix-up.
- **The `uint32` conversions.** `HasMoreThan` and the `RemoveSendersBulk`
  counter truncate explicitly.
- **The copy cursor.** It is an index, and `None` stands for nil. An index
  past the end, which only arises after the list has changed, counts as nil.
- **Snapshot order.** The ascending and descending snapshots take the order
  of senders as a parameter. That order is any enumeration of the keys.

## Model

| member | source | states |
|---|---|---|
| TxListForSender.NewTxList | storage/txcache/txListForSender.go:31-37 | a new list belongs to its sender, is empty, sorted, has a nil cursor, and its totals match the (empty) sums |
| TxListForSender.FindTxWithLargerNonce | storage/txcache/txListForSender.go:65-75 | the index returned is an insertion point: every earlier node has a nonce at most the given one, and the node there (if any) a strictly larger one; past the end stands for nil |
| TxListForSender.OnAddedTransaction | storage/txcache/txListForSender.go:59-63 | each total grows by exactly the matching cost of the added transaction; nodes, sender and cursor unchanged |
| TxListForSender.AddTx | storage/txcache/txListForSender.go:39-57 | the length grows by one; the new node sits at the insertion point with all other nodes in their old order; the multiset of nodes grows by exactly the new node; sortedness and both totals invariants are preserved; each total grows by its cost |
| TxListForSender.FindListElementWithTx | storage/txcache/txListForSender.go:126-142 | returns the index where the scan meets the transaction, before any node of larger nonce; nil exactly when the scan meets it nowhere |
| TxListForSender.OnRemovedListElement | storage/txcache/txListForSender.go:93-99 | as written: `totalBytes` loses the size, `totalGas` loses the gas AND the fee, `totalFee` is untouched |
| TxListForSender.RemoveTx | storage/txcache/txListForSender.go:77-91 | true exactly when the scan meets the transaction; on false nothing changes; on true exactly that node is removed, the others keep their order, and the totals change as the removal hook says; sortedness and the bytes invariant are preserved |
| TxListForSender.RemoveFromBack | storage/txcache/txListForSender.go:108-121 | the eviction loop removes `min(count, n)` nodes from the back and returns their hashes highest nonce first; the prefix, sender, cursor and `totalFee` are untouched |
| TxListForSender.RemoveFromBackTotals | storage/txcache/txListForSender.go:110-121 | tail eviction lowers `totalBytes` by the evicted sizes and `totalGas` by the evicted gas plus fees |
| TxListForSender.RemoveFromBackKeepsSlack | storage/txcache/txListForSender.go:110-121 | each eviction step lowers a total and the sum it tracks alike, so their difference is the same before and after |
| TxListForSender.RemoveHighNonceTxs | storage/txcache/txListForSender.go:101-124 | the result has exactly `count` slots: the evicted hashes, highest nonce first, then nil; the last `min(count, n)` nodes are gone and the prefix stays; sortedness and the bytes invariant are preserved |
| TxListForSender.HasMoreThan | storage/txcache/txListForSender.go:144-147 | for lists shorter than 2^32 it answers exactly whether the length exceeds `count`; a true answer always means it does (the cast can only make the length look smaller) |
| TxListForSender.CountTx | storage/txcache/txListForSender.go:221-223 | the count is the number of transactions held |
| TxListProperties.CountTxBookkeeping | storage/txcache/txListForSender.go:221-223 | the count goes up by one on every add, down by one on a successful removal, stays put on a failed one, and drops by `min(count, n)` on tail eviction |
| TxListForSender.IsEmpty | storage/txcache/txListForSender.go:149-152 | true exactly when the list has no nodes |
| TxListForSender.CopyLoop | storage/txcache/txListForSender.go:174-186 | copies the next nodes in order into the destinations, as many as the space, the batch size and the remaining nodes allow, and leaves every other slot as it was |
| TxListForSender.CopyBatchTo | storage/txcache/txListForSender.go:154-188 | copies `min(batchSize, len(destination), remaining)` consecutive nodes from the cursor, or from the front after a reset; no limit when `batchSize` is negative; moves the cursor past them, nil at the end; nodes and totals untouched |
| TxListForSender.GetTxHashes | storage/txcache/txListForSender.go:190-205 | one hash per node, in list order |
| TxListForSender.GetHighestNonceTx | storage/txcache/txListForSender.go:207-219 | nil exactly when empty; otherwise the back transaction, whose nonce is the largest on a sorted list |
| TxListProperties.AddTxPlacement | storage/txcache/txListForSender.go:46-54 | on a sorted list the new node follows every node with a nonce at most its own (equal nonces included) and precedes every node with a larger nonce |
| TxListProperties.RemoveTxFindsEveryPresentTx | storage/txcache/txListForSender.go:127-142 | on a sorted list the early stop is sound: removal succeeds exactly when the transaction is in the list |
| TxListProperties.AddThenRemoveTx | storage/txcache/txListForSender.go:93-99 | adding a new transaction and removing it restores the nodes and `totalBytes`, but leaves `totalGas` low and `totalFee` high by the fee |
| TxListProperties.RemovalBreaksFeeTotal | storage/txcache/txListForSender.go:93-99 | removing a present transaction with a non-zero fee from a sorted list with correct totals succeeds, but leaves `totalFee` above and `totalGas` below their sums by that fee |
| TxListProperties.OnRemovedListElementIntended | storage/txcache/txListForSender.go:93-99 | the corrected hook: each total loses exactly the matching cost |
| TxListProperties.RemoveTxIntended | storage/txcache/txListForSender.go:77-99 | same answer and nodes as `RemoveTx`; on false nothing changes; with the corrected bookkeeping all three totals invariants are preserved |
| TxListProperties.AddThenRemoveTxIntended | storage/txcache/txListForSender.go:93-99 | with the corrected bookkeeping, adding a new transaction and removing it restores the list exactly |
| TxListProperties.RunKeepsSortedAndBytes | storage/txcache/txListForSender.go:39-124 | sortedness and `totalBytes == Σ size` survive any sequence of adds, removals and tail evictions |
| TxListProperties.AddsKeepAllTotals | storage/txcache/txListForSender.go:59-63 | any sequence of adds keeps all three totals equal to their sums |
| TxListProperties.SweepYieldsRest | storage/txcache/txListForSender.go:162-188 | on an unchanged list, calls without reset until one copies nothing hand out exactly the nodes from the cursor to the end, in order |
| TxListProperties.SweepAfterResetYieldsAll | storage/txcache/txListForSender.go:162-188 | a reset call followed by such a sweep hands out every node exactly once, in order |
| TxListProperties.ExhaustedCursorCopiesNothing | storage/txcache/txListForSender.go:167-172 | with the cursor exhausted a call copies nothing and changes nothing |
| TxListProperties.ArrivalOrderScenario | storage/txcache/txListForSender.go:39-124 | nonces arriving as 3, 1, 2 are listed as 1, 2, 3; evicting one transaction removes nonce 3 and leaves nonce 2 as the highest |
| TxListBySenderMap.NewTxListBySenderMap | storage/txcache/txListBySenderMap.go:20-28 | a new registry has no senders and its counter agrees |
| TxListBySenderMap.GetListForSender | storage/txcache/txListBySenderMap.go:55-63 | found exactly when the sender is a key, and then it is that sender's list |
| TxListBySenderMap.AddSender | storage/txcache/txListBySenderMap.go:65-73 | installs a fresh list and increments the counter; for an absent sender the counter invariant is kept, while a present sender would break it |
| TxListBySenderMap.GetOrAddListForSender | storage/txcache/txListBySenderMap.go:37-53 | a present sender's list comes back with nothing changed; otherwise a fresh list is created, inserted and counted; the counter invariant is kept |
| TxListBySenderMap.AddTx | storage/txcache/txListBySenderMap.go:30-35 | afterwards the sender is a key; the result and the sender's new list are what the list's add returned; the keys grow by at most that sender; no other list changes; the counter invariant is kept |
| TxListBySenderMap.RemoveSender | storage/txcache/txListBySenderMap.go:102-110 | false and no change for an absent sender; otherwise that key alone goes, the counter drops by one, and the answer is true |
| TxListBySenderMap.RemoveTx | storage/txcache/txListBySenderMap.go:80-100 | false and no change for an absent sender; otherwise the list's own answer, and the sender is dropped exactly when its list is left empty, found or not; the counter invariant is kept |
| TxListBySenderMap.RemoveSendersFrom | storage/txcache/txListBySenderMap.go:114-120 | the bulk loop removes every named sender, lowering the counter by the number of successful removals |
| TxListBySenderMap.PresentCountIsDistinct | storage/txcache/txListBySenderMap.go:113-123 | the loop succeeds once per distinct named sender that was present, however often it is named |
| TxListBySenderMap.RemoveSendersBulk | storage/txcache/txListBySenderMap.go:112-123 | no named sender is left; the answer is the number of distinct named senders present beforehand, wrapped to 32 bits; the counter invariant is kept |
| TxListBySenderMap.NotifyAccountNonce | storage/txcache/txListBySenderMap.go:125-133 | no-op for an absent sender; otherwise only that sender's list is replaced by the list's notification result; keys and counter unchanged |
| TxListBySenderMap.ListsInOrder | storage/txcache/txListBySenderMap.go:135-155 | a snapshot holds one list per sender, in the given enumeration order, so its length is the counter when the counter agrees |
| TxListBySenderMap.Clear | storage/txcache/txListBySenderMap.go:157-160 | no senders and a zero counter afterwards |
| SenderMapProperties.RunKeepsCounter | storage/txcache/txListBySenderMap.go:65-160 | the counter equals the number of senders after any run of adds, removals, bulk removals, nonce notifications and clears |
| SenderMapProperties.RunKeepsListsNonEmpty | storage/txcache/txListBySenderMap.go:92-97 | if adding never leaves a list empty, no run without nonce notifications leaves an empty list in the registry |
| SenderMapProperties.ShownListOps | storage/txcache/txListForSender.go:39-99 | the modelled list behind the registry's interface, with removal's fee bookkeeping corrected: it is never empty after an add, and its removal gives the same answer and leaves the same nodes as the as-written `RemoveTx` |
| SenderMapProperties.FirstAddThenRemoveLeavesNoSender | storage/txcache/txListBySenderMap.go:80-100 | a sender's first transaction creates and counts its list; removing it again drops the sender, leaving no senders and a zero counter |

## Left out

- Locking and atomics: the list and registry mutexes, the double-checked locking in `getOrAddListForSender` and the atomic counters only matter under concurrency. Each operation is one sequential step, and the two lookups of the double check collapse into one.
- Internals of `maps.BucketSortedMap`: score chunks, `NotifyScoreChange`, the score ordering of the snapshots and the `numberOfScoreChunks` hint are not part of this model. The backing map is a Dafny `map`, and the snapshot order is a parameter.
- The registry's score callback and the cache configuration passed to `newTxListForSender` (txListBySenderMap.go:67, 75-78): the shown list takes neither.
- TxListBySenderMap.AddTx: the registry's revision also expects the list's `AddTx` to return the hashes of evicted transactions (txListBySenderMap.go:31-35). The shown list returns nothing, so the interface carries only the flag.
- The list's `notifyAccountNonce`: it is not in the shown list. It is an opaque parameter of the interface, and the modelled list treats it as a no-op.
- The cost estimators `estimateTxSize`, `estimateTxGas` and `estimateTxFee` are not part of this model. They are fields of the transaction record.
- `data.TransactionHandler` is modelled only through its nonce, sender and identity.
- TxListForSender.CopyBatchTo: Go's `container/list` keeps a cursor on a removed element, and the next call then copies that stale element and stops. The model's cursor is an index that is meaningful only for an unchanged list, so that behaviour is not modelled. Its requires that `destinationHashes` is at least as long as `destination` assumes callers pass slices of equal length. This is stricter than Go, which panics only once `copied` reaches `len(destinationHashes)`. For example, a destination of 3 slots, 1 hash slot and a batch size of 1 copies one node without a panic, but the requires excludes that input.
- TxListForSender.CountTx: the `int64` length conversion is not modelled. Lengths are unbounded naturals, and the running totals do not wrap at 64 bits.
- A corrected `RemoveHighNonceTxs`: tail eviction goes through the same removal hook. The correction is modelled for `RemoveTx` only, and tail eviction is modelled as written.
- `storage/pruning/triePruningStorer_test.go`: these are tests of an on-disk pruning storer whose implementation is not part of this model.
- Logging (`log.Trace`).

## Findings

| source | as written | input that shows it | evidently intended | confidence | as-written member | corrected member |
|---|---|---|---|---|---|---|
| storage/txcache/txListForSender.go:97-98 | on removal the fee is subtracted from `totalGas` (after the gas), and `totalFee` is never lowered | a list holding one transaction with gas 10 and fee 5, with `totalGas` 10 and `totalFee` 5; remove that transaction: `totalGas` becomes -5 and `totalFee` stays 5, while both sums are 0 | subtract the fee from `totalFee` only | high; follows from the code as written, not executed | TxListProperties.RemovalBreaksFeeTotal | TxListProperties.RemoveTxIntended |
