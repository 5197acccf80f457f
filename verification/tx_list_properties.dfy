/** Properties of `txListForSender` that relate several operations: where
    equal nonces land, why the early stop of the removal scan is sound on a
    sorted list, what survives any mix of operations, the add/remove round
    trip (and the gas/fee mix-up it exposes), and the resumable copy cursor. */
module TxListProperties {
  import opened Wrappers
  import opened Transaction
  import opened TxListForSender

  // ---------------------------------------------------------------------------
  // Insertion and removal

  /** On a sorted list the new node sits at the insertion point, after every
      node with a nonce at most its own (equal nonces included) and before
      every node with a larger nonce. */
  lemma AddTxPlacement(l: TxList, txHash: Hash, tx: Tx)
    requires Sorted(l.items)
    ensures var r := AddTx(l, txHash, tx);
      var k := FindTxWithLargerNonce(l.items, tx.nonce);
      && r.items[k] == Node(txHash, tx)
      && (forall j :: 0 <= j < k ==> r.items[j] == l.items[j] && r.items[j].tx.nonce <= tx.nonce)
      && (forall j :: k < j < |r.items| ==> r.items[j] == l.items[j - 1] && r.items[j].tx.nonce > tx.nonce)
  {
    var r := AddTx(l, txHash, tx);
    var k := FindTxWithLargerNonce(l.items, tx.nonce);
    assert r.items == l.items[..k] + [Node(txHash, tx)] + l.items[k..];
    forall j | k < j < |r.items|
      ensures r.items[j] == l.items[j - 1] && r.items[j].tx.nonce > tx.nonce
    {
      assert r.items[j] == l.items[j - 1];
      assert l.items[k].tx.nonce <= l.items[j - 1].tx.nonce;
    }
  }

  /** On a sorted list the early stop of `findListElementWithTx` loses
      nothing: `RemoveTx` removes `tx` exactly when `tx` is in the list. */
  lemma RemoveTxFindsEveryPresentTx(l: TxList, tx: Tx)
    requires Sorted(l.items)
    ensures RemoveTx(l, tx).1 <==> exists i :: 0 <= i < |l.items| && l.items[i].tx == tx
  {
    if i :| 0 <= i < |l.items| && l.items[i].tx == tx {
      FirstOccurrenceIsFirstMatch(l.items, tx, i);
    }
  }

  lemma {:induction false} FirstOccurrenceIsFirstMatch(items: seq<Node>, tx: Tx, i: nat)
    requires Sorted(items)
    requires i < |items| && items[i].tx == tx
    ensures exists i0 :: FirstMatch(items, tx, i0)
    decreases i
  {
    if j :| 0 <= j < i && items[j].tx == tx {
      FirstOccurrenceIsFirstMatch(items, tx, j);
    } else {
      assert FirstMatch(items, tx, i);
    }
  }

  /** Adding a transaction that is not yet in the list and then removing it
      gives back the same nodes and the same `totalBytes`, but, as written,
      `totalGas` ends up lower and `totalFee` higher by the fee. */
  lemma AddThenRemoveTx(l: TxList, txHash: Hash, tx: Tx)
    requires forall j :: 0 <= j < |l.items| ==> l.items[j].tx != tx
    ensures RemoveTx(AddTx(l, txHash, tx), tx)
      == (l.(totalGas := l.totalGas - EstimateTxFee(tx), totalFee := l.totalFee + EstimateTxFee(tx)), true)
  {
    var k := AddedAtFirstMatch(l, txHash, tx);
    RemoveAddedAt(l, AddTx(l, txHash, tx), tx, k);
  }

  /** Removing the node the scan meets first from a list that is `l` plus
      that node restores `l`, up to the gas/fee mix-up. */
  lemma RemoveAddedAt(l: TxList, a: TxList, tx: Tx, k: nat)
    requires FirstMatch(a.items, tx, k) && a.items[..k] + a.items[k+1..] == l.items
    requires a.sender == l.sender && a.copyBatchIndex == l.copyBatchIndex
    requires a.totalBytes == l.totalBytes + EstimateTxSize(tx)
    requires a.totalGas == l.totalGas + EstimateTxGas(tx)
    requires a.totalFee == l.totalFee + EstimateTxFee(tx)
    ensures RemoveTx(a, tx)
      == (l.(totalGas := l.totalGas - EstimateTxFee(tx), totalFee := l.totalFee + EstimateTxFee(tx)), true)
  {
    RemoveAtFirstMatch(a, tx, k);
    var b := a.(items := a.items[..k] + a.items[k+1..],
                totalBytes := a.totalBytes - EstimateTxSize(tx),
                totalGas := a.totalGas - EstimateTxGas(tx) - EstimateTxFee(tx));
    SameFields(b, l.(totalGas := l.totalGas - EstimateTxFee(tx), totalFee := l.totalFee + EstimateTxFee(tx)));
  }

  /** Two lists with the same fields are the same list. */
  lemma SameFields(x: TxList, y: TxList)
    requires x.sender == y.sender && x.items == y.items && x.copyBatchIndex == y.copyBatchIndex
    requires x.totalBytes == y.totalBytes && x.totalGas == y.totalGas && x.totalFee == y.totalFee
    ensures x == y
  {
  }

  /** What `RemoveTx` returns once the scan's first match is known. */
  lemma RemoveAtFirstMatch(l: TxList, tx: Tx, k: nat)
    requires FirstMatch(l.items, tx, k)
    ensures RemoveTx(l, tx) == (l.(items := l.items[..k] + l.items[k+1..],
                                   totalBytes := l.totalBytes - EstimateTxSize(tx),
                                   totalGas := l.totalGas - EstimateTxGas(tx) - EstimateTxFee(tx)), true)
  {
    var r := RemoveTx(l, tx);
    assert r.1;
  }

  /** The node `AddTx` inserts is the first one the removal scan meets,
      provided the transaction was not in the list before. */
  lemma AddedAtFirstMatch(l: TxList, txHash: Hash, tx: Tx) returns (k: nat)
    requires forall j :: 0 <= j < |l.items| ==> l.items[j].tx != tx
    ensures FirstMatch(AddTx(l, txHash, tx).items, tx, k)
    ensures AddTx(l, txHash, tx).items[..k] + AddTx(l, txHash, tx).items[k+1..] == l.items
  {
    var a := AddTx(l, txHash, tx);
    k := FindTxWithLargerNonce(l.items, tx.nonce);
    assert a.items == l.items[..k] + [Node(txHash, tx)] + l.items[k..];
    assert a.items[..k] == l.items[..k];
    assert a.items[k+1..] == l.items[k..];
    assert l.items == l.items[..k] + l.items[k..];
  }

  /** `onRemovedListElement` as evidently intended: each total loses the
      matching cost. */
  function OnRemovedListElementIntended(l: TxList, n: Node): (r: TxList)
    ensures r.items == l.items && r.sender == l.sender && r.copyBatchIndex == l.copyBatchIndex
    ensures r.totalBytes == l.totalBytes - EstimateTxSize(n.tx)
    ensures r.totalGas == l.totalGas - EstimateTxGas(n.tx)
    ensures r.totalFee == l.totalFee - EstimateTxFee(n.tx)
  {
    l.(totalBytes := l.totalBytes - EstimateTxSize(n.tx),
       totalGas := l.totalGas - EstimateTxGas(n.tx),
       totalFee := l.totalFee - EstimateTxFee(n.tx))
  }

  /** `RemoveTx` with the intended bookkeeping. */
  function RemoveTxIntended(l: TxList, tx: Tx): (r: (TxList, bool))
    ensures r.1 == RemoveTx(l, tx).1 && r.0.items == RemoveTx(l, tx).0.items
    ensures !r.1 ==> r.0 == l
    ensures forall i :: FirstMatch(l.items, tx, i) ==>
      && r.0.totalBytes == l.totalBytes - EstimateTxSize(tx)
      && r.0.totalGas == l.totalGas - EstimateTxGas(tx)
      && r.0.totalFee == l.totalFee - EstimateTxFee(tx)
    ensures r.0.sender == l.sender && r.0.copyBatchIndex == l.copyBatchIndex
    ensures TotalsConsistent(l) ==> TotalsConsistent(r.0)
  {
    match FindListElementWithTx(l.items, tx)
    case None => (l, false)
    case Some(i) =>
      TotalWithout(l.items, i, Bytes);
      TotalWithout(l.items, i, Gas);
      TotalWithout(l.items, i, Fee);
      (OnRemovedListElementIntended(l.(items := l.items[..i] + l.items[i+1..]), l.items[i]), true)
  }

  /** With the intended bookkeeping the add/remove round trip restores the
      list exactly. */
  lemma AddThenRemoveTxIntended(l: TxList, txHash: Hash, tx: Tx)
    requires forall j :: 0 <= j < |l.items| ==> l.items[j].tx != tx
    ensures RemoveTxIntended(AddTx(l, txHash, tx), tx) == (l, true)
  {
    var k := AddedAtFirstMatch(l, txHash, tx);
    RemoveIntendedAddedAt(l, AddTx(l, txHash, tx), tx, k);
  }

  /** With the intended bookkeeping, removing the node the scan meets first
      from a list that is `l` plus that node restores `l` exactly. */
  lemma RemoveIntendedAddedAt(l: TxList, a: TxList, tx: Tx, k: nat)
    requires FirstMatch(a.items, tx, k) && a.items[..k] + a.items[k+1..] == l.items
    requires a.sender == l.sender && a.copyBatchIndex == l.copyBatchIndex
    requires a.totalBytes == l.totalBytes + EstimateTxSize(tx)
    requires a.totalGas == l.totalGas + EstimateTxGas(tx)
    requires a.totalFee == l.totalFee + EstimateTxFee(tx)
    ensures RemoveTxIntended(a, tx) == (l, true)
  {
    RemoveIntendedAtFirstMatch(a, tx, k);
    var b := a.(items := a.items[..k] + a.items[k+1..],
                totalBytes := a.totalBytes - EstimateTxSize(tx),
                totalGas := a.totalGas - EstimateTxGas(tx),
                totalFee := a.totalFee - EstimateTxFee(tx));
    SameFields(b, l);
  }

  /** What `RemoveTxIntended` returns once the scan's first match is known. */
  lemma RemoveIntendedAtFirstMatch(l: TxList, tx: Tx, k: nat)
    requires FirstMatch(l.items, tx, k)
    ensures RemoveTxIntended(l, tx) == (l.(items := l.items[..k] + l.items[k+1..],
                                           totalBytes := l.totalBytes - EstimateTxSize(tx),
                                           totalGas := l.totalGas - EstimateTxGas(tx),
                                           totalFee := l.totalFee - EstimateTxFee(tx)), true)
  {
    var r := RemoveTxIntended(l, tx);
    assert RemoveTx(l, tx).1;
  }

  /** As written, removal breaks the fee total: removing any transaction
      with a non-zero fee from a sorted list whose totals are right leaves
      `totalFee` above the sum of the remaining fees, and `totalGas` below
      the sum of the remaining gas, by that fee. */
  lemma RemovalBreaksFeeTotal(l: TxList, tx: Tx)
    requires Sorted(l.items) && TotalsConsistent(l)
    requires exists j :: 0 <= j < |l.items| && l.items[j].tx == tx
    requires EstimateTxFee(tx) > 0
    ensures var r := RemoveTx(l, tx);
      && r.1
      && r.0.totalFee == Total(r.0.items, Fee) + EstimateTxFee(tx)
      && r.0.totalGas == Total(r.0.items, Gas) - EstimateTxFee(tx)
      && !TotalsConsistent(r.0)
  {
    RemoveTxFindsEveryPresentTx(l, tx);
    var i :| FirstMatch(l.items, tx, i);
    TotalWithout(l.items, i, Gas);
    TotalWithout(l.items, i, Fee);
  }

  /** The count follows every mutation: one more after an add, one fewer
      after a successful removal, none fewer after a failed one, and
      `min(count, n)` fewer after tail eviction. */
  lemma CountTxBookkeeping(l: TxList, txHash: Hash, tx: Tx, count: uint32)
    ensures CountTx(AddTx(l, txHash, tx)) == CountTx(l) + 1
    ensures var r := RemoveTx(l, tx);
      CountTx(r.0) == if r.1 then CountTx(l) - 1 else CountTx(l)
    ensures CountTx(RemoveHighNonceTxs(l, count).0) == CountTx(l) - Min(count, CountTx(l))
  {
    var r := RemoveTx(l, tx);
    if r.1 {
      var i :| FirstMatch(l.items, tx, i);
      assert |r.0.items| == |l.items[..i] + l.items[i+1..]|;
    }
  }

  // ---------------------------------------------------------------------------
  // Any mix of operations

  /** The mutations a sender's list undergoes. */
  datatype ListOp = AddOp(txHash: Hash, tx: Tx) | RemoveOp(tx: Tx) | RemoveHighNonceOp(count: uint32)

  function ApplyListOp(l: TxList, op: ListOp): TxList
  {
    match op
    case AddOp(h, tx) => AddTx(l, h, tx)
    case RemoveOp(tx) => RemoveTx(l, tx).0
    case RemoveHighNonceOp(count) => RemoveHighNonceTxs(l, count).0
  }

  function RunList(l: TxList, ops: seq<ListOp>): TxList
    decreases |ops|
  {
    if |ops| == 0 then l else RunList(ApplyListOp(l, ops[0]), ops[1..])
  }

  /** After any mix of adds, removals and tail evictions the list is still
      sorted by nonce and `totalBytes` is still the sum of the sizes. */
  lemma {:induction false} RunKeepsSortedAndBytes(l: TxList, ops: seq<ListOp>)
    requires Sorted(l.items) && BytesConsistent(l)
    ensures Sorted(RunList(l, ops).items) && BytesConsistent(RunList(l, ops))
    decreases |ops|
  {
    if |ops| > 0 {
      RunKeepsSortedAndBytes(ApplyListOp(l, ops[0]), ops[1..]);
    }
  }

  /** Adds alone keep all three totals equal to their sums. */
  lemma {:induction false} AddsKeepAllTotals(l: TxList, ops: seq<ListOp>)
    requires TotalsConsistent(l)
    requires forall i :: 0 <= i < |ops| ==> ops[i].AddOp?
    ensures TotalsConsistent(RunList(l, ops))
    decreases |ops|
  {
    if |ops| > 0 {
      AddsKeepAllTotals(ApplyListOp(l, ops[0]), ops[1..]);
    }
  }

  // ---------------------------------------------------------------------------
  // Resumable batch copy

  /** The nodes one `copyBatchTo` call produced, pairing the copied hashes
      with the copied transactions. */
  function Copied(r: CopyResult): (s: seq<Node>)
    requires r.copied <= |r.destination| && r.copied <= |r.destinationHashes|
    ensures |s| == r.copied
  {
    seq(r.copied, k requires 0 <= k < r.copied => Node(r.destinationHashes[k], r.destination[k]))
  }

  /** Calling `copyBatchTo` without reset, reusing the same buffers, until a
      call copies nothing; the result is everything copied, in order. */
  ghost function Sweep(l: TxList, destination: seq<Tx>, destinationHashes: seq<Hash>, batchSize: int): seq<Node>
    requires |destination| <= |destinationHashes|
    decreases |l.items| - BatchStart(l, false)
  {
    var r := CopyBatchTo(l, false, destination, destinationHashes, batchSize);
    if r.copied == 0 then []
    else Copied(r) + Sweep(r.list, r.destination, r.destinationHashes, batchSize)
  }

  /** On an unmutated list, sweeping from the cursor yields exactly the nodes
      from the cursor to the end. */
  lemma {:induction false} SweepYieldsRest(l: TxList, destination: seq<Tx>, destinationHashes: seq<Hash>, batchSize: int)
    requires 0 < |destination| <= |destinationHashes|
    requires batchSize != 0
    ensures Sweep(l, destination, destinationHashes, batchSize) == l.items[BatchStart(l, false)..]
    decreases |l.items| - BatchStart(l, false)
  {
    var r := CopyBatchTo(l, false, destination, destinationHashes, batchSize);
    var s := BatchStart(l, false);
    SweepStep(l, destination, destinationHashes, batchSize);
    if r.copied != 0 {
      SweepYieldsRest(r.list, r.destination, r.destinationHashes, batchSize);
      assert l.items[s..] == l.items[s..s + r.copied] + l.items[s + r.copied..];
    }
  }

  /** One call of a sweep: it copies nothing only at the end of the list;
      otherwise it hands out the next nodes and moves the cursor past them,
      leaving buffers as large as before. */
  lemma SweepStep(l: TxList, destination: seq<Tx>, destinationHashes: seq<Hash>, batchSize: int)
    requires 0 < |destination| <= |destinationHashes|
    requires batchSize != 0
    ensures var r := CopyBatchTo(l, false, destination, destinationHashes, batchSize);
      var s := BatchStart(l, false);
      && (r.copied == 0 <==> s == |l.items|)
      && r.list.items == l.items
      && BatchStart(r.list, false) == s + r.copied
      && 0 < |r.destination| <= |r.destinationHashes|
      && Copied(r) == l.items[s..s + r.copied]
  {
    CopiedIsSlice(l, false, destination, destinationHashes, batchSize);
  }

  /** One call hands out the nodes from where it starts, in order. */
  lemma CopiedIsSlice(l: TxList, withReset: bool, destination: seq<Tx>, destinationHashes: seq<Hash>, batchSize: int)
    requires |destination| <= |destinationHashes|
    ensures var r := CopyBatchTo(l, withReset, destination, destinationHashes, batchSize);
      var s := BatchStart(l, withReset);
      Copied(r) == l.items[s..s + r.copied]
  {
  }

  /** A reset call followed by calls without reset, until one copies
      nothing, hands out every node of the list exactly once, in order.
      Calls on an exhausted cursor are `ExhaustedCursorCopiesNothing`. */
  lemma SweepAfterResetYieldsAll(l: TxList, destination: seq<Tx>, destinationHashes: seq<Hash>, batchSize: int)
    requires 0 < |destination| <= |destinationHashes|
    requires batchSize != 0
    ensures var r := CopyBatchTo(l, true, destination, destinationHashes, batchSize);
      Copied(r) + Sweep(r.list, r.destination, r.destinationHashes, batchSize) == l.items
  {
    var r := CopyBatchTo(l, true, destination, destinationHashes, batchSize);
    SweepYieldsRest(r.list, r.destination, r.destinationHashes, batchSize);
    CopiedIsSlice(l, true, destination, destinationHashes, batchSize);
    assert l.items == l.items[..r.copied] + l.items[r.copied..];
  }

  /** An exhausted cursor copies nothing and leaves the list as it is. */
  lemma ExhaustedCursorCopiesNothing(l: TxList, destination: seq<Tx>, destinationHashes: seq<Hash>, batchSize: int)
    requires |destination| <= |destinationHashes|
    requires l.copyBatchIndex == None
    ensures var r := CopyBatchTo(l, false, destination, destinationHashes, batchSize);
      r.copied == 0 && r.list == l && r.destination == destination
  {
  }

  // ---------------------------------------------------------------------------
  // A worked example

  /** Nonces 3, 1, 2 arrive in that order; the hashes come out in nonce
      order, and evicting one transaction from the tail removes nonce 3. */
  lemma ArrivalOrderScenario(sender: Address, t1: Tx, t2: Tx, t3: Tx, h1: Hash, h2: Hash, h3: Hash)
    requires t1.nonce == 1 && t2.nonce == 2 && t3.nonce == 3
    ensures var l := AddTx(AddTx(AddTx(NewTxList(sender), h3, t3), h1, t1), h2, t2);
      var evicted := RemoveHighNonceTxs(l, 1);
      && GetTxHashes(l) == [h1, h2, h3]
      && evicted.1 == [Some(h3)]
      && GetTxHashes(evicted.0) == [h1, h2]
      && GetHighestNonceTx(evicted.0) == Some(t2)
  {
    ArrivalOrderItems(sender, t1, t2, t3, h1, h2, h3);
    SortedThreeFacts(AddTx(AddTx(AddTx(NewTxList(sender), h3, t3), h1, t1), h2, t2), t1, t2, t3, h1, h2, h3);
  }

  /** Snapshot and eviction of a list holding three nodes. */
  lemma SortedThreeFacts(l: TxList, t1: Tx, t2: Tx, t3: Tx, h1: Hash, h2: Hash, h3: Hash)
    requires l.items == [Node(h1, t1), Node(h2, t2), Node(h3, t3)]
    ensures var evicted := RemoveHighNonceTxs(l, 1);
      && GetTxHashes(l) == [h1, h2, h3]
      && evicted.1 == [Some(h3)]
      && GetTxHashes(evicted.0) == [h1, h2]
      && GetHighestNonceTx(evicted.0) == Some(t2)
  {
    EvictOne(l);
    var evicted := RemoveHighNonceTxs(l, 1);
    assert evicted.0.items == [Node(h1, t1), Node(h2, t2)];
  }

  /** The three insertions of the worked example, one position at a time. */
  lemma ArrivalOrderItems(sender: Address, t1: Tx, t2: Tx, t3: Tx, h1: Hash, h2: Hash, h3: Hash)
    requires t1.nonce == 1 && t2.nonce == 2 && t3.nonce == 3
    ensures AddTx(AddTx(AddTx(NewTxList(sender), h3, t3), h1, t1), h2, t2).items
      == [Node(h1, t1), Node(h2, t2), Node(h3, t3)]
  {
    var l1 := AddTx(NewTxList(sender), h3, t3);
    InsertInto(NewTxList(sender), h3, t3, 0);
    assert l1.items == [Node(h3, t3)];
    InsertBeforeOnly(l1, h1, t1);
    InsertBetweenTwo(AddTx(l1, h1, t1), h2, t2);
  }

  /** `AddTx` places the node at any insertion point it is shown. */
  lemma InsertInto(l: TxList, txHash: Hash, tx: Tx, k: nat)
    requires IsInsertionPoint(l.items, tx.nonce, k)
    ensures AddTx(l, txHash, tx).items == l.items[..k] + [Node(txHash, tx)] + l.items[k..]
  {
  }

  /** A smaller nonce goes in front of a single node. */
  lemma InsertBeforeOnly(l: TxList, txHash: Hash, tx: Tx)
    requires |l.items| == 1 && tx.nonce < l.items[0].tx.nonce
    ensures AddTx(l, txHash, tx).items == [Node(txHash, tx), l.items[0]]
  {
    InsertInto(l, txHash, tx, 0);
    assert l.items[..0] == [] && l.items[0..] == [l.items[0]];
  }

  /** A nonce between those of two nodes goes between them. */
  lemma InsertBetweenTwo(l: TxList, txHash: Hash, tx: Tx)
    requires |l.items| == 2 && l.items[0].tx.nonce <= tx.nonce < l.items[1].tx.nonce
    ensures AddTx(l, txHash, tx).items == [l.items[0], Node(txHash, tx), l.items[1]]
  {
    InsertInto(l, txHash, tx, 1);
    assert l.items[..1] == [l.items[0]] && l.items[1..] == [l.items[1]];
  }

  /** Evicting one transaction removes exactly the back node. */
  lemma EvictOne(l: TxList)
    requires |l.items| > 0
    ensures var r := RemoveHighNonceTxs(l, 1);
      r.1 == [Some(l.items[|l.items| - 1].txHash)] && r.0.items == l.items[..|l.items| - 1]
  {
    var r := RemoveHighNonceTxs(l, 1);
    assert Min(1, |l.items|) == 1;
    assert |r.1| == 1 && r.1[0] == Some(l.items[|l.items| - 1].txHash);
  }
}
