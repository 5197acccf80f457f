/** One sender's pending transactions (`txListForSender`).

    The Go type keeps a doubly linked list of (hash, transaction) nodes
    sorted by nonce, three running totals and a copy cursor, all behind a
    mutex. Here the list is a sequence of nodes, every operation is one
    sequential step returning the new state, and the cursor is an index. */
module TxListForSender {
  import opened Wrappers
  import opened Transaction

  /** A node of the list (`txListForSenderNode`). */
  datatype Node = Node(txHash: Hash, tx: Tx)

  /** The state of one sender's list. The totals are signed: removal
      subtracts from them and, through the gas/fee mix-up in
      `OnRemovedListElement`, `totalGas` can drop below zero. */
  datatype TxList = TxList(
    sender: Address,
    items: seq<Node>,
    copyBatchIndex: Option<nat>,
    totalBytes: int,
    totalGas: int,
    totalFee: int)

  /** Sum of one cost over a sequence of nodes. */
  function Total(items: seq<Node>, c: Cost): nat
  {
    if |items| == 0 then 0 else CostOf(items[0].tx, c) + Total(items[1..], c)
  }

  lemma {:induction false} TotalAppend(a: seq<Node>, b: seq<Node>, c: Cost)
    ensures Total(a + b, c) == Total(a, c) + Total(b, c)
  {
    if |a| == 0 {
      assert a + b == b;
    } else {
      assert (a + b)[1..] == a[1..] + b;
      TotalAppend(a[1..], b, c);
    }
  }

  /** Removing the node at index `i` lowers a sum by that node's cost. */
  lemma TotalWithout(items: seq<Node>, i: nat, c: Cost)
    requires i < |items|
    ensures Total(items[..i] + items[i+1..], c) == Total(items, c) - CostOf(items[i].tx, c)
  {
    assert items == items[..i] + ([items[i]] + items[i+1..]);
    TotalAppend(items[..i], [items[i]] + items[i+1..], c);
    TotalAppend([items[i]], items[i+1..], c);
    TotalAppend(items[..i], items[i+1..], c);
  }

  /** The nonces never decrease along the list. */
  ghost predicate Sorted(items: seq<Node>)
  {
    forall i, j :: 0 <= i < j < |items| ==> items[i].tx.nonce <= items[j].tx.nonce
  }

  /** `totalBytes` equals the sum of the sizes of the present transactions. */
  ghost predicate BytesConsistent(l: TxList)
  {
    l.totalBytes == Total(l.items, Bytes)
  }

  /** All three running totals equal the sums over the present transactions. */
  ghost predicate TotalsConsistent(l: TxList)
  {
    && BytesConsistent(l)
    && l.totalGas == Total(l.items, Gas)
    && l.totalFee == Total(l.items, Fee)
  }

  /** `newTxListForSender`: an empty list for `sender`. */
  function NewTxList(sender: Address): (l: TxList)
    ensures l.sender == sender && l.copyBatchIndex == None
    ensures IsEmpty(l) && Sorted(l.items) && TotalsConsistent(l)
  {
    TxList(sender, [], None, 0, 0, 0)
  }

  /** `countTx`: the number of transactions held. */
  function CountTx(l: TxList): (n: nat)
    ensures n == |l.items|
  {
    |l.items|
  }

  // ---------------------------------------------------------------------------
  // Sorted insert

  /** `k` is where a transaction with `nonce` goes: every node before it has
      a nonce at most `nonce`, and the node at `k` (if any) a larger one. */
  ghost predicate IsInsertionPoint(items: seq<Node>, nonce: uint64, k: int)
  {
    && 0 <= k <= |items|
    && (forall j :: 0 <= j < k ==> items[j].tx.nonce <= nonce)
    && (k < |items| ==> items[k].tx.nonce > nonce)
  }

  /** `findTxWithLargerNonce`: the index of the first node whose nonce is
      strictly larger than `nonce`, or `|items|` (nil) when there is none. */
  function FindTxWithLargerNonce(items: seq<Node>, nonce: uint64): (k: nat)
    ensures IsInsertionPoint(items, nonce, k)
  {
    if |items| == 0 then 0
    else if items[0].tx.nonce > nonce then 0
    else 1 + FindTxWithLargerNonce(items[1..], nonce)
  }

  /** `onAddedTransaction`: add the new transaction's costs to the totals. */
  function OnAddedTransaction(l: TxList, tx: Tx): (r: TxList)
    ensures r.items == l.items && r.sender == l.sender && r.copyBatchIndex == l.copyBatchIndex
    ensures r.totalBytes - l.totalBytes == EstimateTxSize(tx)
    ensures r.totalGas - l.totalGas == EstimateTxGas(tx)
    ensures r.totalFee - l.totalFee == EstimateTxFee(tx)
  {
    l.(totalBytes := l.totalBytes + EstimateTxSize(tx),
       totalGas := l.totalGas + EstimateTxGas(tx),
       totalFee := l.totalFee + EstimateTxFee(tx))
  }

  /** `AddTx`: sorted insert of `(txHash, tx)` right before the first node
      with a larger nonce (appended when there is none), then bookkeeping.
      Equal nonces are all before the insertion point, so a new transaction
      lands after every existing one with the same nonce. */
  function AddTx(l: TxList, txHash: Hash, tx: Tx): (r: TxList)
    ensures |r.items| == |l.items| + 1
    ensures forall k :: IsInsertionPoint(l.items, tx.nonce, k) ==>
      r.items == l.items[..k] + [Node(txHash, tx)] + l.items[k..]
    ensures multiset(r.items) == multiset(l.items) + multiset{Node(txHash, tx)}
    ensures Sorted(l.items) ==> Sorted(r.items)
    ensures BytesConsistent(l) ==> BytesConsistent(r)
    ensures TotalsConsistent(l) ==> TotalsConsistent(r)
    ensures r.totalBytes == l.totalBytes + EstimateTxSize(tx)
    ensures r.totalGas == l.totalGas + EstimateTxGas(tx)
    ensures r.totalFee == l.totalFee + EstimateTxFee(tx)
    ensures r.sender == l.sender && r.copyBatchIndex == l.copyBatchIndex
  {
    var mark := FindTxWithLargerNonce(l.items, tx.nonce);
    var newNode := Node(txHash, tx);
    var items := l.items[..mark] + [newNode] + l.items[mark..];
    InsertKeepsSorted(l.items, mark, newNode);
    InsertAddsCost(l.items, mark, newNode);
    assert l.items == l.items[..mark] + l.items[mark..];
    OnAddedTransaction(l.(items := items), tx)
  }

  lemma InsertKeepsSorted(items: seq<Node>, k: nat, n: Node)
    requires IsInsertionPoint(items, n.tx.nonce, k)
    ensures Sorted(items) ==> Sorted(items[..k] + [n] + items[k..])
  {
    if Sorted(items) {
      var r := items[..k] + [n] + items[k..];
      forall i, j | 0 <= i < j < |r|
        ensures r[i].tx.nonce <= r[j].tx.nonce
      {
        if j < k {
          assert r[i] == items[i] && r[j] == items[j];
        } else if j == k {
          assert r[i] == items[i];
        } else if i < k {
          assert r[i] == items[i] && r[j] == items[j-1];
        } else if i == k {
          assert r[j] == items[j-1];
          assert items[k].tx.nonce <= items[j-1].tx.nonce;
        } else {
          assert r[i] == items[i-1] && r[j] == items[j-1];
        }
      }
    }
  }

  lemma InsertAddsCost(items: seq<Node>, k: nat, n: Node)
    requires k <= |items|
    ensures forall c: Cost :: Total(items[..k] + [n] + items[k..], c) == Total(items, c) + CostOf(n.tx, c)
  {
    forall c: Cost
      ensures Total(items[..k] + [n] + items[k..], c) == Total(items, c) + CostOf(n.tx, c)
    {
      assert items == items[..k] + items[k..];
      TotalAppend(items[..k] + [n], items[k..], c);
      TotalAppend(items[..k], [n], c);
      TotalAppend(items[..k], items[k..], c);
    }
  }

  // ---------------------------------------------------------------------------
  // Removal by identity

  /** The scan of `findListElementWithTx` meets `tx` at index `i`: the node
      there is `tx`, and every node before it is a different transaction
      whose nonce did not stop the scan. */
  ghost predicate FirstMatch(items: seq<Node>, tx: Tx, i: int)
  {
    && 0 <= i < |items|
    && items[i].tx == tx
    && forall j :: 0 <= j < i ==> items[j].tx != tx && items[j].tx.nonce <= tx.nonce
  }

  /** `findListElementWithTx`: scan from the front for the node holding
      `tx`, giving up at the first node with a larger nonce. */
  function FindListElementWithTx(items: seq<Node>, tx: Tx): (r: Option<nat>)
    ensures r.Some? ==> FirstMatch(items, tx, r.value)
    ensures r.None? ==> forall i :: !FirstMatch(items, tx, i)
  {
    if |items| == 0 then None
    else if items[0].tx == tx then Some(0)
    else if items[0].tx.nonce > tx.nonce then None
    else
      var rest := FindListElementWithTx(items[1..], tx);
      assert forall i :: 0 < i ==> (FirstMatch(items, tx, i) <==> FirstMatch(items[1..], tx, i - 1));
      match rest
      case None => None
      case Some(i) => Some(i + 1)
  }

  /** `onRemovedListElement` as written: it subtracts the size from
      `totalBytes`, but subtracts BOTH gas and fee from `totalGas` and never
      touches `totalFee`. */
  function OnRemovedListElement(l: TxList, n: Node): (r: TxList)
    ensures r.items == l.items && r.sender == l.sender && r.copyBatchIndex == l.copyBatchIndex
    ensures r.totalBytes == l.totalBytes - EstimateTxSize(n.tx)
    ensures r.totalGas == l.totalGas - EstimateTxGas(n.tx) - EstimateTxFee(n.tx)
    ensures r.totalFee == l.totalFee
  {
    var afterGas := l.totalGas - EstimateTxGas(n.tx);
    l.(totalBytes := l.totalBytes - EstimateTxSize(n.tx),
       totalGas := afterGas - EstimateTxFee(n.tx))
  }

  /** `RemoveTx`: removes the node the nonce-bounded scan meets, if any, and
      reports whether it did. Only `totalBytes` is kept equal to its sum. */
  function RemoveTx(l: TxList, tx: Tx): (r: (TxList, bool))
    ensures r.1 <==> exists i :: FirstMatch(l.items, tx, i)
    ensures !r.1 ==> r.0 == l
    ensures forall i :: FirstMatch(l.items, tx, i) ==>
      && r.0.items == l.items[..i] + l.items[i+1..]
      && r.0.totalBytes == l.totalBytes - EstimateTxSize(tx)
      && r.0.totalGas == l.totalGas - EstimateTxGas(tx) - EstimateTxFee(tx)
      && r.0.totalFee == l.totalFee
    ensures Sorted(l.items) ==> Sorted(r.0.items)
    ensures BytesConsistent(l) ==> BytesConsistent(r.0)
    ensures r.0.sender == l.sender && r.0.copyBatchIndex == l.copyBatchIndex
  {
    match FindListElementWithTx(l.items, tx)
    case None => (l, false)
    case Some(i) =>
      var marker := l.items[i];
      TotalWithout(l.items, i, Bytes);
      (OnRemovedListElement(l.(items := l.items[..i] + l.items[i+1..]), marker), true)
  }

  // ---------------------------------------------------------------------------
  // Tail eviction

  /** The loop of `RemoveHighNonceTxs`: removes up to `count` nodes from the
      back, one at a time through `OnRemovedListElement`, and returns their
      hashes, highest nonce first. Its effect on the totals is stated by
      `RemoveFromBackTotals`. */
  function RemoveFromBack(l: TxList, count: nat): (r: (TxList, seq<Hash>))
    ensures |r.1| == Min(count, |l.items|)
    ensures r.0.items == l.items[..|l.items| - |r.1|]
    ensures forall j :: 0 <= j < |r.1| ==> r.1[j] == l.items[|l.items| - 1 - j].txHash
    ensures r.0.totalFee == l.totalFee
    ensures r.0.sender == l.sender && r.0.copyBatchIndex == l.copyBatchIndex
    decreases count
  {
    if count == 0 || |l.items| == 0 then (l, [])
    else
      var n := |l.items|;
      var back := l.items[n - 1];
      var rest := OnRemovedListElement(l.(items := l.items[..n - 1]), back);
      var removed := RemoveFromBack(rest, count - 1);
      (removed.0, [back.txHash] + removed.1)
  }

  /** Tail eviction subtracts the evicted sizes from `totalBytes`, and the
      evicted gas AND fees from `totalGas`. */
  lemma RemoveFromBackTotals(l: TxList, count: nat)
    ensures var r := RemoveFromBack(l, count);
      var evicted := l.items[|l.items| - |r.1|..];
      && r.0.totalBytes == l.totalBytes - Total(evicted, Bytes)
      && r.0.totalGas == l.totalGas - Total(evicted, Gas) - Total(evicted, Fee)
  {
    var r := RemoveFromBack(l, count);
    var k := |l.items| - |r.1|;
    assert l.items == r.0.items + l.items[k..];
    RemoveFromBackKeepsSlack(l, count);
    TotalAppend(r.0.items, l.items[k..], Bytes);
    TotalAppend(r.0.items, l.items[k..], Gas);
    TotalAppend(r.0.items, l.items[k..], Fee);
  }

  /** Each eviction step lowers a total and the sum it tracks alike, so the
      difference between them survives the whole loop. */
  lemma {:induction false} RemoveFromBackKeepsSlack(l: TxList, count: nat)
    ensures var r := RemoveFromBack(l, count);
      && r.0.totalBytes - Total(r.0.items, Bytes) == l.totalBytes - Total(l.items, Bytes)
      && r.0.totalGas - Total(r.0.items, Gas) - Total(r.0.items, Fee)
         == l.totalGas - Total(l.items, Gas) - Total(l.items, Fee)
    decreases count
  {
    if count > 0 && |l.items| > 0 {
      var n := |l.items|;
      var back := l.items[n - 1];
      var rest := OnRemovedListElement(l.(items := l.items[..n - 1]), back);
      RemoveFromBackKeepsSlack(rest, count - 1);
      TotalDropBack(l.items, Bytes);
      TotalDropBack(l.items, Gas);
      TotalDropBack(l.items, Fee);
    }
  }

  /** A sequence costs its front part plus its last node. */
  lemma TotalDropBack(items: seq<Node>, c: Cost)
    requires |items| > 0
    ensures Total(items, c) == Total(items[..|items| - 1], c) + CostOf(items[|items| - 1].tx, c)
  {
    var n := |items|;
    assert items == items[..n - 1] + [items[n - 1]];
    TotalAppend(items[..n - 1], [items[n - 1]], c);
  }

  /** `RemoveHighNonceTxs`: evicts the last `min(count, n)` nodes. The
      returned slice has exactly `count` slots: the evicted hashes, highest
      nonce first, then nil. */
  function RemoveHighNonceTxs(l: TxList, count: uint32): (r: (TxList, seq<Option<Hash>>))
    ensures |r.1| == count
    ensures r.0.items == l.items[..|l.items| - Min(count, |l.items|)]
    ensures forall j :: 0 <= j < Min(count, |l.items|) ==>
      r.1[j] == Some(l.items[|l.items| - 1 - j].txHash)
    ensures forall j :: Min(count, |l.items|) <= j < count ==> r.1[j] == None
    ensures Sorted(l.items) ==> Sorted(r.0.items)
    ensures BytesConsistent(l) ==> BytesConsistent(r.0)
    ensures r.0.totalFee == l.totalFee
    ensures r.0.sender == l.sender && r.0.copyBatchIndex == l.copyBatchIndex
  {
    var removed := RemoveFromBack(l, count);
    EvictionKeepsInvariants(l, count);
    (removed.0, PadWithNil(removed.1, count))
  }

  /** The `count` slots of the result: the evicted hashes, then nil. */
  function PadWithNil(hashes: seq<Hash>, count: nat): (r: seq<Option<Hash>>)
    requires |hashes| <= count
    ensures |r| == count
    ensures forall j :: 0 <= j < |hashes| ==> r[j] == Some(hashes[j])
    ensures forall j :: |hashes| <= j < count ==> r[j] == None
  {
    seq(count, j requires 0 <= j < count => if j < |hashes| then Some(hashes[j]) else None)
  }

  /** Tail eviction keeps a sorted list sorted and `totalBytes` equal to the
      sum of the sizes. */
  lemma EvictionKeepsInvariants(l: TxList, count: nat)
    ensures Sorted(l.items) ==> Sorted(RemoveFromBack(l, count).0.items)
    ensures BytesConsistent(l) ==> BytesConsistent(RemoveFromBack(l, count).0)
  {
    var r := RemoveFromBack(l, count);
    var n := |l.items|;
    var m := |r.1|;
    RemoveFromBackTotals(l, count);
    assert l.items == l.items[..n - m] + l.items[n - m..];
    TotalAppend(l.items[..n - m], l.items[n - m..], Bytes);
  }

  // ---------------------------------------------------------------------------
  // Count predicates

  /** `HasMoreThan`: compares the length, truncated to 32 bits by the
      `uint32(...)` conversion, with `count`. */
  function HasMoreThan(l: TxList, count: uint32): (r: bool)
    ensures |l.items| < UINT32_MODULUS ==> (r <==> |l.items| > count)
    ensures r ==> |l.items| > count
  {
    Wrap32(CountTx(l)) > count
  }

  /** `IsEmpty`. */
  function IsEmpty(l: TxList): (r: bool)
    ensures r <==> l.items == []
  {
    CountTx(l) == 0
  }

  // ---------------------------------------------------------------------------
  // Resumable batch copy

  /** Where a `copyBatchTo` call starts reading: the front after a reset,
      otherwise the cursor; `|items|` stands for the nil cursor. A cursor
      index past the end can only arise after the list was shortened and is
      read as nil. */
  function BatchStart(l: TxList, withReset: bool): (s: nat)
    ensures s <= |l.items|
  {
    if withReset then 0
    else match l.copyBatchIndex
      case None => |l.items|
      case Some(i) => if i < |l.items| then i else |l.items|
  }

  /** How many nodes one call copies: bounded by the room in the
      destination and by what is left, and by `batchSize` unless it is
      negative (the loop compares `copied == batchSize`, which a negative
      size never meets). */
  function BatchLimit(batchSize: int, space: nat, remaining: nat): (m: nat)
    ensures m <= space && m <= remaining
    ensures batchSize >= 0 ==> m <= batchSize
    ensures m == remaining || m == space || m == batchSize
  {
    var bound := Min(space, remaining);
    if 0 <= batchSize < bound then batchSize else bound
  }

  /** Outcome of one `copyBatchTo` call: the list (with its cursor moved),
      the number copied, and the two destination slices after the copy. */
  datatype CopyResult = CopyResult(list: TxList, copied: nat, destination: seq<Tx>, destinationHashes: seq<Hash>)

  /** The copy loop of `copyBatchTo`, from node `element` after `copied`
      nodes were already copied. It returns the node it stopped at, the
      count, and the destinations. */
  function CopyLoop(items: seq<Node>, element: nat, copied: nat, batchSize: int,
                    destination: seq<Tx>, destinationHashes: seq<Hash>): (r: (nat, nat, seq<Tx>, seq<Hash>))
    requires element <= |items|
    requires copied <= |destination| <= |destinationHashes|
    requires batchSize < 0 || copied <= batchSize
    ensures r.1 - copied == BatchLimit(if batchSize < 0 then -1 else batchSize - copied, |destination| - copied, |items| - element)
    ensures r.1 >= copied && r.0 == element + (r.1 - copied)
    ensures |r.2| == |destination| && |r.3| == |destinationHashes|
    ensures forall k :: 0 <= k < copied || r.1 <= k < |destination| ==> r.2[k] == destination[k]
    ensures forall k :: 0 <= k < copied || r.1 <= k < |destinationHashes| ==> r.3[k] == destinationHashes[k]
    ensures forall k :: copied <= k < r.1 ==> r.2[k] == items[element + k - copied].tx && r.3[k] == items[element + k - copied].txHash
    decreases |items| - element
  {
    if element == |items| || copied == batchSize || copied == |destination| then
      (element, copied, destination, destinationHashes)
    else
      var value := items[element];
      CopyLoop(items, element + 1, copied + 1, batchSize,
               destination[copied := value.tx], destinationHashes[copied := value.txHash])
  }

  /** `copyBatchTo`: copies the next nodes from the cursor (or from the
      front, after a reset) into the destinations and moves the cursor past
      them; the list's contents and totals are left alone. Go panics when
      `destinationHashes` is shorter than what is copied; callers pass two
      slices of equal length, which the requires states. */
  function CopyBatchTo(l: TxList, withReset: bool, destination: seq<Tx>,
                       destinationHashes: seq<Hash>, batchSize: int): (r: CopyResult)
    requires |destination| <= |destinationHashes|
    ensures r.list.items == l.items && r.list.sender == l.sender
    ensures r.list.totalBytes == l.totalBytes && r.list.totalGas == l.totalGas && r.list.totalFee == l.totalFee
    ensures r.copied == BatchLimit(batchSize, |destination|, |l.items| - BatchStart(l, withReset))
    ensures |r.destination| == |destination| && |r.destinationHashes| == |destinationHashes|
    ensures forall k :: 0 <= k < r.copied ==>
      && r.destination[k] == l.items[BatchStart(l, withReset) + k].tx
      && r.destinationHashes[k] == l.items[BatchStart(l, withReset) + k].txHash
    ensures forall k :: r.copied <= k < |destination| ==> r.destination[k] == destination[k]
    ensures forall k :: r.copied <= k < |destinationHashes| ==> r.destinationHashes[k] == destinationHashes[k]
    ensures BatchStart(r.list, false) == BatchStart(l, withReset) + r.copied
    ensures BatchStart(l, withReset) < |l.items| ==>
      r.list.copyBatchIndex == if BatchStart(l, withReset) + r.copied < |l.items|
                               then Some(BatchStart(l, withReset) + r.copied) else None
  {
    var front := if |l.items| == 0 then None else Some(0);
    var l0 := if withReset then l.(copyBatchIndex := front) else l;
    var start := BatchStart(l, withReset);
    if start == |l.items| then
      CopyResult(l0, 0, destination, destinationHashes)
    else
      CopyFrom(l, start, destination, destinationHashes, batchSize)
  }

  /** The copying part of `copyBatchTo`, from node `start` on: runs the
      loop and leaves the cursor on the node it stopped at, nil past the
      end. */
  function CopyFrom(l: TxList, start: nat, destination: seq<Tx>,
                    destinationHashes: seq<Hash>, batchSize: int): (r: CopyResult)
    requires start < |l.items| && |destination| <= |destinationHashes|
    ensures r.list == l.(copyBatchIndex := r.list.copyBatchIndex)
    ensures r.copied == BatchLimit(batchSize, |destination|, |l.items| - start)
    ensures |r.destination| == |destination| && |r.destinationHashes| == |destinationHashes|
    ensures forall k :: 0 <= k < r.copied ==>
      && r.destination[k] == l.items[start + k].tx
      && r.destinationHashes[k] == l.items[start + k].txHash
    ensures forall k :: r.copied <= k < |destination| ==> r.destination[k] == destination[k]
    ensures forall k :: r.copied <= k < |destinationHashes| ==> r.destinationHashes[k] == destinationHashes[k]
    ensures r.list.copyBatchIndex == if start + r.copied < |l.items| then Some(start + r.copied) else None
  {
    var (element, copied, dest, hashes) := CopyLoop(l.items, start, 0, batchSize, destination, destinationHashes);
    var cursor := if element < |l.items| then Some(element) else None;
    CopyResult(l.(copyBatchIndex := cursor), copied, dest, hashes)
  }

  // ---------------------------------------------------------------------------
  // Snapshots

  /** The hashes of the nodes, front to back (the loop of `getTxHashes`). */
  function HashesOf(items: seq<Node>): (r: seq<Hash>)
    ensures |r| == |items|
    ensures forall i :: 0 <= i < |items| ==> r[i] == items[i].txHash
  {
    if |items| == 0 then [] else [items[0].txHash] + HashesOf(items[1..])
  }

  /** `getTxHashes`: one hash per transaction, in list (nonce) order. */
  function GetTxHashes(l: TxList): (r: seq<Hash>)
    ensures |r| == CountTx(l)
    ensures forall i :: 0 <= i < CountTx(l) ==> r[i] == l.items[i].txHash
  {
    HashesOf(l.items)
  }

  /** `getHighestNonceTx`: the transaction at the back, nil when empty; on a
      sorted list no transaction has a larger nonce. */
  function GetHighestNonceTx(l: TxList): (r: Option<Tx>)
    ensures r.None? <==> IsEmpty(l)
    ensures r.Some? ==> r.value == l.items[|l.items| - 1].tx
    ensures r.Some? && Sorted(l.items) ==> forall j :: 0 <= j < |l.items| ==> l.items[j].tx.nonce <= r.value.nonce
  {
    if |l.items| == 0 then None else Some(l.items[|l.items| - 1].tx)
  }
}
