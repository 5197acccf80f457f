/** Properties of the sender registry over any run of its operations, and
    the registry wired to the per-sender list of `TxListForSender`. */
module SenderMapProperties {
  import opened Wrappers
  import opened Transaction
  import TxListForSender
  import TxListProperties
  import opened TxListBySenderMap

  /** The registry's mutating operations. */
  datatype MapOp =
    | AddTxOp(wtx: WrappedTx)
    | RemoveTxOp(wtx: WrappedTx)
    | RemoveSendersBulkOp(senders: seq<Address>)
    | NotifyAccountNonceOp(accountKey: Address, nonce: uint64)
    | ClearOp

  function ApplyMapOp<L>(m: SenderMap<L>, ops: ListOps<L>, op: MapOp): SenderMap<L>
  {
    match op
    case AddTxOp(wtx) => AddTx(m, ops, wtx).0
    case RemoveTxOp(wtx) => RemoveTx(m, ops, wtx).0
    case RemoveSendersBulkOp(senders) => RemoveSendersBulk(m, senders).0
    case NotifyAccountNonceOp(key, nonce) => NotifyAccountNonce(m, ops, key, nonce)
    case ClearOp => Clear(m)
  }

  function RunMap<L>(m: SenderMap<L>, ops: ListOps<L>, run: seq<MapOp>): SenderMap<L>
    decreases |run|
  {
    if |run| == 0 then m else RunMap(ApplyMapOp(m, ops, run[0]), ops, run[1..])
  }

  /** The live-sender counter equals the number of senders after any run of
      adds, removals, bulk removals, nonce notifications and clears. */
  lemma {:induction false} RunKeepsCounter<L>(m: SenderMap<L>, ops: ListOps<L>, run: seq<MapOp>)
    requires CounterMatches(m)
    ensures CounterMatches(RunMap(m, ops, run))
    decreases |run|
  {
    if |run| > 0 {
      RunKeepsCounter(ApplyMapOp(m, ops, run[0]), ops, run[1..]);
    }
  }

  /** Every sender in the registry has a non-empty list. */
  ghost predicate NoEmptyLists<L>(m: SenderMap<L>, ops: ListOps<L>)
  {
    forall s :: s in m.backingMap ==> !ops.isEmpty(m.backingMap[s])
  }

  /** A list that has just received a transaction is not empty. */
  ghost predicate AddNeverEmpties<L(!new)>(ops: ListOps<L>)
  {
    forall l, w :: !ops.isEmpty(ops.addTx(l, w).0)
  }

  /** When adding never leaves a list empty, no run without nonce
      notifications leaves an empty list in the registry: `removeTx` drops
      a sender as soon as its list runs empty. Nonce notifications are left
      out because the registry does not re-check emptiness after them. */
  lemma {:induction false} RunKeepsListsNonEmpty<L(!new)>(m: SenderMap<L>, ops: ListOps<L>, run: seq<MapOp>)
    requires AddNeverEmpties(ops)
    requires NoEmptyLists(m, ops)
    requires forall i :: 0 <= i < |run| ==> !run[i].NotifyAccountNonceOp?
    ensures NoEmptyLists(RunMap(m, ops, run), ops)
    decreases |run|
  {
    if |run| > 0 {
      StepKeepsListsNonEmpty(m, ops, run[0]);
      RunKeepsListsNonEmpty(ApplyMapOp(m, ops, run[0]), ops, run[1..]);
    }
  }

  lemma StepKeepsListsNonEmpty<L(!new)>(m: SenderMap<L>, ops: ListOps<L>, op: MapOp)
    requires AddNeverEmpties(ops)
    requires NoEmptyLists(m, ops)
    requires !op.NotifyAccountNonceOp?
    ensures NoEmptyLists(ApplyMapOp(m, ops, op), ops)
  {
    match op
    case AddTxOp(wtx) =>
      var m1 := AddTx(m, ops, wtx).0;
      forall s | s in m1.backingMap
        ensures !ops.isEmpty(m1.backingMap[s])
      {
        if s != wtx.tx.sndAddr {
          assert s in m.backingMap;
        }
      }
    case RemoveTxOp(wtx) =>
      var m1 := RemoveTx(m, ops, wtx).0;
      forall s | s in m1.backingMap
        ensures !ops.isEmpty(m1.backingMap[s])
      {
        assert s in m.backingMap;
      }
    case RemoveSendersBulkOp(senders) =>
      var m1 := RemoveSendersBulk(m, senders).0;
      forall s | s in m1.backingMap
        ensures !ops.isEmpty(m1.backingMap[s])
      {
        assert s in m.backingMap;
      }
    case ClearOp =>
  }

  /** The list of `TxListForSender` behind the registry's interface, with
      removal's bookkeeping corrected (`RemoveTxIntended`; the registry
      reads only the flag and emptiness, which the correction leaves as
      they are). That revision's `AddTx` returns nothing and always
      inserts, so it reports true; it has no nonce notification, so that
      is a no-op. */
  function ShownListOps(): (ops: ListOps<TxListForSender.TxList>)
    ensures AddNeverEmpties(ops)
    ensures forall l, w :: ops.removeTx(l, w).1 == TxListForSender.RemoveTx(l, w.tx).1
    ensures forall l, w :: ops.removeTx(l, w).0.items == TxListForSender.RemoveTx(l, w.tx).0.items
  {
    ListOps(
      (sender: Address) => TxListForSender.NewTxList(sender),
      (l: TxListForSender.TxList, w: WrappedTx) => (TxListForSender.AddTx(l, w.txHash, w.tx), true),
      (l: TxListForSender.TxList, w: WrappedTx) => TxListProperties.RemoveTxIntended(l, w.tx),
      (l: TxListForSender.TxList) => TxListForSender.IsEmpty(l),
      (l: TxListForSender.TxList, nonce: uint64) => l)
  }

  /** Through the registry: the first transaction of a sender creates its
      list and counts it; removing that transaction again drops the sender,
      leaving no senders and a zero counter. */
  lemma FirstAddThenRemoveLeavesNoSender(wtx: WrappedTx)
    ensures var ops := ShownListOps();
      var added := AddTx(NewTxListBySenderMap(), ops, wtx);
      var removed := RemoveTx(added.0, ops, wtx);
      && added.1 && added.0.counter == 1
      && added.0.backingMap.Keys == {wtx.tx.sndAddr}
      && removed.1
      && removed.0.backingMap == map[] && removed.0.counter == 0
  {
    var ops := ShownListOps();
    var sender := wtx.tx.sndAddr;
    var l0 := TxListForSender.NewTxList(sender);
    var l1 := TxListForSender.AddTx(l0, wtx.txHash, wtx.tx);
    assert l1.items == [TxListForSender.Node(wtx.txHash, wtx.tx)] by {
      assert TxListForSender.IsInsertionPoint(l0.items, wtx.tx.nonce, 0);
    }
    assert TxListForSender.FirstMatch(l1.items, wtx.tx, 0);
    var added := AddTx(NewTxListBySenderMap(), ops, wtx);
    assert added.0.backingMap[sender] == l1;
    var r := TxListProperties.RemoveTxIntended(l1, wtx.tx);
    assert r.1 && r.0.items == [];
  }
}
