/** The sender registry (`txListBySenderMap`).

    The Go type routes transactions to one list per sender, creating lists
    lazily and dropping a sender once its list runs empty, and keeps a
    live-sender counter next to its backing map. Locking is left out: each
    operation is one sequential step over a finite map `sender -> list` and
    a counter. The registry is written against what it needs of a list
    (`ListOps`), so everything here holds for any list implementation. */
module TxListBySenderMap {
  import opened Wrappers
  import opened Transaction

  /** What the registry uses of a sender's list: creation, add and remove
      (each reporting a flag), the emptiness test and the nonce
      notification. */
  datatype ListOps<!L> = ListOps(
    newList: Address -> L,
    addTx: (L, WrappedTx) -> (L, bool),
    removeTx: (L, WrappedTx) -> (L, bool),
    isEmpty: L -> bool,
    notifyAccountNonce: (L, uint64) -> L)

  /** The registry state: the backing map from sender to list, and the
      live-sender counter. */
  datatype SenderMap<L> = SenderMap(backingMap: map<Address, L>, counter: int)

  /** The counter agrees with the number of senders in the map. */
  ghost predicate CounterMatches<L>(m: SenderMap<L>)
  {
    m.counter == |m.backingMap|
  }

  /** `newTxListBySenderMap`: no senders. */
  function NewTxListBySenderMap<L>(): (m: SenderMap<L>)
    ensures m.backingMap == map[] && CounterMatches(m)
  {
    SenderMap(map[], 0)
  }

  /** `getListForSender`. */
  function GetListForSender<L>(m: SenderMap<L>, sender: Address): (r: Option<L>)
    ensures r.Some? <==> sender in m.backingMap
    ensures r.Some? ==> r.value == m.backingMap[sender]
  {
    if sender in m.backingMap then Some(m.backingMap[sender]) else None
  }

  /** `addSender`: stores a fresh list under `sender` and bumps the counter.
      The map's `Set` overwrites, so on a sender already present the
      counter would drift; callers only use it after a miss. */
  function AddSender<L>(m: SenderMap<L>, ops: ListOps<L>, sender: Address): (r: (SenderMap<L>, L))
    ensures r.1 == ops.newList(sender)
    ensures r.0.backingMap == m.backingMap[sender := r.1]
    ensures r.0.counter == m.counter + 1
    ensures sender !in m.backingMap ==> (CounterMatches(r.0) <==> CounterMatches(m))
    ensures sender in m.backingMap && CounterMatches(m) ==> !CounterMatches(r.0)
  {
    var listForSender := ops.newList(sender);
    (SenderMap(m.backingMap[sender := listForSender], m.counter + 1), listForSender)
  }

  /** `getOrAddListForSender`: the existing list, with nothing changed, or
      a new one, inserted and counted. The Go code checks twice (before and
      after taking the lock); run sequentially the second check sees what
      the first saw, so one check is modelled. */
  function GetOrAddListForSender<L>(m: SenderMap<L>, ops: ListOps<L>, sender: Address): (r: (SenderMap<L>, L))
    ensures sender in m.backingMap ==> r == (m, m.backingMap[sender])
    ensures sender !in m.backingMap ==>
      && r.1 == ops.newList(sender)
      && r.0.backingMap == m.backingMap[sender := r.1]
      && r.0.counter == m.counter + 1
    ensures sender in r.0.backingMap && r.0.backingMap[sender] == r.1
    ensures CounterMatches(m) ==> CounterMatches(r.0)
  {
    match GetListForSender(m, sender)
    case Some(listForSender) => (m, listForSender)
    case None => AddSender(m, ops, sender)
  }

  /** `addTx`: routes the transaction to its sender's list, creating the
      list when needed, and returns what the list's `AddTx` returned. No
      other sender's list changes. */
  function AddTx<L>(m: SenderMap<L>, ops: ListOps<L>, wtx: WrappedTx): (r: (SenderMap<L>, bool))
    ensures var sender := wtx.tx.sndAddr;
      var before := if sender in m.backingMap then m.backingMap[sender] else ops.newList(sender);
      && sender in r.0.backingMap
      && (r.0.backingMap[sender], r.1) == ops.addTx(before, wtx)
      && r.0.backingMap.Keys == m.backingMap.Keys + {sender}
      && (forall s :: s in m.backingMap && s != sender ==> r.0.backingMap[s] == m.backingMap[s])
    ensures CounterMatches(m) ==> CounterMatches(r.0)
  {
    var sender := wtx.tx.sndAddr;
    var (m1, listForSender) := GetOrAddListForSender(m, ops, sender);
    var (updated, added) := ops.addTx(listForSender, wtx);
    (m1.(backingMap := m1.backingMap[sender := updated]), added)
  }

  /** `removeSender`: drops `sender` and decrements the counter, or changes
      nothing and answers false when the sender is absent. */
  function RemoveSender<L>(m: SenderMap<L>, sender: Address): (r: (SenderMap<L>, bool))
    ensures r.1 <==> sender in m.backingMap
    ensures !r.1 ==> r.0 == m
    ensures r.1 ==> r.0.backingMap == m.backingMap - {sender} && r.0.counter == m.counter - 1
    ensures CounterMatches(m) ==> CounterMatches(r.0)
  {
    if sender !in m.backingMap then (m, false)
    else (SenderMap(m.backingMap - {sender}, m.counter - 1), true)
  }

  /** `removeTx`: false and no change when the sender is absent; otherwise
      the list's own answer, and the sender is dropped once its list is
      empty, whether or not the transaction was found. */
  function RemoveTx<L>(m: SenderMap<L>, ops: ListOps<L>, wtx: WrappedTx): (r: (SenderMap<L>, bool))
    ensures wtx.tx.sndAddr !in m.backingMap ==> r == (m, false)
    ensures var sender := wtx.tx.sndAddr;
      sender in m.backingMap ==>
        var after := ops.removeTx(m.backingMap[sender], wtx);
        && r.1 == after.1
        && (ops.isEmpty(after.0) ==> r.0.backingMap == m.backingMap - {sender} && r.0.counter == m.counter - 1)
        && (!ops.isEmpty(after.0) ==> r.0.backingMap == m.backingMap[sender := after.0] && r.0.counter == m.counter)
    ensures CounterMatches(m) ==> CounterMatches(r.0)
  {
    var sender := wtx.tx.sndAddr;
    match GetListForSender(m, sender)
    case None => (m, false)
    case Some(listForSender) =>
      var (updated, isFound) := ops.removeTx(listForSender, wtx);
      var m1 := m.(backingMap := m.backingMap[sender := updated]);
      if ops.isEmpty(updated) then (RemoveSender(m1, sender).0, isFound) else (m1, isFound)
  }

  /** The senders a sequence names. */
  ghost function SenderSet(senders: seq<Address>): set<Address>
  {
    set s | s in senders
  }

  /** How many times the loop of `RemoveSendersBulk` finds its sender
      present, starting from the senders `keys`. */
  ghost function PresentCount(keys: set<Address>, senders: seq<Address>): nat
    decreases |senders|
  {
    if |senders| == 0 then 0
    else if senders[0] in keys then 1 + PresentCount(keys - {senders[0]}, senders[1..])
    else PresentCount(keys, senders[1..])
  }

  /** The loop of `RemoveSendersBulk` over `senders`, returning how many
      removals succeeded. Go counts in a `uint32` incremented per success;
      that equals this count wrapped once, which `RemoveSendersBulk` does. */
  function RemoveSendersFrom<L>(m: SenderMap<L>, senders: seq<Address>): (r: (SenderMap<L>, nat))
    ensures r.0.backingMap == m.backingMap - SenderSet(senders)
    ensures r.0.counter == m.counter - r.1
    ensures r.1 == PresentCount(m.backingMap.Keys, senders)
    decreases |senders|
  {
    if |senders| == 0 then
      (m, 0)
    else
      var (m1, removed) := RemoveSender(m, senders[0]);
      var rec := RemoveSendersFrom(m1, senders[1..]);
      BulkLoopStep(m, senders);
      (rec.0, if removed then rec.1 + 1 else rec.1)
  }

  /** One step of the bulk loop, in terms of what is left to do. */
  lemma BulkLoopStep<L>(m: SenderMap<L>, senders: seq<Address>)
    requires |senders| > 0
    ensures var p := RemoveSender(m, senders[0]);
      && p.0.backingMap - SenderSet(senders[1..]) == m.backingMap - SenderSet(senders)
      && PresentCount(m.backingMap.Keys, senders)
         == PresentCount(p.0.backingMap.Keys, senders[1..]) + (if p.1 then 1 else 0)
  {
    var s0 := senders[0];
    var rest := SenderSet(senders[1..]);
    var (m1, removed) := RemoveSender(m, s0);
    assert SenderSet(senders) == {s0} + rest by {
      assert senders == [s0] + senders[1..];
    }
    assert (m1.backingMap - rest).Keys == (m.backingMap - SenderSet(senders)).Keys;
    if removed {
      assert m1.backingMap.Keys == m.backingMap.Keys - {s0};
    }
  }

  /** The loop finds each named sender present at most once, however often
      it is named: the count is the number of distinct named senders that
      were present beforehand. */
  lemma {:induction false} PresentCountIsDistinct(keys: set<Address>, senders: seq<Address>)
    ensures PresentCount(keys, senders) == |keys * SenderSet(senders)|
    decreases |senders|
  {
    if |senders| == 0 {
      assert keys * SenderSet(senders) == {};
    } else {
      var s0 := senders[0];
      SenderSetCons(senders);
      if s0 in keys {
        PresentCountIsDistinct(keys - {s0}, senders[1..]);
        CommonWithPresent(keys, s0, SenderSet(senders[1..]));
      } else {
        PresentCountIsDistinct(keys, senders[1..]);
        assert keys * SenderSet(senders) == keys * SenderSet(senders[1..]);
      }
    }
  }

  lemma SenderSetCons(senders: seq<Address>)
    requires |senders| > 0
    ensures SenderSet(senders) == {senders[0]} + SenderSet(senders[1..])
  {
    assert senders == [senders[0]] + senders[1..];
  }

  /** A present sender adds one to the senders in common, once. */
  lemma CommonWithPresent(keys: set<Address>, s0: Address, rest: set<Address>)
    requires s0 in keys
    ensures |keys * ({s0} + rest)| == |(keys - {s0}) * rest| + 1
  {
    var others := (keys - {s0}) * rest;
    assert keys * ({s0} + rest) == others + {s0};
    assert s0 !in others;
  }

  /** `RemoveSendersBulk`: afterwards none of the named senders is left; the
      answer is how many distinct named senders were present (duplicates
      count once), as a wrapping `uint32`. */
  function RemoveSendersBulk<L>(m: SenderMap<L>, senders: seq<Address>): (r: (SenderMap<L>, uint32))
    ensures forall s :: s in senders ==> s !in r.0.backingMap
    ensures r.0.backingMap == m.backingMap - SenderSet(senders)
    ensures r.1 == Wrap32(|m.backingMap.Keys * SenderSet(senders)|)
    ensures |m.backingMap| < UINT32_MODULUS ==> r.1 == |m.backingMap.Keys * SenderSet(senders)|
    ensures CounterMatches(m) ==> CounterMatches(r.0)
  {
    var (m', numRemoved) := RemoveSendersFrom(m, senders);
    PresentCountIsDistinct(m.backingMap.Keys, senders);
    RemovedKeysCardinality(m.backingMap, SenderSet(senders));
    (m', Wrap32(numRemoved))
  }

  lemma RemovedKeysCardinality<L>(bm: map<Address, L>, gone: set<Address>)
    ensures |bm - gone| == |bm| - |bm.Keys * gone|
    ensures |bm.Keys * gone| <= |bm|
  {
    assert (bm - gone).Keys == bm.Keys - gone;
    assert bm.Keys == (bm.Keys - gone) + (bm.Keys * gone);
  }

  /** `notifyAccountNonce`: forwards to the sender's list when present;
      a no-op for an absent sender. */
  function NotifyAccountNonce<L>(m: SenderMap<L>, ops: ListOps<L>, accountKey: Address, nonce: uint64): (r: SenderMap<L>)
    ensures accountKey !in m.backingMap ==> r == m
    ensures accountKey in m.backingMap ==>
      r.backingMap == m.backingMap[accountKey := ops.notifyAccountNonce(m.backingMap[accountKey], nonce)]
    ensures r.backingMap.Keys == m.backingMap.Keys && r.counter == m.counter
  {
    match GetListForSender(m, accountKey)
    case None => m
    case Some(listForSender) =>
      m.(backingMap := m.backingMap[accountKey := ops.notifyAccountNonce(listForSender, nonce)])
  }

  /** `order` names every sender of the map exactly once. */
  ghost predicate EnumeratesKeys<L>(m: SenderMap<L>, order: seq<Address>)
  {
    && (forall i, j :: 0 <= i < j < |order| ==> order[i] != order[j])
    && (forall i :: 0 <= i < |order| ==> order[i] in m.backingMap)
    && (forall s :: s in m.backingMap ==> s in order)
  }

  /** `getSnapshotAscending` / `getSnapshotDescending`: the lists in the
      order the backing map enumerates its senders. That order (by score)
      belongs to the backing map and is taken as given; the snapshot holds
      one list per sender, so as many as the counter says. */
  function ListsInOrder<L>(m: SenderMap<L>, order: seq<Address>): (r: seq<L>)
    requires EnumeratesKeys(m, order)
    ensures |r| == |order| == |m.backingMap|
    ensures CounterMatches(m) ==> |r| == m.counter
    ensures forall i :: 0 <= i < |r| ==> r[i] == m.backingMap[order[i]]
    ensures forall s :: s in m.backingMap ==> exists i :: 0 <= i < |r| && order[i] == s && r[i] == m.backingMap[s]
  {
    DistinctCardinality(order);
    assert SenderSet(order) == m.backingMap.Keys;
    seq(|order|, i requires 0 <= i < |order| => m.backingMap[order[i]])
  }

  lemma {:induction false} DistinctCardinality(order: seq<Address>)
    requires forall i, j :: 0 <= i < j < |order| ==> order[i] != order[j]
    ensures |SenderSet(order)| == |order|
  {
    if |order| > 0 {
      DistinctCardinality(order[1..]);
      assert SenderSet(order) == {order[0]} + SenderSet(order[1..]) by {
        assert order == [order[0]] + order[1..];
      }
      assert order[0] !in SenderSet(order[1..]);
    }
  }

  /** `clear`: no senders, counter 0. */
  function Clear<L>(m: SenderMap<L>): (r: SenderMap<L>)
    ensures r.backingMap == map[] && r.counter == 0
    ensures CounterMatches(r)
  {
    SenderMap(map[], 0)
  }
}
