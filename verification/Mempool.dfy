/** The transaction pool of mempool.go. Times are nanoseconds; the hash of a submission (a
    digest that includes the clock) is an argument. */
module Mempool {
  import opened Totals

  const MAX_MEMPOOL_SIZE: int := 10_000
  const MAX_TX_PER_BLOCK: int := 1_000
  const TX_EXPIRY_NS: int := 3600 * 1_000_000_000
  const MIN_FEE: int := 100

  datatype Status = Pending | Confirmed

  datatype PendingTx = PendingTx(
    hash: string, from: string, to: string, amount: int, fee: int, nonce: nat,
    timestamp: int, priority: int, status: Status)

  predicate Live(tx: PendingTx, now: int) {
    now - tx.timestamp <= TX_EXPIRY_NS
  }

  function Cap(maxTxs: int): int {
    if maxTxs > MAX_TX_PER_BLOCK then MAX_TX_PER_BLOCK else maxTxs
  }

  function Hashes(txs: seq<PendingTx>): set<string> {
    set i | 0 <= i < |txs| :: txs[i].hash
  }

  /** What Submit guarantees of every pool entry. */
  ghost predicate WellKept(pending: map<string, PendingTx>) {
    forall h :: h in pending ==>
      && pending[h].hash == h && pending[h].status == Pending
      && pending[h].priority == pending[h].fee >= MIN_FEE
  }

  ghost predicate Distinct(txs: seq<PendingTx>) {
    forall i, j :: 0 <= i < j < |txs| ==> txs[i].hash != txs[j].hash
  }

  ghost predicate Sorted(txs: seq<PendingTx>) {
    forall i, j :: 0 <= i < j < |txs| ==> txs[i].priority >= txs[j].priority
  }

  /** txs are live entries of the pool. */
  ghost predicate Drawn(pending: map<string, PendingTx>, now: int, txs: seq<PendingTx>) {
    forall i :: 0 <= i < |txs| ==> txs[i].hash in pending && pending[txs[i].hash] == txs[i] && Live(txs[i], now)
  }

  /** A block selection: distinct live transactions in descending priority, at most cap of them,
      and whatever live transaction was passed over was passed over for a full block of
      transactions at least as valuable. */
  ghost predicate IsSelection(pending: map<string, PendingTx>, now: int, cap: int, txs: seq<PendingTx>) {
    && Drawn(pending, now, txs) && Distinct(txs) && Sorted(txs)
    && |txs| <= cap
    && forall h :: h in pending && Live(pending[h], now) && h !in Hashes(txs) ==>
         |txs| == cap && forall i :: 0 <= i < |txs| ==> txs[i].priority >= pending[h].priority
  }

  function WithStatus(txs: seq<PendingTx>, st: Status): (r: seq<PendingTx>)
    ensures |r| == |txs|
    ensures forall i :: 0 <= i < |txs| ==> r[i] == txs[i].(status := st)
  {
    seq(|txs|, i requires 0 <= i < |txs| => txs[i].(status := st))
  }

  // ----- Optimality of a selection -----

  /** The fee of a pool entry, by hash. */
  function FeeIn(pending: map<string, PendingTx>): string -> int {
    h => if h in pending then pending[h].fee else 0
  }

  /** totalFees as proposeBlock adds it up. */
  function FeeSum(txs: seq<PendingTx>): int {
    if txs == [] then 0 else FeeSum(txs[..|txs| - 1]) + txs[|txs| - 1].fee
  }

  lemma HashesLast(txs: seq<PendingTx>)
    requires txs != [] && Distinct(txs)
    ensures var n := |txs| - 1;
            Hashes(txs) == Hashes(txs[..n]) + {txs[n].hash} && txs[n].hash !in Hashes(txs[..n])
  {
    var n := |txs| - 1;
    forall h | h in Hashes(txs)
      ensures h in Hashes(txs[..n]) + {txs[n].hash}
    {
      var i :| 0 <= i < |txs| && txs[i].hash == h;
      if i < n {
        assert txs[..n][i].hash == h;
      }
    }
    forall h | h in Hashes(txs[..n])
      ensures h in Hashes(txs) && h != txs[n].hash
    {
      var i :| 0 <= i < n && txs[..n][i].hash == h;
      assert txs[i].hash == h;
    }
  }

  /** Distinct transactions: as many hashes as transactions, and their fees add up the same way. */
  lemma {:induction false} FeesByHash(pending: map<string, PendingTx>, now: int, txs: seq<PendingTx>)
    requires Drawn(pending, now, txs) && Distinct(txs)
    ensures |Hashes(txs)| == |txs| && SetTotal(Hashes(txs), FeeIn(pending)) == FeeSum(txs)
    decreases |txs|
  {
    if txs != [] {
      var n := |txs| - 1;
      HashesLast(txs);
      FeesByHash(pending, now, txs[..n]);
      SetTotalWithout(Hashes(txs), FeeIn(pending), txs[n].hash);
      assert Hashes(txs) - {txs[n].hash} == Hashes(txs[..n]);
    } else {
      assert Hashes(txs) == {};
    }
  }

  lemma DrawnHashes(pending: map<string, PendingTx>, now: int, txs: seq<PendingTx>)
    requires Drawn(pending, now, txs) && Distinct(txs)
    ensures Hashes(txs) <= pending.Keys && |Hashes(txs)| == |txs|
  {
    FeesByHash(pending, now, txs);
  }

  lemma MapMinus(m: map<string, PendingTx>, s: set<string>)
    requires s <= m.Keys
    ensures |m - s| == |m| - |s|
  {
    assert (m - s).Keys == m.Keys - s;
  }

  lemma StatusKeepsHashes(txs: seq<PendingTx>, st: Status)
    ensures Hashes(WithStatus(txs, st)) == Hashes(txs)
  {
    var r := WithStatus(txs, st);
    assert forall i :: 0 <= i < |txs| ==> r[i].hash == txs[i].hash;
  }

  ghost function LiveHashes(pending: map<string, PendingTx>, now: int): set<string> {
    set h | h in pending && Live(pending[h], now)
  }

  /** A selection holds min(cap, number of live transactions) transactions. */
  lemma SelectionSize(pending: map<string, PendingTx>, now: int, cap: int, txs: seq<PendingTx>)
    requires IsSelection(pending, now, cap, txs)
    ensures |txs| == if |LiveHashes(pending, now)| <= cap then |LiveHashes(pending, now)| else cap
  {
    var live := LiveHashes(pending, now);
    FeesByHash(pending, now, txs);
    assert Hashes(txs) <= live;
    SubsetSize(Hashes(txs), live);
    if |txs| < cap {
      assert live == Hashes(txs);
    }
  }

  /** Exactly the transactions of the last hour can be selected: every one chosen is at most an hour
      old, and one left out although it is, was left out for a full block of no smaller fees. */
  lemma SelectionIsFresh(pending: map<string, PendingTx>, now: int, cap: int, txs: seq<PendingTx>, h: string)
    requires WellKept(pending) && IsSelection(pending, now, cap, txs) && h in pending
    ensures h in Hashes(txs) ==> now - pending[h].timestamp <= 3_600_000_000_000
    ensures h !in Hashes(txs) && now - pending[h].timestamp <= 3_600_000_000_000 ==>
              |txs| == cap && forall i :: 0 <= i < |txs| ==> txs[i].fee >= pending[h].fee
  {
    if h in Hashes(txs) {
      var i :| 0 <= i < |txs| && txs[i].hash == h;
      assert pending[txs[i].hash] == txs[i];
    } else if now - pending[h].timestamp <= 3_600_000_000_000 {
      assert Live(pending[h], now);
      forall i | 0 <= i < |txs|
        ensures txs[i].fee >= pending[h].fee
      {
        assert pending[txs[i].hash] == txs[i];
      }
    }
  }

  /** The last transaction of a selection is the cheapest chosen, and no live one left is dearer. */
  lemma CheapestChosen(pending: map<string, PendingTx>, now: int, cap: int, txs: seq<PendingTx>)
    requires WellKept(pending) && IsSelection(pending, now, cap, txs) && txs != []
    ensures var t := txs[|txs| - 1].priority;
            && t >= 0
            && (forall h :: h in Hashes(txs) ==> FeeIn(pending)(h) >= t)
            && (forall h :: h in LiveHashes(pending, now) && h !in Hashes(txs) ==> FeeIn(pending)(h) <= t)
  {
    var w, t := FeeIn(pending), txs[|txs| - 1].priority;
    forall h | h in Hashes(txs)
      ensures w(h) >= t
    {
      var i :| 0 <= i < |txs| && txs[i].hash == h;
      assert i < |txs| - 1 ==> txs[i].priority >= txs[|txs| - 1].priority;
    }
  }

  /** Nothing is selected only if nothing is live or nothing is asked for. */
  lemma EmptySelection(pending: map<string, PendingTx>, now: int, cap: int, txs: seq<PendingTx>, other: set<string>)
    requires IsSelection(pending, now, cap, txs) && txs == []
    requires other <= LiveHashes(pending, now) && |other| <= cap
    ensures other == {}
  {
    assert Hashes(txs) == {};
    assert forall h :: h in other ==> cap == 0;
  }

  /** No other set of at most cap live transactions collects more in fees. */
  lemma SelectionIsOptimal(pending: map<string, PendingTx>, now: int, cap: int, txs: seq<PendingTx>, other: set<string>)
    requires WellKept(pending) && IsSelection(pending, now, cap, txs)
    requires other <= LiveHashes(pending, now) && |other| <= cap
    ensures SetTotal(other, FeeIn(pending)) <= FeeSum(txs)
  {
    var w, mine := FeeIn(pending), Hashes(txs);
    FeesByHash(pending, now, txs);
    SelectionSize(pending, now, cap, txs);
    SubsetSize(other, LiveHashes(pending, now));
    if txs == [] {
      EmptySelection(pending, now, cap, txs, other);
    } else {
      CheapestChosen(pending, now, cap, txs);
      HeavierSet(mine, other, w, txs[|txs| - 1].priority);
    }
  }

  // ----- The pool -----

  datatype SubmitResult = Submitted(tx: PendingTx) | PoolFull | FeeTooLow

  function Position(txs: seq<PendingTx>, tx: PendingTx): (k: nat)
    ensures k <= |txs|
    ensures forall i :: 0 <= i < k ==> txs[i].priority >= tx.priority
    ensures k < |txs| ==> txs[k].priority < tx.priority
  {
    if txs == [] || txs[0].priority < tx.priority then 0 else 1 + Position(txs[1..], tx)
  }

  function Inserted(txs: seq<PendingTx>, tx: PendingTx): seq<PendingTx> {
    var k := Position(txs, tx);
    txs[..k] + [tx] + txs[k..]
  }

  lemma InsertedAt(txs: seq<PendingTx>, tx: PendingTx, i: nat)
    requires i <= |txs|
    ensures var k := Position(txs, tx);
            |Inserted(txs, tx)| == |txs| + 1
            && Inserted(txs, tx)[i] == (if i < k then txs[i] else if i == k then tx else txs[i - 1])
  {
  }

  lemma InsertedSorted(txs: seq<PendingTx>, tx: PendingTx)
    requires Sorted(txs)
    ensures Sorted(Inserted(txs, tx))
  {
    var r := Inserted(txs, tx);
    forall i, j | 0 <= i < j < |r|
      ensures r[i].priority >= r[j].priority
    {
      InsertedAt(txs, tx, i);
      InsertedAt(txs, tx, j);
    }
  }

  lemma InsertedHashes(txs: seq<PendingTx>, tx: PendingTx)
    ensures Hashes(Inserted(txs, tx)) == Hashes(txs) + {tx.hash}
  {
    var k, r := Position(txs, tx), Inserted(txs, tx);
    forall h | h in Hashes(txs) + {tx.hash}
      ensures h in Hashes(r)
    {
      if h == tx.hash {
        assert r[k].hash == h;
      } else {
        var i :| 0 <= i < |txs| && txs[i].hash == h;
        InsertedAt(txs, tx, if i < k then i else i + 1);
      }
    }
    forall h | h in Hashes(r)
      ensures h in Hashes(txs) + {tx.hash}
    {
      var i :| 0 <= i < |r| && r[i].hash == h;
      InsertedAt(txs, tx, i);
    }
  }

  lemma InsertedDistinct(txs: seq<PendingTx>, tx: PendingTx)
    requires Distinct(txs) && tx.hash !in Hashes(txs)
    ensures Distinct(Inserted(txs, tx))
  {
    var r := Inserted(txs, tx);
    assert forall i :: 0 <= i < |txs| ==> txs[i].hash in Hashes(txs);
    forall i, j | 0 <= i < j < |r|
      ensures r[i].hash != r[j].hash
    {
      InsertedAt(txs, tx, i);
      InsertedAt(txs, tx, j);
    }
  }

  lemma InsertedDrawn(pending: map<string, PendingTx>, now: int, txs: seq<PendingTx>, tx: PendingTx)
    requires Drawn(pending, now, txs) && Drawn(pending, now, [tx])
    ensures Drawn(pending, now, Inserted(txs, tx))
  {
    var r := Inserted(txs, tx);
    assert [tx][0] == tx;
    forall i | 0 <= i < |r|
      ensures r[i].hash in pending && pending[r[i].hash] == r[i] && Live(r[i], now)
    {
      InsertedAt(txs, tx, i);
    }
  }

  /** sort.Slice by descending priority, on the candidates of one block. */
  method SortByPriority(txs: seq<PendingTx>, ghost pending: map<string, PendingTx>, ghost now: int)
    returns (r: seq<PendingTx>)
    requires Distinct(txs) && Drawn(pending, now, txs)
    ensures Sorted(r) && Distinct(r) && Drawn(pending, now, r) && Hashes(r) == Hashes(txs)
  {
    r := [];
    for i := 0 to |txs|
      invariant Sorted(r) && Distinct(r) && Drawn(pending, now, r) && Hashes(r) == Hashes(txs[..i])
    {
      HashesStep(txs, i);
      InsertedSorted(r, txs[i]);
      InsertedHashes(r, txs[i]);
      InsertedDistinct(r, txs[i]);
      InsertedDrawn(pending, now, r, txs[i]);
      r := Inserted(r, txs[i]);
    }
    assert txs[..|txs|] == txs;
  }

  lemma HashesStep(txs: seq<PendingTx>, i: nat)
    requires i < |txs| && Distinct(txs)
    ensures Hashes(txs[..i + 1]) == Hashes(txs[..i]) + {txs[i].hash} && txs[i].hash !in Hashes(txs[..i])
  {
    HashesLast(txs[..i + 1]);
    assert txs[..i + 1][..i] == txs[..i];
  }

  /** A prefix of all live transactions in order is a selection. */
  lemma PrefixIsSelection(pending: map<string, PendingTx>, now: int, cap: nat, all: seq<PendingTx>)
    requires Sorted(all) && Distinct(all) && Drawn(pending, now, all) && Hashes(all) == LiveHashes(pending, now)
    ensures IsSelection(pending, now, cap, if |all| > cap then all[..cap] else all)
  {
    var txs := if |all| > cap then all[..cap] else all;
    forall h | h in pending && Live(pending[h], now) && h !in Hashes(txs)
      ensures |txs| == cap && forall i :: 0 <= i < |txs| ==> txs[i].priority >= pending[h].priority
    {
      assert h in Hashes(all);
      var j :| 0 <= j < |all| && all[j].hash == h;
      assert pending[h] == all[j];
    }
  }

  predicate ConfirmedAndFresh(txs: seq<PendingTx>, now: int) {
    forall i :: 0 <= i < |txs| ==> txs[i].status == Confirmed && now - txs[i].timestamp <= 3_600_000_000_000
  }

  class Pool {
    var pending: map<string, PendingTx>
    var size: int

    ghost predicate Valid()
      reads this
    {
      WellKept(pending)
    }

    /** The size counter counts the entries. */
    ghost predicate Counted()
      reads this
    {
      size == |pending| <= MAX_MEMPOOL_SIZE
    }

    constructor ()
      ensures Valid() && Counted() && pending == map[]
    {
      pending := map[];
      size := 0;
    }

    /** The counter drifts from the map exactly when a submission repeats a pending hash. */
    method Submit(hash: string, from: string, to: string, amount: int, fee: int, nonce: nat, now: int)
      returns (r: SubmitResult)
      requires Valid()
      modifies this
      ensures Valid()
      ensures r.PoolFull? <==> old(size) >= 10_000
      ensures r.FeeTooLow? <==> old(size) < 10_000 && fee < 100
      ensures if r.Submitted? then
                && r.tx == PendingTx(hash, from, to, amount, fee, nonce, now, fee, Pending)
                && pending == old(pending)[hash := r.tx] && size == old(size) + 1
              else pending == old(pending) && size == old(size)
      ensures r.Submitted? && old(Counted()) ==> (Counted() <==> hash !in old(pending))
    {
      if size >= MAX_MEMPOOL_SIZE {
        return PoolFull;
      }
      if fee < MIN_FEE {
        return FeeTooLow;
      }
      var tx := PendingTx(hash, from, to, amount, fee, nonce, now, fee, Pending);
      pending := pending[hash := tx];
      size := size + 1;
      return Submitted(tx);
    }

    /** Truncating to a negative length panics in the source, hence maxTxs >= 0. */
    method SelectForBlock(maxTxs: int, now: int) returns (r: seq<PendingTx>)
      requires Valid() && maxTxs >= 0
      modifies this
      ensures Valid()
      ensures IsSelection(old(pending), now, Cap(maxTxs), WithStatus(r, Pending))
      ensures ConfirmedAndFresh(r, now)
      ensures |r| <= maxTxs && |r| <= 1_000
      ensures |r| == maxTxs || |r| == 1_000 || |r| == |LiveHashes(old(pending), now)|
      ensures pending == old(pending) - Hashes(r) && size == old(size) - |r|
      ensures old(Counted()) ==> Counted()
    {
      var cap := if maxTxs > MAX_TX_PER_BLOCK then MAX_TX_PER_BLOCK else maxTxs;
      var candidates := CollectLive(now);
      candidates := SortByPriority(candidates, pending, now);
      PrefixIsSelection(pending, now, cap, candidates);
      if |candidates| > cap {
        candidates := candidates[..cap];
      }
      DrawnHashes(pending, now, candidates);
      MapMinus(pending, Hashes(candidates));
      r := Confirm(candidates);
      assert WithStatus(r, Pending) == candidates;
      StatusKeepsHashes(candidates, Confirmed);
      SelectionSize(old(pending), now, cap, candidates);
    }

    /** Marks the selected transactions and takes them out of the pool, one by one. */
    method Confirm(txs: seq<PendingTx>) returns (r: seq<PendingTx>)
      requires Distinct(txs)
      modifies this
      ensures r == WithStatus(txs, Confirmed)
      ensures pending == old(pending) - Hashes(txs) && size == old(size) - |txs|
    {
      r := [];
      var i := 0;
      while i < |txs|
        invariant 0 <= i <= |txs| && |r| == i
        invariant forall j :: 0 <= j < i ==> r[j] == txs[j].(status := Confirmed)
        invariant pending == old(pending) - Hashes(txs[..i])
        invariant size == old(size) - i
      {
        HashesStep(txs, i);
        r := r + [txs[i].(status := Confirmed)];
        pending := pending - {txs[i].hash};
        size := size - 1;
        i := i + 1;
      }
      assert txs[..i] == txs;
    }

    /** The live entries, in the arbitrary order of a map range. */
    method CollectLive(now: int) returns (txs: seq<PendingTx>)
      requires Valid()
      ensures Distinct(txs) && Drawn(pending, now, txs) && Hashes(txs) == LiveHashes(pending, now)
    {
      txs := [];
      var todo := pending.Keys;
      while todo != {}
        invariant todo <= pending.Keys
        invariant Distinct(txs) && Drawn(pending, now, txs)
        invariant Hashes(txs) == LiveHashes(pending, now) - todo
        decreases |todo|
      {
        var h :| h in todo;
        CollectStep(pending, now, txs, todo, h);
        if Live(pending[h], now) {
          txs := txs + [pending[h]];
        }
        todo := todo - {h};
      }
    }

    /** One pass of cleanupRoutine. */
    method Cleanup(now: int)
      requires Valid()
      modifies this
      ensures Valid()
      ensures pending == old(pending) - (old(pending).Keys - LiveHashes(old(pending), now))
      ensures forall h :: h in old(pending) ==>
                (h in pending <==> now - old(pending)[h].timestamp <= 3_600_000_000_000)
      ensures old(size) - size == |old(pending)| - |pending|
      ensures old(Counted()) ==> Counted()
    {
      LiveIsKept(pending, now);
      var kept, count := DropStale(pending, now);
      pending := kept;
      size := size - count;
    }
  }

  lemma CollectStep(pending: map<string, PendingTx>, now: int, txs: seq<PendingTx>, todo: set<string>, h: string)
    requires WellKept(pending) && todo <= pending.Keys && h in todo
    requires Distinct(txs) && Drawn(pending, now, txs) && Hashes(txs) == LiveHashes(pending, now) - todo
    ensures var more := if Live(pending[h], now) then txs + [pending[h]] else txs;
            Distinct(more) && Drawn(pending, now, more) && Hashes(more) == LiveHashes(pending, now) - (todo - {h})
  {
    if Live(pending[h], now) {
      AppendHash(txs, pending[h]);
    }
  }

  /** The entries that are live or still to be looked at. */
  function Kept(pending: map<string, PendingTx>, now: int, todo: set<string>): map<string, PendingTx> {
    map h | h in pending && (h in todo || Live(pending[h], now)) :: pending[h]
  }

  lemma LiveIsKept(pending: map<string, PendingTx>, now: int)
    ensures Kept(pending, now, {}) == pending - (pending.Keys - LiveHashes(pending, now))
  {
  }

  lemma KeptStep(pending: map<string, PendingTx>, now: int, todo: set<string>, h: string)
    requires h in todo && h in pending
    ensures Kept(pending, now, todo - {h})
         == (if Live(pending[h], now) then Kept(pending, now, todo) else Kept(pending, now, todo) - {h})
    ensures h in Kept(pending, now, todo)
  {
  }

  /** The range loop of cleanupRoutine with its counter. */
  method DropStale(pending: map<string, PendingTx>, now: int) returns (kept: map<string, PendingTx>, count: nat)
    ensures kept == Kept(pending, now, {}) && count == |pending| - |kept|
  {
    kept, count := pending, 0;
    var todo := pending.Keys;
    assert kept == Kept(pending, now, todo);
    while todo != {}
      invariant todo <= pending.Keys
      invariant kept == Kept(pending, now, todo)
      invariant count == |pending| - |kept|
      decreases |todo|
    {
      var h :| h in todo;
      KeptStep(pending, now, todo, h);
      if !Live(pending[h], now) {
        kept := kept - {h};
        count := count + 1;
      }
      todo := todo - {h};
    }
  }

  lemma AppendHash(txs: seq<PendingTx>, tx: PendingTx)
    requires Distinct(txs) && tx.hash !in Hashes(txs)
    ensures Distinct(txs + [tx]) && Hashes(txs + [tx]) == Hashes(txs) + {tx.hash}
  {
    assert forall i :: 0 <= i < |txs| ==> txs[i].hash in Hashes(txs);
    var r := txs + [tx];
    HashesLast(r) by {
      assert Distinct(r);
    }
    assert r[..|txs|] == txs;
  }
}
