/** The account map of state.go, for every int64 amount and fee. int64 arithmetic is written out
    with I64; nonces are unbounded. */
module Ledger {
  import opened Words
  import opened Totals

  datatype Account = Account(balance: int, nonce: nat, publicKey: string)

  datatype Transaction = Transaction(from: string, to: string, amount: int, fee: int, nonce: nat, height: int)

  datatype GenesisEntry = GenesisEntry(address: string, amount: int, publicKey: string)

  function BalanceOf(a: Account): int { a.balance }

  function GetBalance(accounts: map<string, Account>, who: string): int {
    if who in accounts then accounts[who].balance else 0
  }

  function GetNonce(accounts: map<string, Account>, who: string): nat {
    if who in accounts then accounts[who].nonce else 0
  }

  function GetKey(accounts: map<string, Account>, who: string): string {
    if who in accounts then accounts[who].publicKey else ""
  }

  /** Every balance is an int64. */
  predicate Typed(accounts: map<string, Account>) {
    forall x :: x in accounts ==> IsInt64(accounts[x].balance)
  }

  /** Every balance is a non-negative int64. */
  ghost predicate InRange(accounts: map<string, Account>) {
    forall x :: x in accounts ==> 0 <= accounts[x].balance <= MAX_INT64
  }

  /** No balance is negative, and all of them together fit in int64. */
  ghost predicate Sane(accounts: map<string, Account>) {
    && (forall x :: x in accounts ==> accounts[x].balance >= 0)
    && Total(accounts, BalanceOf) <= MAX_INT64
  }

  lemma BalanceBound(accounts: map<string, Account>, who: string)
    requires Sane(accounts)
    ensures 0 <= GetBalance(accounts, who) <= Total(accounts, BalanceOf) <= MAX_INT64
  {
    TotalBounds(accounts, BalanceOf);
  }

  lemma SaneIsInRange(accounts: map<string, Account>)
    requires Sane(accounts)
    ensures InRange(accounts) && Typed(accounts)
  {
    TotalBounds(accounts, BalanceOf);
  }

  /** Two accounts together hold no more than all. */
  lemma TwoBalances(accounts: map<string, Account>, x: string, y: string)
    requires Sane(accounts) && x != y
    ensures 0 <= GetBalance(accounts, x) + GetBalance(accounts, y) <= Total(accounts, BalanceOf)
  {
    BalanceBound(accounts, x);
    BalanceBound(accounts, y);
    if x in accounts {
      TotalWithout(accounts, BalanceOf, x);
      var rest := accounts - {x};
      TotalBounds(rest, BalanceOf);
      assert y in accounts ==> y in rest && rest[y] == accounts[y];
    }
  }

  // ----- Updates through the account pointers of the source -----

  /** A missing receiver is created with nothing. */
  function Opened(accounts: map<string, Account>, who: string): map<string, Account> {
    if who in accounts then accounts else accounts[who := Account(0, 0, "")]
  }

  function Debited(accounts: map<string, Account>, who: string, x: int): map<string, Account>
    requires who in accounts
  {
    accounts[who := accounts[who].(balance := I64(accounts[who].balance - x))]
  }

  function Credited(accounts: map<string, Account>, who: string, x: int): map<string, Account>
    requires who in accounts
  {
    accounts[who := accounts[who].(balance := I64(accounts[who].balance + x))]
  }

  function Bumped(accounts: map<string, Account>, who: string): map<string, Account>
    requires who in accounts
  {
    accounts[who := accounts[who].(nonce := accounts[who].nonce + 1)]
  }

  /** The check of both transfers: amount + fee may wrap around. */
  predicate Covered(accounts: map<string, Account>, from: string, amount: int, fee: int) {
    from in accounts && I64(amount + fee) <= accounts[from].balance
  }

  /** The transfer, executed once all checks have passed; from == to is one account. */
  function Moved(accounts: map<string, Account>, from: string, to: string, amount: int, fee: int): map<string, Account>
    requires from in accounts
  {
    Bumped(Credited(Debited(Opened(accounts, to), from, I64(amount + fee)), to, amount), from)
  }

  /** What a transfer adds to the balance of x. */
  function Delta(from: string, to: string, amount: int, fee: int, x: string): int {
    (if x == to then amount else 0) - (if x == from then amount + fee else 0)
  }

  /** Setting one balance moves the sum by the difference. */
  lemma Rebalanced(accounts: map<string, Account>, who: string, balance: int)
    requires who in accounts
    ensures var m := accounts[who := accounts[who].(balance := balance)];
            && m.Keys == accounts.Keys && (Typed(accounts) && IsInt64(balance) ==> Typed(m))
            && Total(m, BalanceOf) == Total(accounts, BalanceOf) + balance - accounts[who].balance
            && forall y :: GetBalance(m, y) == if y == who then balance else GetBalance(accounts, y)
  {
    TotalUpdate(accounts, BalanceOf, who, accounts[who].(balance := balance));
  }

  /** A debit or credit, modulo 2^64: the balance and the sum of all move by x, nothing else does. */
  lemma CreditedEntries(accounts: map<string, Account>, who: string, x: int)
    requires who in accounts
    ensures var m := Credited(accounts, who, x);
            && m.Keys == accounts.Keys && (Typed(accounts) ==> Typed(m))
            && I64(Total(m, BalanceOf)) == I64(Total(accounts, BalanceOf) + x)
            && forall y :: y != who ==> GetBalance(m, y) == GetBalance(accounts, y)
  {
    var b, t := accounts[who].balance, Total(accounts, BalanceOf);
    var n := I64(b + x);
    Rebalanced(accounts, who, n);
    Shifted(b, x, t, n);
  }

  /** A covered debit is exact and keeps every balance in range. */
  lemma DebitedExactly(accounts: map<string, Account>, who: string, x: int)
    requires InRange(accounts) && who in accounts && 0 <= x <= accounts[who].balance
    ensures var m := Debited(accounts, who, x);
            && InRange(m) && m.Keys == accounts.Keys && Total(m, BalanceOf) == Total(accounts, BalanceOf) - x
            && forall y :: GetBalance(m, y) == GetBalance(accounts, y) - if y == who then x else 0
  {
    Rebalanced(accounts, who, accounts[who].balance - x);
  }

  /** A credit keeps every balance in range, and is exact, if and only if the new balance is an int64. */
  lemma CreditedExactly(accounts: map<string, Account>, who: string, x: int)
    requires InRange(accounts) && who in accounts && x >= 0
    ensures var m := Credited(accounts, who, x);
            && m.Keys == accounts.Keys
            && (InRange(m) && Total(m, BalanceOf) == Total(accounts, BalanceOf) + x
                <==> accounts[who].balance + x <= MAX_INT64)
            && (accounts[who].balance + x <= MAX_INT64 ==>
                  forall y :: GetBalance(m, y) == GetBalance(accounts, y) + if y == who then x else 0)
  {
    Rebalanced(accounts, who, I64(accounts[who].balance + x));
  }

  /** The three steps of the arithmetic of a transfer on the two balances. */
  lemma MovedBalances(b: int, amount: int, fee: int)
    ensures I64(b - I64(amount + fee)) == I64(b - amount - fee)
    ensures I64(I64(b - I64(amount + fee)) + amount) == I64(b - fee)
  {
    I64Subtracts(b, amount + fee);
    I64Adds(b - amount - fee, amount);
  }

  lemma MovedEntry(accounts: map<string, Account>, from: string, to: string, amount: int, fee: int, x: string)
    requires Typed(accounts) && from in accounts
    ensures var m := Moved(accounts, from, to, amount, fee);
            && GetBalance(m, x) == I64(GetBalance(accounts, x) + Delta(from, to, amount, fee, x))
            && GetNonce(m, x) == GetNonce(accounts, x) + (if x == from then 1 else 0)
            && GetKey(m, x) == GetKey(accounts, x)
            && (x in m <==> x in accounts || x == to)
  {
    MovedBalances(GetBalance(accounts, from), amount, fee);
  }

  /** Every account after a transfer, for all amounts, modulo 2^64: balance, nonce and key, and
      which accounts there are. Self-transfers are included. */
  lemma MovedEntries(accounts: map<string, Account>, from: string, to: string, amount: int, fee: int)
    requires Typed(accounts) && from in accounts
    ensures var m := Moved(accounts, from, to, amount, fee);
            && Typed(m) && m.Keys == accounts.Keys + {to}
            && forall x ::
                 && GetBalance(m, x) == I64(GetBalance(accounts, x) + Delta(from, to, amount, fee, x))
                 && GetNonce(m, x) == GetNonce(accounts, x) + (if x == from then 1 else 0)
                 && GetKey(m, x) == GetKey(accounts, x)
  {
    var m := Moved(accounts, from, to, amount, fee);
    forall x
      ensures GetBalance(m, x) == I64(GetBalance(accounts, x) + Delta(from, to, amount, fee, x))
      ensures GetNonce(m, x) == GetNonce(accounts, x) + (if x == from then 1 else 0)
      ensures GetKey(m, x) == GetKey(accounts, x)
    {
      MovedEntry(accounts, from, to, amount, fee, x);
    }
    assert forall x :: x in m ==> m[x].balance == GetBalance(m, x);
  }

  /** The sum of all balances moves by what the two accounts move. */
  lemma MovedTotal(accounts: map<string, Account>, from: string, to: string, amount: int, fee: int)
    requires from in accounts
    ensures var m := Moved(accounts, from, to, amount, fee);
            Total(m, BalanceOf) == Total(accounts, BalanceOf) + GetBalance(m, from) - GetBalance(accounts, from)
                                   + (if from == to then 0 else GetBalance(m, to) - GetBalance(accounts, to))
  {
    var a := Opened(accounts, to);
    TotalUpdate(accounts, BalanceOf, to, Account(0, 0, ""));
    MovedOpened(a, from, to, amount, I64(amount + fee));
    assert GetBalance(a, from) == GetBalance(accounts, from) && GetBalance(a, to) == GetBalance(accounts, to);
  }

  lemma MovedOpened(a: map<string, Account>, from: string, to: string, amount: int, total: int)
    requires from in a && to in a
    ensures var m := Bumped(Credited(Debited(a, from, total), to, amount), from);
            Total(m, BalanceOf) == Total(a, BalanceOf) + GetBalance(m, from) - GetBalance(a, from)
                                   + (if from == to then 0 else GetBalance(m, to) - GetBalance(a, to))
  {
    var n := I64(a[from].balance - total);
    var b := a[from := a[from].(balance := n)];
    assert Debited(a, from, total) == b;
    BothSet(a, from, to, n, I64(b[to].balance + amount));
  }

  lemma BothSet(a: map<string, Account>, from: string, to: string, n: int, k: int)
    requires from in a && to in a
    ensures var b := a[from := a[from].(balance := n)];
            var m := Bumped(b[to := b[to].(balance := k)], from);
            Total(m, BalanceOf) == Total(a, BalanceOf) + GetBalance(m, from) - GetBalance(a, from)
                                   + (if from == to then 0 else GetBalance(m, to) - GetBalance(a, to))
  {
    var b := a[from := a[from].(balance := n)];
    Rebalanced(a, from, n);
    var c := b[to := b[to].(balance := k)];
    Rebalanced(b, to, k);
    TotalUpdate(c, BalanceOf, from, c[from].(nonce := c[from].nonce + 1));
  }

  /** For all amounts, the sum of all balances drops by the fee, modulo 2^64. */
  lemma MovedTotalModulo(accounts: map<string, Account>, from: string, to: string, amount: int, fee: int)
    requires Typed(accounts) && from in accounts
    ensures I64(Total(Moved(accounts, from, to, amount, fee), BalanceOf)) == I64(Total(accounts, BalanceOf) - fee)
  {
    var m := Moved(accounts, from, to, amount, fee);
    MovedTotal(accounts, from, to, amount, fee);
    MovedEntry(accounts, from, to, amount, fee, from);
    MovedEntry(accounts, from, to, amount, fee, to);
    var t, b, r := Total(accounts, BalanceOf), GetBalance(accounts, from), GetBalance(accounts, to);
    if from == to {
      Shifted(b, -fee, t, GetBalance(m, from));
    } else {
      ShiftedTwice(t, b, r, amount, fee, GetBalance(m, from), GetBalance(m, to));
    }
  }

  lemma ShiftedTwice(t: int, b: int, r: int, amount: int, fee: int, n: int, k: int)
    requires n == I64(b - (amount + fee)) && k == I64(r + amount)
    ensures I64(t + n - b + k - r) == I64(t - fee)
  {
    Shifted(b, -(amount + fee), t, n);
    Shifted(r, amount, t + n - b, k);
    SameShift(t + n - b, t - (amount + fee), amount);
  }

  predicate Fitting(x: int) { 0 <= x <= MAX_INT64 }

  /** What the caller of a transfer can check: the two balances it leads to, without wrap-around. */
  predicate Fits(accounts: map<string, Account>, from: string, to: string, amount: int, fee: int) {
    if from == to then Fitting(GetBalance(accounts, from) - fee)
    else Fitting(GetBalance(accounts, from) - amount - fee) && Fitting(GetBalance(accounts, to) + amount)
  }

  /** For every int64 amount and fee, a transfer that the source accepts keeps all balances
      non-negative and drops their sum by exactly the fee if and only if it fits. */
  lemma MovedExactly(accounts: map<string, Account>, from: string, to: string, amount: int, fee: int)
    requires InRange(accounts) && IsInt64(amount) && IsInt64(fee) && Covered(accounts, from, amount, fee)
    ensures var m := Moved(accounts, from, to, amount, fee);
            InRange(m) && Total(m, BalanceOf) == Total(accounts, BalanceOf) - fee
            <==> Fits(accounts, from, to, amount, fee)
  {
    var m := Moved(accounts, from, to, amount, fee);
    if Fits(accounts, from, to, amount, fee) {
      FittingTransfer(accounts, from, to, amount, fee);
    }
    if InRange(m) && Total(m, BalanceOf) == Total(accounts, BalanceOf) - fee {
      ExactTransferFits(accounts, from, to, amount, fee);
    }
  }

  lemma ExactTransferFits(accounts: map<string, Account>, from: string, to: string, amount: int, fee: int)
    requires InRange(accounts) && IsInt64(amount) && from in accounts
    requires var m := Moved(accounts, from, to, amount, fee);
             InRange(m) && Total(m, BalanceOf) == Total(accounts, BalanceOf) - fee
    ensures Fits(accounts, from, to, amount, fee)
  {
    var m := Moved(accounts, from, to, amount, fee);
    MovedEntry(accounts, from, to, amount, fee, from);
    MovedEntry(accounts, from, to, amount, fee, to);
    MovedTotal(accounts, from, to, amount, fee);
    assert Fitting(GetBalance(m, from)) && Fitting(GetBalance(m, to));
    NotWrapped(GetBalance(accounts, to), amount, GetBalance(m, to));
  }

  lemma NotWrapped(r: int, amount: int, n: int)
    requires 0 <= r <= MAX_INT64 && IsInt64(amount)
    ensures n == I64(r + amount) >= 0 ==> n == r + amount
  {
    if r + amount > MAX_INT64 {
      assert I64(r + amount - TWO_64) < 0;
    }
  }

  /** A transfer that fits is exact on every account. */
  lemma FittingTransfer(accounts: map<string, Account>, from: string, to: string, amount: int, fee: int)
    requires InRange(accounts) && from in accounts && Fits(accounts, from, to, amount, fee)
    ensures var m := Moved(accounts, from, to, amount, fee);
            && InRange(m) && Total(m, BalanceOf) == Total(accounts, BalanceOf) - fee
            && forall x :: GetBalance(m, x) == GetBalance(accounts, x) + Delta(from, to, amount, fee, x)
  {
    var m := Moved(accounts, from, to, amount, fee);
    MovedEntries(accounts, from, to, amount, fee);
    MovedTotal(accounts, from, to, amount, fee);
    forall x
      ensures GetBalance(m, x) == GetBalance(accounts, x) + Delta(from, to, amount, fee, x)
      ensures Fitting(GetBalance(m, x))
    {
      assert Fitting(GetBalance(accounts, x) + Delta(from, to, amount, fee, x));
    }
    assert forall x :: x in m ==> m[x].balance == GetBalance(m, x);
  }

  /** While all balances together fit in int64, non-negative amounts whose sum is an int64 fit
      whenever the source accepts them. */
  lemma OrdinaryFits(accounts: map<string, Account>, from: string, to: string, amount: int, fee: int)
    requires Sane(accounts) && Covered(accounts, from, amount, fee)
    requires amount >= 0 && fee >= 0 && amount + fee <= MAX_INT64
    ensures Fits(accounts, from, to, amount, fee)
  {
    BalanceBound(accounts, from);
    BalanceBound(accounts, to);
    if from != to {
      TwoBalances(accounts, from, to);
    }
  }

  /** Who loses by an accepted transfer: another account exactly when the amount is negative, or so
      large that the receiver wraps around. When the transfer fits, coins come into being exactly
      when the fee is negative. */
  lemma WhoPays(accounts: map<string, Account>, from: string, to: string, amount: int, fee: int)
    requires InRange(accounts) && IsInt64(amount) && IsInt64(fee) && Covered(accounts, from, amount, fee)
    ensures var m := Moved(accounts, from, to, amount, fee);
            && ((exists x :: x != from && GetBalance(m, x) < GetBalance(accounts, x))
                <==> from != to && (amount < 0 || GetBalance(accounts, to) + amount > MAX_INT64))
            && (Fits(accounts, from, to, amount, fee) ==>
                  (Total(m, BalanceOf) > Total(accounts, BalanceOf) <==> fee < 0))
  {
    var m := Moved(accounts, from, to, amount, fee);
    MovedEntries(accounts, from, to, amount, fee);
    if Fits(accounts, from, to, amount, fee) {
      FittingTransfer(accounts, from, to, amount, fee);
    }
    if from != to {
      var r := GetBalance(accounts, to);
      NotWrapped(r, amount, GetBalance(m, to));
      assert GetBalance(m, to) < r <==> amount < 0 || r + amount > MAX_INT64;
    }
  }

  /** The two balances a transfer leads to decide, not the amounts: this one covers a positive amount
      with a negative fee and wraps the receiver around, ... */
  lemma AcceptedAndWrapped()
    ensures var e := 1_000_000_000_000_000_000;
            var accounts := map["a" := Account(0, 0, ""), "b" := Account(e, 0, "")];
            && Covered(accounts, "a", 9 * e, -9 * e) && !Fits(accounts, "a", "b", 9 * e, -9 * e)
            && GetBalance(Moved(accounts, "a", "b", 9 * e, -9 * e), "b") < 0
  {
    var e := 1_000_000_000_000_000_000;
    var accounts := map["a" := Account(0, 0, ""), "b" := Account(e, 0, "")];
    MovedEntry(accounts, "a", "b", 9 * e, -9 * e, "b");
    assert I64(10 * e - TWO_64) < 0;
  }

  /** ... and this one lets a sender with 5 take 101 from a receiver with 100. */
  lemma AcceptedAndOverdrawn()
    ensures var accounts := map["a" := Account(5, 0, ""), "b" := Account(100, 0, "")];
            && Covered(accounts, "a", -101, 1) && !Fits(accounts, "a", "b", -101, 1)
            && GetBalance(Moved(accounts, "a", "b", -101, 1), "b") == -1
  {
    var accounts := map["a" := Account(5, 0, ""), "b" := Account(100, 0, "")];
    MovedEntry(accounts, "a", "b", -101, 1, "b");
  }

  // ----- What the log says -----

  /** One logged transfer. */
  function Applied(accounts: map<string, Account>, tx: Transaction): map<string, Account> {
    if tx.from in accounts then Moved(accounts, tx.from, tx.to, tx.amount, tx.fee) else accounts
  }

  /** All logged transfers, in order. */
  function Replay(opening: map<string, Account>, txs: seq<Transaction>): map<string, Account> {
    if txs == [] then opening else Applied(Replay(opening, txs[..|txs| - 1]), txs[|txs| - 1])
  }

  /** Transaction i was sent by an account that existed and could pay, with its next nonce. */
  predicate SentInOrder(opening: map<string, Account>, txs: seq<Transaction>, i: nat)
    requires i < |txs|
  {
    var before := Replay(opening, txs[..i]);
    Covered(before, txs[i].from, txs[i].amount, txs[i].fee) && txs[i].nonce == before[txs[i].from].nonce + 1
  }

  /** The accounts are the replay of the log from the accounts that InitGenesis opened. */
  ghost predicate Explained(accounts: map<string, Account>, opening: map<string, Account>, txs: seq<Transaction>) {
    && accounts == Replay(opening, txs)
    && Typed(opening) && (forall x :: x in opening ==> opening[x].nonce == 0)
    && (forall i :: 0 <= i < |txs| ==> SentInOrder(opening, txs, i))
  }

  function Received(txs: seq<Transaction>, x: string): int {
    if txs == [] then 0
    else Received(txs[..|txs| - 1], x) + if txs[|txs| - 1].to == x then txs[|txs| - 1].amount else 0
  }

  function Spent(txs: seq<Transaction>, x: string): int {
    if txs == [] then 0
    else
      var tx := txs[|txs| - 1];
      Spent(txs[..|txs| - 1], x) + if tx.from == x then tx.amount + tx.fee else 0
  }

  function SentCount(txs: seq<Transaction>, x: string): nat {
    if txs == [] then 0
    else SentCount(txs[..|txs| - 1], x) + if txs[|txs| - 1].from == x then 1 else 0
  }

  lemma ExplainedBefore(accounts: map<string, Account>, opening: map<string, Account>, txs: seq<Transaction>, n: nat)
    requires Explained(accounts, opening, txs) && n <= |txs|
    ensures Explained(Replay(opening, txs[..n]), opening, txs[..n])
  {
    var some := txs[..n];
    forall i | 0 <= i < n
      ensures SentInOrder(opening, some, i)
    {
      assert some[..i] == txs[..i] && SentInOrder(opening, txs, i);
    }
  }

  /** What a replayed log comes to, account by account: balance = opening + received - spent
      modulo 2^64, nonce = number of transactions sent, the key never changes, and the accounts
      are those opened and those that received something. */
  lemma {:induction false} LogExplains(accounts: map<string, Account>, opening: map<string, Account>,
                                       txs: seq<Transaction>, x: string)
    requires Explained(accounts, opening, txs)
    ensures GetBalance(accounts, x) == I64(GetBalance(opening, x) + Received(txs, x) - Spent(txs, x))
    ensures GetNonce(accounts, x) == SentCount(txs, x)
    ensures GetKey(accounts, x) == GetKey(opening, x)
    ensures x in accounts <==> x in opening || exists i :: 0 <= i < |txs| && txs[i].to == x
    decreases |txs|
  {
    if txs == [] {
    } else {
      var n := |txs| - 1;
      var tx, before := txs[n], Replay(opening, txs[..n]);
      ExplainedBefore(accounts, opening, txs, n);
      ReplayTyped(before, opening, txs[..n]);
      LogExplains(before, opening, txs[..n], x);
      assert SentInOrder(opening, txs, n);
      MovedEntry(before, tx.from, tx.to, tx.amount, tx.fee, x);
      I64Adds(GetBalance(opening, x) + Received(txs[..n], x) - Spent(txs[..n], x),
              Delta(tx.from, tx.to, tx.amount, tx.fee, x));
      ReceiversGrow(txs, x);
    }
  }

  lemma {:induction false} ReplayTyped(accounts: map<string, Account>, opening: map<string, Account>,
                                       txs: seq<Transaction>)
    requires Explained(accounts, opening, txs)
    ensures Typed(accounts)
    decreases |txs|
  {
    if txs != [] {
      var n := |txs| - 1;
      var tx, before := txs[n], Replay(opening, txs[..n]);
      ExplainedBefore(accounts, opening, txs, n);
      ReplayTyped(before, opening, txs[..n]);
      assert SentInOrder(opening, txs, n);
      MovedEntries(before, tx.from, tx.to, tx.amount, tx.fee);
    }
  }

  lemma ReceiversGrow(txs: seq<Transaction>, x: string)
    requires txs != []
    ensures var n := |txs| - 1;
            (exists i :: 0 <= i < |txs| && txs[i].to == x)
            <==> txs[n].to == x || exists i :: 0 <= i < n && txs[..n][i].to == x
  {
    var n := |txs| - 1;
    if i :| 0 <= i < |txs| && txs[i].to == x {
      assert i == n || txs[..n][i].to == x;
    }
    if i :| 0 <= i < n && txs[..n][i].to == x {
      assert txs[i].to == x;
    }
  }

  /** The k-th transaction of an account carries nonce k. */
  lemma NonceIsCount(accounts: map<string, Account>, opening: map<string, Account>, txs: seq<Transaction>, i: nat)
    requires Explained(accounts, opening, txs) && i < |txs|
    ensures txs[i].nonce == SentCount(txs[..i], txs[i].from) + 1 == SentCount(txs[..i + 1], txs[i].from)
  {
    ExplainedBefore(accounts, opening, txs, i);
    LogExplains(Replay(opening, txs[..i]), opening, txs[..i], txs[i].from);
    assert SentInOrder(opening, txs, i);
    assert txs[..i + 1][..i] == txs[..i];
  }

  /** Two transactions of one sender never carry the same nonce, and later ones carry larger ones. */
  lemma NoncesIncrease(accounts: map<string, Account>, opening: map<string, Account>, txs: seq<Transaction>,
                       i: nat, j: nat)
    requires Explained(accounts, opening, txs) && i < j < |txs| && txs[i].from == txs[j].from
    ensures 0 < txs[i].nonce < txs[j].nonce
  {
    NonceIsCount(accounts, opening, txs, i);
    NonceIsCount(accounts, opening, txs, j);
    CountGrows(txs, txs[i].from, i + 1, j);
  }

  lemma {:induction false} CountGrows(txs: seq<Transaction>, x: string, a: nat, b: nat)
    requires a <= b <= |txs|
    ensures SentCount(txs[..a], x) <= SentCount(txs[..b], x)
    decreases b
  {
    if a < b {
      CountGrows(txs, x, a, b - 1);
      assert txs[..b][..b - 1] == txs[..b - 1];
    }
  }

  /** A logged transfer keeps the accounts explained by the log. */
  lemma LoggedTransferExplained(accounts: map<string, Account>, opening: map<string, Account>, txs: seq<Transaction>,
                                tx: Transaction)
    requires Explained(accounts, opening, txs)
    requires Covered(accounts, tx.from, tx.amount, tx.fee) && tx.nonce == accounts[tx.from].nonce + 1
    ensures Explained(Moved(accounts, tx.from, tx.to, tx.amount, tx.fee), opening, txs + [tx])
  {
    var all := txs + [tx];
    assert all[..|txs|] == txs;
    forall i | 0 <= i < |all|
      ensures SentInOrder(opening, all, i)
    {
      if i < |txs| {
        assert all[..i] == txs[..i] && SentInOrder(opening, txs, i);
      }
    }
  }

  /** Opening an account nobody has touched commutes with a transfer between others. */
  lemma AppliedElsewhere(accounts: map<string, Account>, tx: Transaction, x: string, a: Account)
    requires tx.from in accounts && x != tx.from && x != tx.to
    ensures Applied(accounts[x := a], tx) == Applied(accounts, tx)[x := a]
  {
  }

  lemma {:induction false} ReplayElsewhere(accounts: map<string, Account>, opening: map<string, Account>,
                                           txs: seq<Transaction>, x: string, a: Account)
    requires Explained(accounts, opening, txs) && x !in accounts
    ensures Replay(opening[x := a], txs) == accounts[x := a]
    decreases |txs|
  {
    if txs != [] {
      var n := |txs| - 1;
      var before := Replay(opening, txs[..n]);
      ExplainedBefore(accounts, opening, txs, n);
      assert SentInOrder(opening, txs, n);
      MovedKeys(before, txs[n]);
      ReplayElsewhere(before, opening, txs[..n], x, a);
      AppliedElsewhere(before, txs[n], x, a);
    }
  }

  lemma MovedKeys(accounts: map<string, Account>, tx: Transaction)
    requires tx.from in accounts
    ensures Applied(accounts, tx).Keys == accounts.Keys + {tx.to}
  {
  }

  lemma GenesisExplained(accounts: map<string, Account>, opening: map<string, Account>, txs: seq<Transaction>,
                         e: GenesisEntry)
    requires Explained(accounts, opening, txs) && e.address !in accounts && IsInt64(e.amount)
    ensures var a := Account(e.amount, 0, e.publicKey);
            Explained(accounts[e.address := a], opening[e.address := a], txs)
  {
    var a := Account(e.amount, 0, e.publicKey);
    ReplayElsewhere(accounts, opening, txs, e.address, a);
    var more := opening[e.address := a];
    forall i | 0 <= i < |txs|
      ensures SentInOrder(more, txs, i)
    {
      assert SentInOrder(opening, txs, i);
      ExplainedBefore(accounts, opening, txs, i);
      LaterKeys(accounts, opening, txs, i);
      ReplayElsewhere(Replay(opening, txs[..i]), opening, txs[..i], e.address, a);
    }
  }

  /** Accounts never disappear. */
  lemma {:induction false} LaterKeys(accounts: map<string, Account>, opening: map<string, Account>,
                                     txs: seq<Transaction>, i: nat)
    requires Explained(accounts, opening, txs) && i <= |txs|
    ensures Replay(opening, txs[..i]).Keys <= accounts.Keys
    decreases |txs|
  {
    var n := |txs| - 1;
    if i <= n {
      ExplainedBefore(accounts, opening, txs, n);
      LaterKeys(Replay(opening, txs[..n]), opening, txs[..n], i);
      assert txs[..n][..i] == txs[..i];
      assert SentInOrder(opening, txs, n);
      MovedKeys(Replay(opening, txs[..n]), txs[n]);
    } else {
      assert txs[..i] == txs;
    }
  }

  // ----- The keeper -----

  datatype TransferResult =
    | Transferred(tx: Transaction) | UnknownSender | BadSignature | BadPublicKey | NotOwner | NotEnough

  class StateKeeper {
    var accounts: map<string, Account>
    var txs: seq<Transaction>
    /** Accounts as InitGenesis opened them. */
    ghost var opening: map<string, Account>

    ghost predicate Valid()
      reads this
    {
      Typed(accounts)
    }

    constructor ()
      ensures Valid() && accounts == map[] && txs == [] && opening == map[]
      ensures Explained(accounts, opening, txs)
    {
      accounts := map[];
      txs := [];
      opening := map[];
    }

    /** Existing accounts keep their balance; of several entries for a new address the first counts. */
    method InitGenesis(entries: seq<GenesisEntry>)
      requires Valid() && forall i :: 0 <= i < |entries| ==> IsInt64(entries[i].amount)
      modifies this
      ensures Valid() && txs == old(txs)
      ensures old(Explained(accounts, opening, txs)) ==> Explained(accounts, opening, txs)
      ensures accounts.Keys == old(accounts).Keys + Addresses(entries)
      ensures forall x :: x in old(accounts) ==> accounts[x] == old(accounts)[x]
      ensures forall x :: x in accounts && x !in old(accounts) ==> OpenedBy(entries, x, accounts[x])
    {
      for i := 0 to |entries|
        invariant Valid() && txs == old(txs)
        invariant old(Explained(accounts, opening, txs)) ==> Explained(accounts, opening, txs)
        invariant accounts.Keys == old(accounts).Keys + Addresses(entries[..i])
        invariant forall x :: x in old(accounts) ==> accounts[x] == old(accounts)[x]
        invariant forall x :: x in accounts && x !in old(accounts) ==> OpenedBy(entries, x, accounts[x])
      {
        var e := entries[i];
        AddressesStep(entries, i);
        if e.address !in accounts {
          FirstOfItsAddress(entries, i);
          if Explained(accounts, opening, txs) {
            GenesisExplained(accounts, opening, txs, e);
          }
          accounts := accounts[e.address := Account(e.amount, 0, e.publicKey)];
          opening := opening[e.address := accounts[e.address]];
        }
      }
      assert entries[..|entries|] == entries;
    }

    /** Moves the coins and appends the log entry, after the balance check common to both transfers. */
    method Execute(from: string, to: string, amount: int, fee: int, height: int) returns (r: TransferResult)
      requires Valid() && from in accounts
      modifies this
      ensures Valid() && opening == old(opening)
      ensures old(Explained(accounts, opening, txs)) ==> Explained(accounts, opening, txs)
      ensures if Covered(old(accounts), from, amount, fee) then
                && r == Transferred(Transaction(from, to, amount, fee, old(accounts)[from].nonce + 1, height))
                && accounts == Moved(old(accounts), from, to, amount, fee) && txs == old(txs) + [r.tx]
              else
                r == NotEnough && accounts == old(accounts) && txs == old(txs)
    {
      var total := I64(amount + fee);
      if accounts[from].balance < total {
        return NotEnough;
      }
      var tx := Transaction(from, to, amount, fee, accounts[from].nonce + 1, height);
      MovedEntries(accounts, from, to, amount, fee);
      if Explained(accounts, opening, txs) {
        LoggedTransferExplained(accounts, opening, txs, tx);
      }
      accounts := MoveCoins(accounts, from, to, amount, fee);
      txs := txs + [tx];
      return Transferred(tx);
    }

    method Transfer(from: string, to: string, amount: int, fee: int, height: int) returns (r: TransferResult)
      requires Valid()
      modifies this
      ensures Valid() && opening == old(opening)
      ensures old(Explained(accounts, opening, txs)) ==> Explained(accounts, opening, txs)
      ensures r.UnknownSender? <==> from !in old(accounts)
      ensures r.Transferred? <==> from in old(accounts) && I64(amount + fee) <= old(accounts)[from].balance
      ensures r.Transferred? ==> r.tx == Transaction(from, to, amount, fee, old(accounts)[from].nonce + 1, height)
      ensures if r.Transferred? then accounts == Moved(old(accounts), from, to, amount, fee) && txs == old(txs) + [r.tx]
              else accounts == old(accounts) && txs == old(txs)
    {
      if from !in accounts {
        return UnknownSender;
      }
      r := Execute(from, to, amount, fee, height);
    }

    /** signed is the verdict of VerifySignature on the payload with the next nonce, derived the
        result of AddressFromPublicKey. */
    method SignedTransfer(from: string, to: string, amount: int, fee: int, height: int,
                          signed: bool, derived: seq<string>)
      returns (r: TransferResult)
      requires Valid() && |derived| <= 1
      modifies this
      ensures Valid() && opening == old(opening)
      ensures old(Explained(accounts, opening, txs)) ==> Explained(accounts, opening, txs)
      ensures r.UnknownSender? <==> from !in old(accounts)
      ensures r.BadSignature? <==> from in old(accounts) && !signed
      ensures r.Transferred? <==> && from in old(accounts) && signed && derived == [from]
                                  && I64(amount + fee) <= old(accounts)[from].balance
      ensures r.Transferred? ==> r.tx == Transaction(from, to, amount, fee, old(accounts)[from].nonce + 1, height)
      ensures if r.Transferred? then accounts == Moved(old(accounts), from, to, amount, fee) && txs == old(txs) + [r.tx]
              else accounts == old(accounts) && txs == old(txs)
    {
      if from !in accounts {
        return UnknownSender;
      }
      if !signed {
        return BadSignature;
      }
      if derived == [] {
        return BadPublicKey;
      }
      if derived[0] != from {
        return NotOwner;
      }
      r := Execute(from, to, amount, fee, height);
    }
  }

  /** The account updates of a transfer in the order of the source. */
  method MoveCoins(accounts: map<string, Account>, from: string, to: string, amount: int, fee: int)
    returns (m: map<string, Account>)
    requires from in accounts
    ensures m == Moved(accounts, from, to, amount, fee)
  {
    var total := I64(amount + fee);
    m := accounts;
    if to !in m {
      m := m[to := Account(0, 0, "")];
    }
    m := m[from := m[from].(balance := I64(m[from].balance - total))];
    m := m[to := m[to].(balance := I64(m[to].balance + amount))];
    m := m[from := m[from].(nonce := m[from].nonce + 1)];
  }

  /** a is what the first entry for x says. */
  ghost predicate OpenedBy(entries: seq<GenesisEntry>, x: string, a: Account) {
    exists k ::
      0 <= k < |entries| && FirstFor(entries, k, x) && a == Account(entries[k].amount, 0, entries[k].publicKey)
  }

  predicate FirstFor(entries: seq<GenesisEntry>, k: nat, x: string)
    requires k < |entries|
  {
    entries[k].address == x && forall j :: 0 <= j < k ==> entries[j].address != x
  }

  lemma FirstOfItsAddress(entries: seq<GenesisEntry>, i: nat)
    requires i < |entries| && entries[i].address !in Addresses(entries[..i])
    ensures FirstFor(entries, i, entries[i].address)
  {
    forall j | 0 <= j < i
      ensures entries[j].address != entries[i].address
    {
      assert entries[..i][j].address in Addresses(entries[..i]);
    }
  }

  lemma AddressesStep(entries: seq<GenesisEntry>, i: nat)
    requires i < |entries|
    ensures Addresses(entries[..i + 1]) == Addresses(entries[..i]) + {entries[i].address}
  {
    var a, b := entries[..i + 1], entries[..i];
    forall x | x in Addresses(a)
      ensures x in Addresses(b) + {entries[i].address}
    {
      var k :| 0 <= k < |a| && a[k].address == x;
      assert k < i ==> b[k].address == x;
    }
    forall x | x in Addresses(b) + {entries[i].address}
      ensures x in Addresses(a)
    {
      if x == entries[i].address {
        assert a[i].address == x;
      } else {
        var k :| 0 <= k < |b| && b[k].address == x;
        assert a[k].address == x;
      }
    }
  }

  function Addresses(entries: seq<GenesisEntry>): set<string> {
    set i | 0 <= i < |entries| :: entries[i].address
  }
}
