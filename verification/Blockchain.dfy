/** The block list of blockchain.go. SHA-256 followed by hex is a function value; clock
    readings are arguments; files are left out. */
module Blockchain {

  datatype Block = Block(
    height: int, hash: string, prevHash: string, timestamp: string, validator: string,
    transactions: seq<string>, txCount: int, totalFees: int, burnedAmount: int, miningReward: int,
    stateRoot: string)

  // ----- fmt.Sprintf -----

  function Digits(n: nat): string {
    (if n < 10 then "" else Digits(n / 10)) + ['0' + (n % 10) as char]
  }

  /** %d */
  function Decimal(n: int): string {
    if n < 0 then "-" + Digits(-n) else Digits(n)
  }

  lemma {:induction false} DigitsHaveNoDash(n: nat)
    ensures |Digits(n)| > 0 && '-' !in Digits(n)
  {
    if n >= 10 {
      DigitsHaveNoDash(n / 10);
    }
  }

  /** Decimal notation determines the number. */
  lemma {:induction false} DigitsInjective(m: nat, n: nat)
    requires Digits(m) == Digits(n)
    ensures m == n
  {
    var s, t := Digits(m), Digits(n);
    assert s[|s| - 1] == '0' + (m % 10) as char && t[|t| - 1] == '0' + (n % 10) as char;
    assert m % 10 == n % 10 by {
      assert (s[|s| - 1] - '0') as int == m % 10 && (t[|t| - 1] - '0') as int == n % 10;
    }
    if m >= 10 && n >= 10 {
      assert Digits(m / 10) == s[..|s| - 1] == t[..|t| - 1] == Digits(n / 10);
      DigitsInjective(m / 10, n / 10);
    }
  }

  /** The number that a string of decimal digits stands for. */
  function Value(s: string): int {
    if s == "" then 0 else 10 * Value(s[..|s| - 1]) + (s[|s| - 1] as int - '0' as int)
  }

  predicate AllDigits(s: string) {
    forall i :: 0 <= i < |s| ==> '0' <= s[i] <= '9'
  }

  lemma DigitsSplit(n: nat, c: char)
    requires c as int == '0' as int + n % 10
    ensures Digits(n) == (if n < 10 then "" else Digits(n / 10)) + [c]
  {
  }

  /** Digits is the decimal notation of n: digits only, most significant first, no leading zero. */
  lemma {:induction false} DigitsExactly(n: nat)
    ensures AllDigits(Digits(n)) && Value(Digits(n)) == n && |Digits(n)| > 0 && (n > 0 ==> Digits(n)[0] != '0')
  {
    var d := n % 10;
    var c := DigitChar(d);
    DigitsSplit(n, c);
    if n < 10 {
      OneMoreDigit("", c);
    } else {
      var q := n / 10;
      DigitsExactly(q);
      OneMoreDigit(Digits(q), c);
      Tens(n, q, d);
    }
  }

  lemma Tens(n: nat, q: nat, d: nat)
    requires q == n / 10 && d == n % 10
    ensures n == 10 * q + d
  {
  }

  lemma DigitChar(d: int) returns (c: char)
    requires 0 <= d < 10
    ensures '0' <= c <= '9' && c as int - '0' as int == d
  {
    c := '0' + d as char;
  }

  lemma OneMoreDigit(s: string, c: char)
    requires AllDigits(s) && '0' <= c <= '9'
    ensures AllDigits(s + [c]) && Value(s + [c]) == 10 * Value(s) + (c as int - '0' as int)
  {
    assert (s + [c])[..|s|] == s;
  }

  // ----- Hashing -----

  /** The undelimited string that calculateHash digests. */
  function HashInput(b: Block): string {
    Decimal(b.height) + b.prevHash + b.timestamp + b.validator
    + Decimal(b.txCount) + Decimal(b.totalFees) + Decimal(b.miningReward) + b.stateRoot
  }

  function Concat(parts: seq<string>): string {
    if parts == [] then "" else parts[0] + Concat(parts[1..])
  }

  /** The digest (SHA-256 and hex) and the string that calculateHash gives to it. Everything but
      the parsing of that string holds for any hasher. */
  datatype Hasher = Hasher(sha: string -> string, input: Block -> string)

  function Sha(h: Hasher, x: string): string { (h.sha)(x) }

  function Input(h: Hasher, b: Block): string { (h.input)(b) }

  /** The hasher of the node. */
  function NodeHasher(sha: string -> string): Hasher {
    Hasher(sha, b => HashInput(b))
  }

  /** calculateHash does not read the Hash field. */
  function Erased(b: Block): Block { b.(hash := "") }

  function CalculateHash(h: Hasher, b: Block): string {
    Sha(h, Input(h, Erased(b)))
  }

  function StateRoot(h: Hasher, txs: seq<string>): string {
    Sha(h, Concat(txs))
  }

  /** sha yields 64 hex characters. */
  ghost predicate HexDigest(h: Hasher) {
    forall x :: |Sha(h, x)| == 64 && '-' !in Sha(h, x)
  }

  // ----- Building a chain -----

  /** 64 zeros. */
  function ZeroHash(): (z: string)
    ensures |z| == 64 && forall i :: 0 <= i < 64 ==> z[i] == '0'
  {
    seq(64, i => '0')
  }

  function Sealed(h: Hasher, b: Block): Block {
    b.(hash := CalculateHash(h, b))
  }

  function Genesis(h: Hasher): Block {
    Sealed(h, Block(0, "", ZeroHash(), "2025-10-01T12:00:00Z", "nuvex19d85718c8da8f4213e1a2a41fe894ba928b9c9",
                    [], 0, 0, 0, 50_000_000, "GENESIS_STATE_ROOT"))
  }

  function NextBlock(h: Hasher, prev: Block, validator: string, txs: seq<string>,
                     totalFees: int, burned: int, reward: int, now: string): Block
  {
    Sealed(h, Block(prev.height + 1, "", prev.hash, now, validator, txs, |txs|, totalFees, burned, reward,
                    StateRoot(h, txs)))
  }

  /** A UTC time in RFC 3339 form for the years 0 to 9999, as far as parsing needs it. */
  predicate IsTimestamp(t: string) {
    |t| == 20 && t[4] == '-' && '-' !in t[..4]
  }

  /** b is what AddBlock appends after prev. */
  predicate Follows(h: Hasher, prev: Block, b: Block) {
    && IsTimestamp(b.timestamp)
    && b == NextBlock(h, prev, b.validator, b.transactions, b.totalFees, b.burnedAmount, b.miningReward, b.timestamp)
  }

  predicate FollowsAt(h: Hasher, blocks: seq<Block>, i: nat)
    requires 1 <= i < |blocks|
  {
    Follows(h, blocks[i - 1], blocks[i])
  }

  /** Chains that createGenesisBlock and AddBlock build. */
  ghost predicate Built(h: Hasher, blocks: seq<Block>) {
    && |blocks| > 0 && blocks[0] == Genesis(h)
    && forall i :: 1 <= i < |blocks| ==> FollowsAt(h, blocks, i)
  }

  predicate HashValid(h: Hasher, b: Block) {
    b.hash == CalculateHash(h, b)
  }

  /** What ValidateChain checks of a block and its predecessor. */
  predicate LinkValid(h: Hasher, prev: Block, b: Block) {
    HashValid(h, b) && b.prevHash == prev.hash && b.height == prev.height + 1
  }

  predicate LinkAt(h: Hasher, blocks: seq<Block>, i: nat)
    requires 1 <= i < |blocks|
  {
    LinkValid(h, blocks[i - 1], blocks[i])
  }

  predicate ChainValid(h: Hasher, blocks: seq<Block>) {
    forall i :: 1 <= i < |blocks| ==> LinkAt(h, blocks, i)
  }

  lemma SealedIsValid(h: Hasher, b: Block)
    ensures HashValid(h, Sealed(h, b))
  {
    assert Erased(Sealed(h, b)) == Erased(b);
  }

  lemma FollowsIsLinked(h: Hasher, prev: Block, b: Block)
    requires Follows(h, prev, b)
    ensures LinkValid(h, prev, b)
  {
    SealedIsValid(h, Block(prev.height + 1, "", prev.hash, b.timestamp, b.validator, b.transactions, |b.transactions|,
                           b.totalFees, b.burnedAmount, b.miningReward, StateRoot(h, b.transactions)));
  }

  lemma GenesisIsSealed(h: Hasher)
    ensures HashValid(h, Genesis(h))
  {
    SealedIsValid(h, Genesis(h).(hash := ""));
  }

  /** In a built chain block i is at height i, carries its own hash and links to block i - 1. */
  lemma {:induction false} BuiltAt(h: Hasher, blocks: seq<Block>, i: nat)
    requires Built(h, blocks) && i < |blocks|
    ensures blocks[i].height == i && HashValid(h, blocks[i])
    ensures i > 0 ==> LinkAt(h, blocks, i)
  {
    if i == 0 {
      GenesisIsSealed(h);
    } else {
      BuiltAt(h, blocks, i - 1);
      assert FollowsAt(h, blocks, i);
      FollowsIsLinked(h, blocks[i - 1], blocks[i]);
    }
  }

  /** Every built chain validates, and block i is at height i. */
  lemma BuiltIsValid(h: Hasher, blocks: seq<Block>)
    requires Built(h, blocks)
    ensures ChainValid(h, blocks)
    ensures forall i :: 0 <= i < |blocks| ==> blocks[i].height == i
  {
    forall i | 0 <= i < |blocks|
      ensures blocks[i].height == i && (i > 0 ==> LinkAt(h, blocks, i))
    {
      BuiltAt(h, blocks, i);
    }
  }

  // ----- The tip hash determines the headers -----

  /** The shape of the fields that open a block's hash input. */
  ghost predicate HeaderShape(b: Block) {
    b.height >= 0 && |b.prevHash| == 64 && '-' !in b.prevHash && IsTimestamp(b.timestamp)
  }

  predicate SameOpening(a: Block, b: Block) {
    a.height == b.height && a.prevHash == b.prevHash && a.timestamp == b.timestamp
  }

  lemma BuiltShapes(h: Hasher, blocks: seq<Block>, i: nat)
    requires HexDigest(h) && Built(h, blocks) && i < |blocks|
    ensures HeaderShape(blocks[i])
  {
    BuiltAt(h, blocks, i);
    if i > 0 {
      BuiltAt(h, blocks, i - 1);
      assert FollowsAt(h, blocks, i);
    }
  }

  lemma BuiltRoots(h: Hasher, blocks: seq<Block>, i: nat)
    requires HexDigest(h) && Built(h, blocks) && 0 < i < |blocks|
    ensures blocks[i].stateRoot == StateRoot(h, blocks[i].transactions) && BlockShape(blocks[i])
  {
    BuiltShapes(h, blocks, i);
    assert FollowsAt(h, blocks, i);
  }

  lemma Slices(d: string, p: string, t: string, tail: string, s: string)
    requires s == d + p + t + tail && |p| == 64 && |t| == 20
    ensures |s| >= |d| + 84
    ensures s[..|d|] == d && s[|d|..|d| + 64] == p && s[|d| + 64..|d| + 84] == t
  {
  }

  lemma FirstDash(d: string, p: string, t: string, s: string)
    requires '-' !in d && '-' !in p && IsTimestamp(t) && |p| == 64 && |s| >= |d| + 84
    requires s[..|d|] == d && s[|d|..|d| + 64] == p && s[|d| + 64..|d| + 84] == t
    ensures s[|d| + 68] == '-' && forall j :: 0 <= j < |d| + 68 ==> s[j] != '-'
  {
    var k := |d|;
    assert s[k + 68] == t[4];
    forall j | 0 <= j < k + 68
      ensures s[j] != '-'
    {
      if j < k {
        assert s[j] == d[j];
      } else if j < k + 64 {
        assert s[j] == p[j - k];
      } else {
        assert s[j] == t[..4][j - k - 64];
      }
    }
  }

  /** Position of the first dash: it sits inside the timestamp, after the height, the 64 hex
      digits and the year. */
  lemma DashPosition(b: Block, s: string)
    requires HeaderShape(b) && s == HashInput(b)
    ensures var k := |Decimal(b.height)|;
            && |s| >= k + 84 && s[k + 68] == '-' && (forall j :: 0 <= j < k + 68 ==> s[j] != '-')
            && s[..k] == Decimal(b.height) && s[k..k + 64] == b.prevHash && s[k + 64..k + 84] == b.timestamp
  {
    var d := Decimal(b.height);
    DigitsHaveNoDash(b.height);
    var tail := b.validator + Decimal(b.txCount) + Decimal(b.totalFees) + Decimal(b.miningReward) + b.stateRoot;
    InputParts(b, tail);
    Slices(d, b.prevHash, b.timestamp, tail, s);
    FirstDash(d, b.prevHash, b.timestamp, s);
  }

  lemma InputParts(b: Block, tail: string)
    requires tail == b.validator + Decimal(b.txCount) + Decimal(b.totalFees) + Decimal(b.miningReward) + b.stateRoot
    ensures HashInput(b) == Decimal(b.height) + b.prevHash + b.timestamp + tail
  {
  }

  /** Although the hash input has no delimiters, it determines height, previous hash and time. */
  lemma HeaderParses(a: Block, b: Block)
    requires HeaderShape(a) && HeaderShape(b) && HashInput(a) == HashInput(b)
    ensures a.height == b.height && a.prevHash == b.prevHash && a.timestamp == b.timestamp
  {
    var s := HashInput(a);
    DashPosition(a, s);
    DashPosition(b, s);
    assert |Decimal(a.height)| == |Decimal(b.height)|;
    DigitsInjective(a.height, b.height);
  }

  /** What stands between the timestamp and the state root. */
  function Middle(b: Block): string {
    b.validator + Decimal(b.txCount) + Decimal(b.totalFees) + Decimal(b.miningReward)
  }

  /** The shape of every block that AddBlock appends. */
  ghost predicate BlockShape(b: Block) {
    HeaderShape(b) && |b.stateRoot| == 64
  }

  lemma MiddleSlices(front: string, mid: string, root: string, k: nat)
    requires |front| == k && |root| == 64
    ensures var s := front + (mid + root);
            |s| >= k + 64 && s[k..|s| - 64] == mid && s[|s| - 64..] == root
  {
  }

  lemma InputSlices(b: Block, s: string)
    requires BlockShape(b) && s == HashInput(b)
    ensures var k := |Decimal(b.height)| + 84;
            |s| >= k + 64 && s[k..|s| - 64] == Middle(b) && s[|s| - 64..] == b.stateRoot
  {
    var front := Decimal(b.height) + b.prevHash + b.timestamp;
    InputParts(b, Middle(b) + b.stateRoot);
    assert s == front + (Middle(b) + b.stateRoot);
    MiddleSlices(front, Middle(b), b.stateRoot, |Decimal(b.height)| + 84);
  }

  /** Exactly what the hash input of a block determines: height, previous hash, time, state root,
      and the validator, transaction count, fees and reward written one after the other. */
  lemma InputDetermines(a: Block, b: Block)
    requires BlockShape(a) && BlockShape(b)
    ensures HashInput(a) == HashInput(b)
       <==> SameOpening(a, b) && a.stateRoot == b.stateRoot && Middle(a) == Middle(b)
  {
    if HashInput(a) == HashInput(b) {
      HeaderParses(a, b);
      InputSlices(a, HashInput(a));
      InputSlices(b, HashInput(b));
    } else {
      InputParts(a, Middle(a) + a.stateRoot);
      InputParts(b, Middle(b) + b.stateRoot);
    }
  }

  /** Validator, fees and burned amount are not determined: after any block and with any
      transaction, AddBlock gives these two different blocks the same hash under every digest. */
  lemma TailIsAmbiguous(sha: string -> string, prev: Block, validator: string, tx: string, burned: int,
                        otherBurned: int, reward: int, now: string)
    ensures var h := NodeHasher(sha);
            var a := NextBlock(h, prev, validator, [tx], 10, burned, reward, now);
            var b := NextBlock(h, prev, validator + "1", [tx], 0, otherBurned, reward, now);
            a.validator != b.validator && a.totalFees != b.totalFees && a.hash == b.hash
  {
    var h := NodeHasher(sha);
    var root := StateRoot(h, [tx]);
    var a := Block(prev.height + 1, "", prev.hash, now, validator, [tx], 1, 10, burned, reward, root);
    var b := Block(prev.height + 1, "", prev.hash, now, validator + "1", [tx], 1, 0, otherBurned, reward, root);
    assert Decimal(10) == "10" by { assert Digits(10) == Digits(1) + "0"; }
    assert Decimal(1) == "1" && Decimal(0) == "0";
    assert Middle(a) == validator + ("1" + "10") + Decimal(reward);
    assert Middle(b) == validator + ("1" + "1" + "0") + Decimal(reward);
    assert "1" + "10" == "1" + "1" + "0";
    InputParts(a, Middle(a) + root);
    InputParts(b, Middle(b) + root);
    assert |(validator + "1")| != |validator|;
    assert Erased(a) == a && Erased(b) == b;
  }

  /** The input of a block determines how the block starts and ends. */
  ghost predicate Parses(h: Hasher) {
    forall a, b :: HeaderShape(a) && HeaderShape(b) && Input(h, a) == Input(h, b) ==> ParsesAlike(a, b)
  }

  ghost predicate ParsesAlike(a: Block, b: Block) {
    SameOpening(a, b) && (BlockShape(a) && BlockShape(b) ==> SameClosing(a, b))
  }

  predicate SameClosing(a: Block, b: Block) {
    a.stateRoot == b.stateRoot && Middle(a) == Middle(b)
  }

  lemma NodeHasherParses(sha: string -> string)
    ensures Parses(NodeHasher(sha))
  {
    var h := NodeHasher(sha);
    forall a, b | HeaderShape(a) && HeaderShape(b) && Input(h, a) == Input(h, b)
      ensures ParsesAlike(a, b)
    {
      HeaderParses(a, b);
      if BlockShape(a) && BlockShape(b) {
        InputDetermines(a, b);
      }
    }
  }

  /** No two different inputs among the blocks of a and b were given the same digest. */
  ghost predicate CollisionFree(h: Hasher, a: seq<Block>, b: seq<Block>) {
    forall i, j :: 0 <= i < |a| && 0 <= j < |b| ==> NoCollision(h, a[i], b[j])
  }

  ghost predicate NoCollision(h: Hasher, a: Block, b: Block) {
    CalculateHash(h, a) == CalculateHash(h, b) ==> Input(h, Erased(a)) == Input(h, Erased(b))
  }

  ghost predicate SameHeader(a: Block, b: Block) {
    a.hash == b.hash && SameOpening(a, b) && SameClosing(a, b)
  }

  /** Equal hashes at two positions of built chains: the positions and the headers agree. */
  lemma HashDeterminesHeader(h: Hasher, a: seq<Block>, b: seq<Block>, m: nat, n: nat)
    requires HexDigest(h) && Parses(h) && CollisionFree(h, a, b) && Built(h, a) && Built(h, b)
    requires m < |a| && n < |b| && a[m].hash == b[n].hash
    ensures m == n && SameHeader(a[m], b[n])
  {
    BuiltAt(h, a, m);
    BuiltAt(h, b, n);
    BuiltShapes(h, a, m);
    BuiltShapes(h, b, n);
    assert NoCollision(h, a[m], b[n]);
    assert ParsesAlike(Erased(a[m]), Erased(b[n]));
    assert m == n;
    if m > 0 {
      BuiltRoots(h, a, m);
      BuiltRoots(h, b, n);
    }
  }

  lemma ParentsAgree(h: Hasher, a: seq<Block>, b: seq<Block>, n: nat)
    requires Built(h, a) && Built(h, b) && 0 < n < |a| && n < |b| && a[n].prevHash == b[n].prevHash
    ensures a[n - 1].hash == b[n - 1].hash
  {
    BuiltAt(h, a, n);
    BuiltAt(h, b, n);
  }

  lemma {:induction false} HeadersBelow(h: Hasher, a: seq<Block>, b: seq<Block>, n: nat, i: nat)
    requires HexDigest(h) && Parses(h) && CollisionFree(h, a, b) && Built(h, a) && Built(h, b)
    requires i <= n < |a| && n < |b| && a[n].hash == b[n].hash
    ensures SameHeader(a[i], b[i])
    decreases n
  {
    HashDeterminesHeader(h, a, b, n, n);
    if i < n {
      ParentsAgree(h, a, b, n);
      HeadersBelow(h, a, b, n - 1, i);
    }
  }

  /** Without collisions, built chains with the same tip hash have the same length and the same
      hash, previous hash, height, time and state root at every position. */
  lemma HeadersAgree(h: Hasher, a: seq<Block>, b: seq<Block>)
    requires HexDigest(h) && Parses(h) && CollisionFree(h, a, b) && Built(h, a) && Built(h, b)
    requires a[|a| - 1].hash == b[|b| - 1].hash
    ensures |a| == |b|
    ensures forall i :: 0 <= i < |a| ==> SameHeader(a[i], b[i])
  {
    HashDeterminesHeader(h, a, b, |a| - 1, |b| - 1);
    forall i | 0 <= i < |a|
      ensures SameHeader(a[i], b[i])
    {
      HeadersBelow(h, a, b, |a| - 1, i);
    }
  }

  /** The same for the node's own hash input, whatever the digest. */
  lemma TipDeterminesHeaders(sha: string -> string, a: seq<Block>, b: seq<Block>)
    requires var h := NodeHasher(sha);
             HexDigest(h) && CollisionFree(h, a, b) && Built(h, a) && Built(h, b)
    requires a[|a| - 1].hash == b[|b| - 1].hash
    ensures |a| == |b|
    ensures forall i :: 0 <= i < |a| ==> SameHeader(a[i], b[i])
  {
    NodeHasherParses(sha);
    HeadersAgree(NodeHasher(sha), a, b);
  }

  // ----- And the transactions -----

  /** No two different transaction lists of a and b were given the same state root by a collision. */
  ghost predicate RootsCollisionFree(h: Hasher, a: seq<Block>, b: seq<Block>) {
    forall i, j :: 0 <= i < |a| && 0 <= j < |b| ==> NoRootCollision(h, a[i], b[j])
  }

  ghost predicate NoRootCollision(h: Hasher, a: Block, b: Block) {
    StateRoot(h, a.transactions) == StateRoot(h, b.transactions) ==> Concat(a.transactions) == Concat(b.transactions)
  }

  /** Every transaction hash has the same length, as Submit makes them. */
  predicate Uniform(txs: seq<string>, n: nat) {
    forall i :: 0 <= i < |txs| ==> |txs[i]| == n
  }

  /** calculateStateRoot writes the hashes one after the other, in order. */
  lemma {:induction false} ConcatJoins(s: seq<string>, t: seq<string>)
    ensures Concat(s + t) == Concat(s) + Concat(t)
    ensures s != [] ==> Concat([s[0]]) == s[0]
  {
    if s == [] {
      assert s + t == t;
    } else {
      ConcatJoins(s[1..], t);
      assert (s + t)[1..] == s[1..] + t;
    }
  }

  lemma {:induction false} ConcatLength(txs: seq<string>, n: nat)
    requires Uniform(txs, n)
    ensures |Concat(txs)| == |txs| * n
  {
    if txs != [] {
      ConcatLength(txs[1..], n);
      assert |txs| * n == n + (|txs| - 1) * n;
    }
  }

  /** Hashes of one length can be told apart in their concatenation. */
  lemma {:induction false} ConcatInjective(s: seq<string>, t: seq<string>, n: nat)
    requires n > 0 && Uniform(s, n) && Uniform(t, n) && Concat(s) == Concat(t)
    ensures s == t
  {
    if s == [] || t == [] {
      ConcatLength(s, n);
      ConcatLength(t, n);
    } else {
      assert s[0] == Concat(s)[..n] == Concat(t)[..n] == t[0];
      assert Concat(s[1..]) == Concat(s)[n..] == Concat(t)[n..] == Concat(t[1..]);
      ConcatInjective(s[1..], t[1..], n);
    }
  }

  lemma RootsAgree(h: Hasher, a: seq<Block>, b: seq<Block>, i: nat)
    requires HexDigest(h) && RootsCollisionFree(h, a, b) && Built(h, a) && Built(h, b)
    requires i < |a| && i < |b| && a[i].stateRoot == b[i].stateRoot
    ensures Concat(a[i].transactions) == Concat(b[i].transactions)
  {
    if i > 0 {
      BuiltRoots(h, a, i);
      BuiltRoots(h, b, i);
      assert NoRootCollision(h, a[i], b[i]);
    }
  }

  /** Without collisions among block inputs and among state-root inputs, the tip hash also
      determines the transactions of every block, when all hashes have one length. */
  lemma TipDeterminesTransactions(sha: string -> string, a: seq<Block>, b: seq<Block>, n: nat, i: nat)
    requires var h := NodeHasher(sha);
             HexDigest(h) && CollisionFree(h, a, b) && RootsCollisionFree(h, a, b) && Built(h, a) && Built(h, b)
    requires a[|a| - 1].hash == b[|b| - 1].hash && i < |a|
    ensures |a| == |b| && Concat(a[i].transactions) == Concat(b[i].transactions)
    ensures n > 0 && Uniform(a[i].transactions, n) && Uniform(b[i].transactions, n) ==>
              a[i].transactions == b[i].transactions
  {
    TipDeterminesHeaders(sha, a, b);
    assert SameHeader(a[i], b[i]);
    RootsAgree(NodeHasher(sha), a, b, i);
    if n > 0 && Uniform(a[i].transactions, n) && Uniform(b[i].transactions, n) {
      ConcatInjective(a[i].transactions, b[i].transactions, n);
    }
  }

  lemma BuiltGrows(h: Hasher, blocks: seq<Block>, b: Block)
    requires Built(h, blocks) && Follows(h, blocks[|blocks| - 1], b)
    ensures Built(h, blocks + [b])
  {
    var longer := blocks + [b];
    forall i | 1 <= i < |longer|
      ensures FollowsAt(h, longer, i)
    {
      if i < |blocks| {
        assert FollowsAt(h, blocks, i);
      }
    }
  }

  // ----- What a validated chain satisfies -----

  /** ValidateChain accepts exactly the chains in which every block after the first digests its own
      fields, repeats the hash of the block before, and is one higher. */
  lemma ValidExactly(sha: string -> string, blocks: seq<Block>)
    ensures ChainValid(NodeHasher(sha), blocks) <==> forall i :: 1 <= i < |blocks| ==> FieldsLink(sha, blocks, i)
  {
    var h := NodeHasher(sha);
    forall i | 1 <= i < |blocks|
      ensures LinkAt(h, blocks, i) <==> FieldsLink(sha, blocks, i)
    {
      assert HashInput(Erased(blocks[i])) == HashInput(blocks[i]);
    }
  }

  predicate FieldsLink(sha: string -> string, blocks: seq<Block>, i: nat)
    requires 1 <= i < |blocks|
  {
    var b, prev := blocks[i], blocks[i - 1];
    && b.hash == sha(Decimal(b.height) + b.prevHash + b.timestamp + b.validator + Decimal(b.txCount)
                     + Decimal(b.totalFees) + Decimal(b.miningReward) + b.stateRoot)
    && b.prevHash == prev.hash && b.height == prev.height + 1
  }

  /** So the heights of a validated chain count up from its first block. */
  lemma {:induction false} ValidHeights(h: Hasher, blocks: seq<Block>, i: nat)
    requires ChainValid(h, blocks) && i < |blocks|
    ensures blocks[i].height == blocks[0].height + i
  {
    if i > 0 {
      ValidHeights(h, blocks, i - 1);
      assert LinkAt(h, blocks, i);
    }
  }

  /** Tampering shows: if a block below the tip can be replaced in a valid chain so that the chain
      still validates, then without a collision both blocks have the same hash and hash input. */
  lemma TamperShows(h: Hasher, blocks: seq<Block>, i: nat, b: Block)
    requires 0 < i < |blocks| - 1 && ChainValid(h, blocks) && ChainValid(h, blocks[i := b])
    requires NoCollision(h, blocks[i], b)
    ensures b.hash == blocks[i].hash && Input(h, Erased(b)) == Input(h, Erased(blocks[i]))
  {
    var other := blocks[i := b];
    assert LinkAt(h, blocks, i) && LinkAt(h, blocks, i + 1);
    assert LinkAt(h, other, i) && LinkAt(h, other, i + 1);
    assert other[i] == b && other[i + 1] == blocks[i + 1];
  }

  // ----- The keeper -----

  datatype ChainCheck = ChainOk | BadHash(at: nat) | BadLink(at: nat) | BadHeight(at: nat)

  /** The checks of ValidateChain on one block, in its order. */
  method CheckLink(h: Hasher, previous: Block, current: Block, i: nat) returns (r: ChainCheck)
    ensures r.ChainOk? <==> LinkValid(h, previous, current)
    ensures r == if current.hash != Sha(h, Input(h, current.(hash := ""))) then BadHash(i)
                 else if current.prevHash != previous.hash then BadLink(i)
                 else if current.height != previous.height + 1 then BadHeight(i)
                 else ChainOk
  {
    if current.hash != CalculateHash(h, current) {
      return BadHash(i);
    }
    if current.prevHash != previous.hash {
      return BadLink(i);
    }
    if current.height != previous.height + 1 {
      return BadHeight(i);
    }
    return ChainOk;
  }

  class Chain {
    const hasher: Hasher
    var blocks: seq<Block>

    ghost predicate Valid()
      reads this
    {
      Built(hasher, blocks)
    }

    /** NewBlockchain without a stored chain. */
    constructor (h: Hasher)
      ensures Valid() && this.hasher == h && blocks == [Genesis(h)]
      ensures var g := blocks[0];
              && g.height == 0 && g.prevHash == ZeroHash() && g.timestamp == "2025-10-01T12:00:00Z"
              && g.validator == "nuvex19d85718c8da8f4213e1a2a41fe894ba928b9c9" && g.transactions == [] && g.txCount == 0
              && g.totalFees == 0 && g.burnedAmount == 0 && g.miningReward == 50_000_000
              && g.stateRoot == "GENESIS_STATE_ROOT" && g.hash == Sha(h, Input(h, g.(hash := "")))
    {
      this.hasher := h;
      var genesis := Block(0, "", ZeroHash(), "2025-10-01T12:00:00Z", "nuvex19d85718c8da8f4213e1a2a41fe894ba928b9c9",
                           [], 0, 0, 0, 50_000_000, "GENESIS_STATE_ROOT");
      genesis := genesis.(hash := CalculateHash(h, genesis));
      blocks := [genesis];
    }

    method AddBlock(validator: string, txs: seq<string>, totalFees: int, burned: int, reward: int, now: string)
      returns (b: Block)
      requires Valid() && IsTimestamp(now)
      modifies this
      ensures Valid() && blocks == old(blocks) + [b]
      ensures b == NextBlock(hasher, old(blocks)[|old(blocks)| - 1], validator, txs, totalFees, burned, reward, now)
      ensures b.height == |old(blocks)| && b.prevHash == old(blocks)[|old(blocks)| - 1].hash && b.timestamp == now
      ensures b.validator == validator && b.transactions == txs && b.txCount == |txs|
      ensures b.totalFees == totalFees && b.burnedAmount == burned && b.miningReward == reward
      ensures b.stateRoot == Sha(hasher, Concat(txs)) && b.hash == Sha(hasher, Input(hasher, b.(hash := "")))
    {
      BuiltIsValid(hasher, blocks);
      var prev := blocks[|blocks| - 1];
      b := Block(prev.height + 1, "", prev.hash, now, validator, txs, |txs|, totalFees, burned, reward,
                 StateRoot(hasher, txs));
      b := b.(hash := CalculateHash(hasher, b));
      BuiltGrows(hasher, blocks, b);
      blocks := blocks + [b];
    }

    /** Reports the first link that fails, and nothing exactly when every link is sound. */
    method ValidateChain() returns (r: ChainCheck)
      ensures r.ChainOk? <==> ChainValid(hasher, blocks)
      ensures !r.ChainOk? ==> && 1 <= r.at < |blocks| && !LinkAt(hasher, blocks, r.at)
                              && forall j :: 1 <= j < r.at ==> LinkAt(hasher, blocks, j)
    {
      var i := 1;
      while i < |blocks|
        invariant 1 <= i && (i <= |blocks| || blocks == [])
        invariant forall j :: 1 <= j < i && j < |blocks| ==> LinkAt(hasher, blocks, j)
      {
        r := CheckLink(hasher, blocks[i - 1], blocks[i], i);
        if !r.ChainOk? {
          assert !LinkAt(hasher, blocks, i);
          return;
        }
        i := i + 1;
      }
      r := ChainOk;
    }

    /** The linear search of GetBlock finds block h at index h. */
    method GetBlock(height: int) returns (found: bool, b: Block)
      requires Valid()
      ensures found <==> 0 <= height < |blocks|
      ensures found ==> b == blocks[height]
    {
      BuiltIsValid(hasher, blocks);
      b := blocks[0];
      for i := 0 to |blocks|
        invariant !(0 <= height < i)
      {
        if blocks[i].height == height {
          return true, blocks[i];
        }
      }
      return false, b;
    }
  }
}
