/** ECDSA as crypto.go signs and verifies: SEC 1 v2.0 sections 4.1.3 and 4.1.4. The routines
    are written over domain parameters; Secp256k1 below fixes those of SEC 2 v2.0 section 2.4.1. */
module Ecdsa {
  import opened NumberTheory
  import opened Bytes
  import opened Curve

  /** Field prime, group order and generator. */
  datatype Domain = Domain(p: int, n: int, g: Point) {
    predicate WellFormed() {
      p > 1 && 1 < n <= TWO_256
    }

    /** What the round trip rests on: the curve is a group and g has prime order n in it. */
    ghost predicate IsGroup() {
      && WellFormed()
      && CurveGroup(p)
      && OnCurve(g, p) && g.Affine?
      && IsPrime(n)
      && Multiple(n, g, p) == Infinity
    }
  }

  function ScalarTimes(k: nat, a: Point, c: Domain): Point
    requires c.WellFormed()
  {
    DoubleAndAdd(k, Infinity, a, c.p)
  }

  // ----- Keys, signing, verification -----

  /** d * G; a key divisible by n gives the nil coordinates of Infinity. */
  function PublicKey(priv: seq<byte>, c: Domain): Point
    requires c.WellFormed()
  {
    ScalarTimes(FromBytes(priv), c.g, c)
  }

  datatype SignResult =
    | Signed(r: nat, s: nat)
    | NonceFailed
    | ZeroR
    | ZeroS
    | NilDereference

  /** Sign, with the nonce derivation as an input: None is its error return. */
  function Sign(priv: seq<byte>, hash: seq<byte>, nonce: Option<nat>, c: Domain): SignResult
    requires c.WellFormed()
  {
    match nonce
    case None => NonceFailed
    case Some(k) =>
      match ScalarTimes(k, c.g, c)
      case Infinity => NilDereference
      case Affine(x, _) =>
        var r := x % c.n;
        if r == 0 then ZeroR
        else
          match ModInverse(k, c.n)
          case None => NilDereference
          case Some(kInv) =>
            var s := kInv * (FromBytes(hash) + r * FromBytes(priv)) % c.n;
            if s == 0 then ZeroS else Signed(r, s)
  }

  /** What a successful Sign has computed. */
  lemma SignatureEquations(priv: seq<byte>, hash: seq<byte>, k: nat, c: Domain)
    requires c.WellFormed() && Sign(priv, hash, Some(k), c).Signed?
    ensures var sig := Sign(priv, hash, Some(k), c);
            && 0 < sig.r < c.n && 0 < sig.s < c.n
            && ScalarTimes(k, c.g, c).Affine? && sig.r == ScalarTimes(k, c.g, c).x % c.n
            && ModInverse(k, c.n).Some?
            && sig.s == ModInverse(k, c.n).value * (FromBytes(hash) + sig.r * FromBytes(priv)) % c.n
  {
  }

  function SignToHex(priv: seq<byte>, hash: seq<byte>, nonce: Option<nat>, c: Domain): Option<string>
    requires c.WellFormed()
  {
    match Sign(priv, hash, nonce, c)
    case Signed(r, s) =>
      SignatureEquations(priv, hash, nonce.value, c);
      Some(HexEncode(Field32(r) + Field32(s)))
    case _ => None
  }

  datatype Verdict =
    | Accepted
    | Malformed
    | ZeroComponent
    | OutOfRange
    | AtInfinity
    | Mismatch
    | NilInverse

  function VerifyEcdsa(pub: Point, hash: seq<byte>, sigHex: string, c: Domain): Verdict
    requires c.WellFormed()
  {
    match HexDecode(sigHex)
    case None => Malformed
    case Some(sig) =>
      if |sig| != 64 then Malformed
      else VerifyNumbers(pub, FromBytes(hash), FromBytes(sig[..32]), FromBytes(sig[32..]), c)
  }

  function VerifyNumbers(pub: Point, h: nat, r: nat, s: nat, c: Domain): Verdict
    requires c.WellFormed()
  {
    if r == 0 || s == 0 then ZeroComponent
    else if r >= c.n || s >= c.n then OutOfRange
    else
      match ModInverse(s, c.n)
      case None => NilInverse
      case Some(sInv) =>
        Compare(PointAdd(ScalarTimes(h * sInv % c.n, c.g, c), ScalarTimes(r * sInv % c.n, pub, c), c.p), r, c.n)
  }

  function Compare(point: Point, r: nat, n: int): Verdict
    requires n > 1
  {
    if point.Infinity? then AtInfinity
    else if point.x % n != r then Mismatch
    else Accepted
  }

  // ----- What verification decides -----

  /** The multiple of G that verification compares with r, for the key d*G. */
  function Recovered(d: nat, h: nat, r: nat, s: nat, n: int): nat
    requires n > 1 && ModInverse(s, n).Some?
  {
    (h + r * d) * ModInverse(s, n).value % n
  }

  /** u1 + u2*d agrees modulo n with w = (h + r*d)*v, where v is the inverse of s. */
  lemma CombineScalars(h: nat, r: nat, d: nat, v: nat, u1: nat, u2: nat, e: int, w: int, n: int)
    requires n > 0 && u1 == h * v % n && u2 == r * v % n && e == u2 * d && w == (h + r * d) * v
    ensures (u1 + e) % n == w % n
  {
    ReduceCong(h * v, n);
    ReduceCong(r * v, n);
    CongRefl(d, n);
    CongMul(u2, r * v, d, d, n);
    CongSum(u1, h * v, e, r * v * d, n);
    assert h * v + r * v * d == w;
    CongIffSameResidue(u1 + e, w, n);
  }

  /** No nil inverse is met while verification computes u1*G + u2*(d*G). */
  ghost predicate VerifyDefined(d: nat, u1: nat, u2: nat, c: Domain)
    requires c.WellFormed()
  {
    var key := ScalarTimes(d, c.g, c);
    && LoopDefined(u1, Infinity, c.g, c.p) && LoopDefined(u2, Infinity, key, c.p)
    && AddDefined(ScalarTimes(u1, c.g, c), ScalarTimes(u2, key, c), c.p)
  }

  lemma VerifyIsDefined(d: nat, u1: nat, u2: nat, c: Domain)
    requires c.IsGroup()
    ensures VerifyDefined(d, u1, u2, c)
  {
    var key := ScalarTimes(d, c.g, c);
    ScalarMultIsMultiple(d, c.g, c.p);
    ScalarMultIsMultiple(u1, c.g, c.p);
    ScalarMultIsMultiple(u2, key, c.p);
    AddIsDefined(ScalarTimes(u1, c.g, c), ScalarTimes(u2, key, c), c.p);
  }

  /** For the key d*G and any (r, s) in range, verification compares r with the recovered
      multiple of G and never meets a nil inverse, neither of s nor of a slope. */
  lemma VerifyNumbersExactly(d: nat, h: nat, r: nat, s: nat, c: Domain)
    requires c.IsGroup() && 0 < r < c.n && 0 < s < c.n
    ensures ModInverse(s, c.n).Some?
    ensures var v := ModInverse(s, c.n).value;
            VerifyDefined(d, h * v % c.n, r * v % c.n, c)
    ensures VerifyNumbers(ScalarTimes(d, c.g, c), h, r, s, c)
         == Compare(Multiple(Recovered(d, h, r, s, c.n), c.g, c.p), r, c.n)
  {
    InverseCount(s, c.n);
    var sInv := ModInverse(s, c.n).value;
    var u1, u2 := h * sInv % c.n, r * sInv % c.n;
    var e, w := u2 * d, (h + r * d) * sInv;
    CombineScalars(h, r, d, sInv, u1, u2, e, w, c.n);
    CombineMultiples(u1, u2, d, e, c.n, c.g, c.p);
    VerifyIsDefined(d, u1, u2, c);
  }

  /** Verification of a hex string under the key of priv, for every string: it accepts exactly
      the 64-byte encodings of (r, s) in range whose recovered point has x = r modulo n. */
  lemma VerifyExactly(priv: seq<byte>, hash: seq<byte>, sigHex: string, c: Domain)
    requires c.IsGroup()
    ensures VerifyEcdsa(PublicKey(priv, c), hash, sigHex, c) == Accepted <==>
            && HexDecode(sigHex).Some? && |HexDecode(sigHex).value| == 64
            && var sig := HexDecode(sigHex).value;
               var r, s := FromBytes(sig[..32]), FromBytes(sig[32..]);
               && 0 < r < c.n && 0 < s < c.n && ModInverse(s, c.n).Some?
               && var w := Multiple(Recovered(FromBytes(priv), FromBytes(hash), r, s, c.n), c.g, c.p);
                  w.Affine? && w.x % c.n == r
  {
    if HexDecode(sigHex).Some? && |HexDecode(sigHex).value| == 64 {
      var sig := HexDecode(sigHex).value;
      var r, s := FromBytes(sig[..32]), FromBytes(sig[32..]);
      if 0 < r < c.n && 0 < s < c.n {
        VerifyNumbersExactly(FromBytes(priv), FromBytes(hash), r, s, c);
      }
    }
  }

  /** Every verdict, for the key of priv and any string: how each rejection comes about. */
  lemma VerdictsExactly(priv: seq<byte>, hash: seq<byte>, sigHex: string, c: Domain)
    requires c.IsGroup()
    ensures var v := VerifyEcdsa(PublicKey(priv, c), hash, sigHex, c);
            var sig := HexDecode(sigHex);
            if sig.None? || |sig.value| != 64 then v == Malformed
            else
              var r, s := FromBytes(sig.value[..32]), FromBytes(sig.value[32..]);
              if r == 0 || s == 0 then v == ZeroComponent
              else if r >= c.n || s >= c.n then v == OutOfRange
              else
                && ModInverse(s, c.n).Some?
                && var w := Multiple(Recovered(FromBytes(priv), FromBytes(hash), r, s, c.n), c.g, c.p);
                   && (v == AtInfinity <==> w.Infinity?)
                   && (v == Mismatch <==> w.Affine? && w.x % c.n != r)
                   && (v == Accepted <==> w.Affine? && w.x % c.n == r)
  {
    var sig := HexDecode(sigHex);
    if sig.Some? && |sig.value| == 64 {
      var r, s := FromBytes(sig.value[..32]), FromBytes(sig.value[32..]);
      if 0 < r < c.n && 0 < s < c.n {
        VerifyNumbersExactly(FromBytes(priv), FromBytes(hash), r, s, c);
      }
    }
  }

  // ----- Every signature has a twin -----

  lemma TwinProduct(s: int, v: int, n: int)
    ensures (n - s) * (n - v) == n * (n - s - v) + s * v
  {
    assert (n - s) * (n - v) == n * n - n * v - s * n + s * v;
    assert n * (n - s - v) == n * n - n * s - n * v;
  }

  /** n - v inverts n - s when v inverts s. */
  lemma TwinInverse(s: nat, v: nat, n: nat)
    requires n > 1 && 0 < v < n && Cong(s * v, 1, n)
    ensures ModInverse(n - s, n) == Some(n - v)
  {
    TwinProduct(s, v, n);
    TwinCong((n - s) * (n - v), s * v, n - s - v, n);
    ModInverseComplete(n - s, n - v, n);
    SmallResidue(n - v, n);
  }

  lemma TwinCong(t: int, u: int, q: int, n: int)
    requires n > 1 && t == n * q + u && Cong(u, 1, n)
    ensures Cong(t, 1, n)
  {
    DividesWitness(n, q);
    DividesSum(n, Times(n, q), u - 1);
  }

  lemma SmallResidue(x: int, n: int)
    requires 0 <= x < n
    ensures x % n == x
  {
  }

  lemma TwinSum(e: int, v: int, n: int)
    ensures e * v + e * (n - v) == n * e
  {
  }

  /** The two scalars add up to nothing or to n. */
  lemma TwinResidues(e: int, v: int, n: int)
    requires n > 0
    ensures var j, k := e * v % n, e * (n - v) % n;
            j + k == 0 || j + k == n
  {
    var a, b := e * v, e * (n - v);
    TwinSum(e, v, n);
    ReduceCong(a, n);
    ReduceCong(b, n);
    CongSum(a % n, a, b % n, b, n);
    DividesWitness(n, e);
    DividesSum(n, a % n + b % n - (a + b), Times(n, e));
    BelowTwice(a % n + b % n, n);
  }

  lemma BelowTwice(x: int, n: int)
    requires n > 0 && 0 <= x < 2 * n && Divides(n, x)
    ensures x == 0 || x == n
  {
    if x >= n {
      DividesWitness(n, -1);
      DividesSum(n, x, Times(n, -1));
      SmallMultiple(n, x - n);
    } else {
      SmallMultiple(n, x);
    }
  }

  /** Signatures are malleable: for every key, hash and (r, s) in range, (r, n - s) gets the same
      verdict as (r, s). */
  lemma TwinVerifies(d: nat, h: nat, r: nat, s: nat, c: Domain)
    requires c.IsGroup() && 0 < r < c.n && 0 < s < c.n
    ensures VerifyNumbers(ScalarTimes(d, c.g, c), h, r, c.n - s, c)
         == VerifyNumbers(ScalarTimes(d, c.g, c), h, r, s, c)
  {
    VerifyNumbersExactly(d, h, r, s, c);
    VerifyNumbersExactly(d, h, r, c.n - s, c);
    var v := ModInverse(s, c.n).value;
    TwinInverse(s, v, c.n);
    TwinResidues(h + r * d, v, c.n);
    OppositeMultiples(Recovered(d, h, r, s, c.n), Recovered(d, h, r, c.n - s, c.n), c.n, c.g, c.p);
  }

  // ----- Sign then verify -----

  lemma Regroup(a: int, b: int, c: int)
    ensures a * (b * c) == a * b * c
  {
  }

  /** s = e/k gives k*s = e. */
  lemma NonceTimesS(e: int, k: int, kInv: int, s: int, n: int)
    requires n > 0 && Cong(k * kInv, 1, n) && s == kInv * e % n
    ensures Cong(k * s, e, n)
  {
    ReduceCong(kInv * e, n);
    CongRefl(k, n);
    CongMul(k, k, s, kInv * e, n);
    CongRefl(e, n);
    CongMul(k * kInv, 1, e, e, n);
    Regroup(k, kInv, e);
    CongTrans(k * s, k * (kInv * e), e, n);
  }

  /** k*s = e gives e/s = k. */
  lemma DivideByS(e: int, k: int, s: int, sInv: int, n: int)
    requires n > 0 && Cong(k * s, e, n) && Cong(s * sInv, 1, n)
    ensures Cong(e * sInv, k, n)
  {
    CongSym(k * s, e, n);
    CongRefl(sInv, n);
    CongMul(e, k * s, sInv, sInv, n);
    CongRefl(k, n);
    CongMul(k, k, s * sInv, 1, n);
    Regroup(k, s, sInv);
    CongTrans(e * sInv, k * (s * sInv), k, n);
  }

  /** With s = (h + r*d)/k, the recovered scalar (h + r*d)/s is k again. */
  lemma RecoverNonce(e: int, k: nat, kInv: nat, s: nat, sInv: nat, n: nat)
    requires 0 < k < n && Cong(k * kInv, 1, n) && s == kInv * e % n && Cong(s * sInv, 1, n)
    ensures e * sInv % n == k
  {
    NonceTimesS(e, k, kInv, s, n);
    DivideByS(e, k, s, sInv, n);
    ReducedEquals(e * sInv, k, n);
  }

  lemma ReducedEquals(x: int, k: int, n: int)
    requires 0 <= k < n && Cong(x, k, n)
    ensures x % n == k
  {
    ReduceCong(x, n);
    CongTrans(x % n, x, k, n);
    ResidueUnique(x % n, k, n);
  }

  /** A nonce in [1, n-1] never leads Sign to a nil dereference, inside the scalar loop or after
      it: it signs, or r or s is zero. */
  lemma SignNeverPanics(priv: seq<byte>, hash: seq<byte>, k: nat, c: Domain)
    requires c.IsGroup() && 0 < k < c.n
    ensures !Sign(priv, hash, Some(k), c).NilDereference?
    ensures LoopDefined(k, Infinity, c.g, c.p) && ModInverse(k, c.n).Some?
  {
    ScalarMultIsMultiple(k, c.g, c.p);
    MultipleBelowOrder(k, c.n, c.g, c.p);
    InverseCount(k, c.n);
  }

  lemma ZeroTimesUnit(v: int, e: int, k: int, n: int)
    requires n > 1 && Cong(k * v, 1, n)
    ensures v * e % n == 0 <==> Divides(n, e)
  {
    DividesIffNoRemainder(n, v * e);
    if Divides(n, e) {
      DividesProduct(n, e, v);
      assert e * v == v * e;
    }
    if Divides(n, v * e) {
      assert k * v == v * k;
      UnitCancel(v, e, k, n);
    }
  }

  /** When Sign fails and when it succeeds, for every nonce in range: with r the first coordinate of
      k*G modulo n, it reports a zero r, a zero s exactly when n divides h + r*d, and signs otherwise. */
  lemma SignsExactly(priv: seq<byte>, hash: seq<byte>, k: nat, c: Domain)
    requires c.IsGroup() && 0 < k < c.n
    ensures Multiple(k, c.g, c.p).Affine?
    ensures var r := Multiple(k, c.g, c.p).x % c.n;
            var e := FromBytes(hash) + r * FromBytes(priv);
            var signed := Sign(priv, hash, Some(k), c);
            && (signed.ZeroR? <==> r == 0)
            && (signed.ZeroS? <==> r != 0 && Divides(c.n, e))
            && (signed.Signed? <==> r != 0 && !Divides(c.n, e))
            && (signed.Signed? ==> signed.r == r && Cong(k * signed.s, e, c.n))
  {
    ScalarMultIsMultiple(k, c.g, c.p);
    MultipleBelowOrder(k, c.n, c.g, c.p);
    InverseCount(k, c.n);
    var r := Multiple(k, c.g, c.p).x % c.n;
    var e, v := FromBytes(hash) + r * FromBytes(priv), ModInverse(k, c.n).value;
    SignCases(priv, hash, k, r, e, v, c);
    ZeroTimesUnit(v, e, k, c.n);
    NonceTimesS(e, k, v, v * e % c.n, c.n);
  }

  lemma SignCases(priv: seq<byte>, hash: seq<byte>, k: nat, r: int, e: int, v: int, c: Domain)
    requires c.WellFormed() && ScalarTimes(k, c.g, c).Affine? && r == ScalarTimes(k, c.g, c).x % c.n
    requires e == FromBytes(hash) + r * FromBytes(priv) && ModInverse(k, c.n) == Some(v)
    ensures Sign(priv, hash, Some(k), c)
         == if r == 0 then ZeroR else if v * e % c.n == 0 then ZeroS else Signed(r, v * e % c.n)
  {
  }

  /** The numbers of a signature verify under the signer's key. */
  lemma SignedNumbersVerify(priv: seq<byte>, hash: seq<byte>, k: nat, r: nat, s: nat, c: Domain)
    requires c.IsGroup() && 0 < k < c.n && Sign(priv, hash, Some(k), c) == Signed(r, s)
    ensures VerifyNumbers(PublicKey(priv, c), FromBytes(hash), r, s, c) == Accepted
  {
    var d, h := FromBytes(priv), FromBytes(hash);
    SignatureEquations(priv, hash, k, c);
    VerifyNumbersExactly(d, h, r, s, c);
    assert Recovered(d, h, r, s, c.n) == k by {
      RecoverNonce(h + r * d, k, ModInverse(k, c.n).value, s, ModInverse(s, c.n).value, c.n);
    }
    ScalarMultIsMultiple(k, c.g, c.p);
  }

  lemma Encoded(r: nat, s: nat)
    requires r < TWO_256 && s < TWO_256
    ensures var t := HexEncode(Field32(r) + Field32(s));
            && |t| == 128
            && HexDecode(t).Some? && |HexDecode(t).value| == 64
            && FromBytes(HexDecode(t).value[..32]) == r
            && FromBytes(HexDecode(t).value[32..]) == s
  {
    var b := Field32(r) + Field32(s);
    HexRoundTrip(b);
    HexLength(b);
    assert b[..32] == Field32(r) && b[32..] == Field32(s);
    Field32RoundTrip(r);
    Field32RoundTrip(s);
  }

  /** Every signature that SignToHex produces, for any key bytes, any hash bytes and any nonce
      in range, decodes to the (r, s) that Sign computed and is accepted under the signer's key. */
  lemma SignThenVerify(priv: seq<byte>, hash: seq<byte>, k: nat, c: Domain)
    requires c.IsGroup() && 0 < k < c.n && SignToHex(priv, hash, Some(k), c).Some?
    ensures var sigHex := SignToHex(priv, hash, Some(k), c).value;
            && |sigHex| == 128
            && HexDecode(sigHex).Some? && |HexDecode(sigHex).value| == 64
            && VerifyEcdsa(PublicKey(priv, c), hash, sigHex, c) == Accepted
            && var sig := HexDecode(sigHex).value;
               Sign(priv, hash, Some(k), c) == Signed(FromBytes(sig[..32]), FromBytes(sig[32..]))
  {
    var signed := Sign(priv, hash, Some(k), c);
    SignatureEquations(priv, hash, k, c);
    SignedNumbersVerify(priv, hash, k, signed.r, signed.s, c);
    Encoded(signed.r, signed.s);
  }
}

/** The concrete parameters of the node's keys. */
module Secp256k1 {
  import opened NumberTheory
  import opened Bytes
  import opened Curve
  import opened Ecdsa

  const P: int := 0xFFFFFFFFFFFFFFFFFFFFFFFFFFFFFFFFFFFFFFFFFFFFFFFFFFFFFFFEFFFFFC2F
  const N: int := 0xFFFFFFFFFFFFFFFFFFFFFFFFFFFFFFFEBAAEDCE6AF48A03BBFD25E8CD0364141
  const GX: int := 0x79BE667EF9DCBBAC55A06295CE870B07029BFCDB2DCE28D959F2815B16F81798
  const GY: int := 0x483ADA7726A3C4655DA4FBFC0E1108A8FD17B448A68554199C47D08FFB10D4B8

  const SECP: Domain := Domain(P, N, Affine(GX, GY))

  /** The public facts about secp256k1 that are not re-proved here. */
  ghost predicate GroupFacts() {
    && IsPrime(P) && IsPrime(N)
    && (forall x :: 0 <= x < P ==> !OnCurve(Affine(x, 0), P))
    && Associative(P)
    && Multiple(N, SECP.g, P) == Infinity
  }

  /** The generator satisfies the curve equation, and with the public facts the parameters
      meet everything the signing theorems ask for. */
  lemma DomainIsGroup()
    ensures P == TWO_256 - 0x1000003D1 && N < P && OnCurve(SECP.g, P)
    ensures GroupFacts() ==> SECP.IsGroup()
  {
    DividesIffNoRemainder(P, GY * GY - (GX * GX * GX + 7));
  }

  /** Sign-then-verify for the node's own keys. */
  lemma NodeSignatureVerifies(priv: seq<byte>, hash: seq<byte>, k: nat)
    requires GroupFacts() && 0 < k < N
    ensures !Sign(priv, hash, Some(k), SECP).NilDereference?
    ensures SignToHex(priv, hash, Some(k), SECP).Some? ==>
              VerifyEcdsa(PublicKey(priv, SECP), hash, SignToHex(priv, hash, Some(k), SECP).value, SECP) == Accepted
  {
    DomainIsGroup();
    SignNeverPanics(priv, hash, k, SECP);
    if SignToHex(priv, hash, Some(k), SECP).Some? {
      SignThenVerify(priv, hash, k, SECP);
    }
  }
}
