/** The byte and hex encodings that signatures travel in: big.Int.SetBytes and Bytes,
    left padding to 32 bytes, and encoding/hex. */
module Bytes {
  import opened NumberTheory

  newtype byte = x: int | 0 <= x < 256

  const TWO_256: int := 0x1_0000000000000000_0000000000000000_0000000000000000_0000000000000000

  /** big.Int.SetBytes: big-endian value. */
  function FromBytes(s: seq<byte>): nat {
    if s == [] then 0 else FromBytes(s[..|s| - 1]) * 256 + s[|s| - 1] as int
  }

  /** big.Int.Bytes: the shortest big-endian form. */
  function ToBytes(x: nat): seq<byte> {
    if x == 0 then [] else ToBytes(x / 256) + [(x % 256) as byte]
  }

  function Pow256(k: nat): nat {
    if k == 0 then 1 else 256 * Pow256(k - 1)
  }

  lemma {:induction false} ToBytesLength(x: nat, k: nat)
    requires x < Pow256(k)
    ensures |ToBytes(x)| <= k
  {
    if x > 0 {
      ToBytesLength(x / 256, k - 1);
    }
  }

  lemma ThirtyTwoBytes()
    ensures Pow256(32) == TWO_256
  {
    assert Pow256(8) == 0x1_0000000000000000;
    assert Pow256(16) == 0x1_0000000000000000_0000000000000000;
    assert Pow256(24) == 0x1_0000000000000000_0000000000000000_0000000000000000;
  }

  lemma {:induction false} FromToBytes(x: nat)
    ensures FromBytes(ToBytes(x)) == x
  {
    if x > 0 {
      FromToBytes(x / 256);
      var b := ToBytes(x);
      assert b[..|b| - 1] == ToBytes(x / 256);
    }
  }

  /** Big-endian: a byte is its own value, and bytes in front count for 256 to the number behind. */
  lemma {:induction false} FromBytesJoins(s: seq<byte>, t: seq<byte>)
    ensures FromBytes(s + t) == FromBytes(s) * Pow256(|t|) + FromBytes(t)
    ensures |t| == 1 ==> FromBytes(t) == t[0] as int
    decreases |t|
  {
    if t == [] {
      assert s + t == s;
    } else {
      var n := |t| - 1;
      FromBytesJoins(s, t[..n]);
      assert (s + t)[..|s + t| - 1] == s + t[..n];
      assert FromBytes(s) * (256 * Pow256(n)) == FromBytes(s) * Pow256(n) * 256;
      if n == 0 {
        assert FromBytes(t[..0]) == 0;
      }
    }
  }

  function Zeros(k: nat): (z: seq<byte>)
    ensures |z| == k
  {
    seq(k, i => 0 as byte)
  }

  lemma {:induction false} LeadingZeros(k: nat, s: seq<byte>)
    ensures FromBytes(Zeros(k) + s) == FromBytes(s)
    decreases k + |s|
  {
    var z := Zeros(k) + s;
    if s != [] {
      assert z[..|z| - 1] == Zeros(k) + s[..|s| - 1];
      LeadingZeros(k, s[..|s| - 1]);
    } else if k > 0 {
      assert z == Zeros(k) && z[..k - 1] == Zeros(k - 1) + [];
      LeadingZeros(k - 1, []);
    }
  }

  /** The 32-byte field that a number below 2^256 is written into. */
  function Field32(x: nat): (f: seq<byte>)
    requires x < TWO_256
    ensures |f| == 32
  {
    ThirtyTwoBytes();
    ToBytesLength(x, 32);
    Zeros(32 - |ToBytes(x)|) + ToBytes(x)
  }

  lemma Joined(s: seq<byte>, start: nat, b: seq<byte>)
    requires |s| == start + |b|
    requires (forall j :: 0 <= j < start ==> s[j] == 0) && (forall j :: 0 <= j < |b| ==> s[start + j] == b[j])
    ensures s == Zeros(start) + b
  {
  }

  /** make([]byte, 32) followed by copy(buf[32-len(b):], b). */
  method WriteField32(x: nat) returns (buf: array<byte>)
    requires x < TWO_256
    ensures fresh(buf) && buf[..] == Field32(x)
  {
    ThirtyTwoBytes();
    ToBytesLength(x, 32);
    var b := ToBytes(x);
    buf := new byte[32](i => 0 as byte);
    var start := 32 - |b|;
    for i := 0 to |b|
      invariant forall j :: 0 <= j < start ==> buf[j] == 0
      invariant forall j :: 0 <= j < i ==> buf[start + j] == b[j]
    {
      buf[start + i] := b[i];
    }
    Joined(buf[..], start, b);
  }

  /** Reading a 32-byte field gives back the number written into it. */
  lemma Field32RoundTrip(x: nat)
    requires x < TWO_256
    ensures FromBytes(Field32(x)) == x
  {
    ThirtyTwoBytes();
    ToBytesLength(x, 32);
    LeadingZeros(32 - |ToBytes(x)|, ToBytes(x));
    FromToBytes(x);
  }

  // ----- encoding/hex -----

  function HexDigit(v: int): char
    requires 0 <= v < 16
  {
    if v < 10 then '0' + v as char else 'a' + (v - 10) as char
  }

  function DigitValue(c: char): Option<int> {
    if '0' <= c <= '9' then Some((c - '0') as int)
    else if 'a' <= c <= 'f' then Some((c - 'a') as int + 10)
    else if 'A' <= c <= 'F' then Some((c - 'A') as int + 10)
    else None
  }

  function HexEncode(s: seq<byte>): string {
    if s == [] then ""
    else [HexDigit(s[0] as int / 16), HexDigit(s[0] as int % 16)] + HexEncode(s[1..])
  }

  /** hex.DecodeString: nil on an odd length or a character outside [0-9a-fA-F]. */
  function HexDecode(t: string): Option<seq<byte>> {
    if t == "" then Some([])
    else if |t| == 1 then None
    else
      match (DigitValue(t[0]), DigitValue(t[1]), HexDecode(t[2..]))
      case (Some(hi), Some(lo), Some(rest)) =>
        DigitValueRange(t[0]);
        DigitValueRange(t[1]);
        Some([(16 * hi + lo) as byte] + rest)
      case _ => None
  }

  lemma DigitValueRange(c: char)
    ensures DigitValue(c).Some? ==> 0 <= DigitValue(c).value < 16
  {
  }

  lemma {:induction false} HexRoundTrip(s: seq<byte>)
    ensures HexDecode(HexEncode(s)) == Some(s)
  {
    if s != [] {
      var t := HexEncode(s);
      var v := s[0] as int;
      assert t[2..] == HexEncode(s[1..]);
      HexRoundTrip(s[1..]);
      assert DigitValue(HexDigit(v / 16)) == Some(v / 16);
      assert DigitValue(HexDigit(v % 16)) == Some(v % 16);
      assert s == [s[0]] + s[1..];
    }
  }

  lemma {:induction false} HexLength(s: seq<byte>)
    ensures |HexEncode(s)| == 2 * |s|
  {
    if s != [] {
      HexLength(s[1..]);
    }
  }

  /** High nibble first, digits in lower case, byte after byte. */
  lemma {:induction false} HexEncodesExactly(s: seq<byte>, i: nat)
    requires i < |s|
    ensures |HexEncode(s)| == 2 * |s|
    ensures HexEncode(s)[2 * i] == "0123456789abcdef"[s[i] as int / 16]
    ensures HexEncode(s)[2 * i + 1] == "0123456789abcdef"[s[i] as int % 16]
  {
    HexLength(s);
    if i == 0 {
      NibbleDigit(s[0] as int / 16);
      NibbleDigit(s[0] as int % 16);
    } else {
      HexEncodesExactly(s[1..], i - 1);
      assert HexEncode(s)[2..] == HexEncode(s[1..]);
      assert HexEncode(s)[2 * i] == HexEncode(s)[2..][2 * (i - 1)];
      assert HexEncode(s)[2 * i + 1] == HexEncode(s)[2..][2 * (i - 1) + 1];
    }
  }

  lemma NibbleDigit(v: int)
    requires 0 <= v < 16
    ensures HexDigit(v) == "0123456789abcdef"[v]
  {
  }

  // ----- Exactly what hex.DecodeString accepts -----

  predicate IsHexDigit(c: char) {
    '0' <= c <= '9' || 'a' <= c <= 'f' || 'A' <= c <= 'F'
  }

  function LowerDigit(c: char): char {
    if 'A' <= c <= 'F' then 'a' + (c - 'A') else c
  }

  function Lower(t: string): string {
    if t == "" then "" else [LowerDigit(t[0])] + Lower(t[1..])
  }

  lemma DigitExactly(c: char)
    ensures DigitValue(c).Some? <==> IsHexDigit(c)
    ensures DigitValue(c).Some? ==> 0 <= DigitValue(c).value < 16 && HexDigit(DigitValue(c).value) == LowerDigit(c)
  {
  }

  lemma LowerStep(t: string)
    requires |t| >= 2
    ensures Lower(t) == [LowerDigit(t[0]), LowerDigit(t[1])] + Lower(t[2..])
  {
    assert t[1..][1..] == t[2..];
  }

  lemma SplitByte(hi: int, lo: int)
    requires 0 <= hi < 16 && 0 <= lo < 16
    ensures 0 <= 16 * hi + lo < 256 && (16 * hi + lo) / 16 == hi && (16 * hi + lo) % 16 == lo
  {
  }

  /** Decoding succeeds exactly on an even number of hex digits of either case, and then encoding
      gives the string back in lower case. */
  lemma {:induction false} HexDecodesExactly(t: string)
    ensures HexDecode(t).Some? <==> |t| % 2 == 0 && forall i :: 0 <= i < |t| ==> IsHexDigit(t[i])
    ensures HexDecode(t).Some? ==> HexEncode(HexDecode(t).value) == Lower(t)
    decreases |t|
  {
    if |t| == 1 {
      assert |t| % 2 == 1;
    } else if |t| >= 2 {
      HexDecodesExactly(t[2..]);
      DigitExactly(t[0]);
      DigitExactly(t[1]);
      DigitsOfTail(t);
      if HexDecode(t).Some? {
        var hi, lo := DigitValue(t[0]).value, DigitValue(t[1]).value;
        SplitByte(hi, lo);
        LowerStep(t);
        var s := HexDecode(t).value;
        assert s[1..] == HexDecode(t[2..]).value;
      }
    }
  }

  lemma DigitsOfTail(t: string)
    requires |t| >= 2
    ensures (forall i :: 0 <= i < |t| ==> IsHexDigit(t[i]))
       <==> IsHexDigit(t[0]) && IsHexDigit(t[1]) && forall i :: 0 <= i < |t[2..]| ==> IsHexDigit(t[2..][i])
  {
    if IsHexDigit(t[0]) && IsHexDigit(t[1]) && forall i :: 0 <= i < |t[2..]| ==> IsHexDigit(t[2..][i]) {
      forall i | 0 <= i < |t|
        ensures IsHexDigit(t[i])
      {
        if i >= 2 {
          assert t[2..][i - 2] == t[i];
        }
      }
    }
  }
}
