/** The scalar wire encodings of nanopb: base-128 varints, zigzag and little-endian fixed-width
    integers. Every decoder returns the value and the unread rest of the input, or Fail. */
module Varint {
  import opened Bits

  datatype Dec<+T> = Fail | Got(value: T, rest: seq<byte>)

  // ---------- base-128 varints ----------

  /** Least significant group of seven bits first, continuation bit on all bytes but the last. */
  function EncodeVarint(v: nat): (r: seq<byte>)
    ensures |r| >= 1
  {
    if v < 128 then [v] else [v % 128 + 128] + EncodeVarint(v / 128)
  }

  /** The number denoted by a sequence of seven-bit groups. */
  function GroupsValue(s: seq<byte>): nat {
    if s == [] then 0 else s[0] % 128 + 128 * GroupsValue(s[1..])
  }

  /** Position of the first byte without a continuation bit, |bs| if there is none. */
  function FirstStop(bs: seq<byte>): (n: nat)
    ensures n <= |bs|
  {
    if bs == [] || bs[0] < 128 then 0 else 1 + FirstStop(bs[1..])
  }

  /** At most ten bytes; bits beyond the 64th are dropped. */
  function DecodeVarint64(bs: seq<byte>): (r: Dec<nat>)
    ensures r.Got? ==> r.value < TWO_TO_THE_64 && |r.rest| < |bs|
  {
    var n := FirstStop(bs);
    if n >= 10 || n == |bs| then Fail
    else Got(Trunc64(GroupsValue(bs[..n + 1])), bs[n + 1..])
  }

  /** Bytes of a varint are skipped whatever their number. */
  function SkipVarint(bs: seq<byte>): (r: Dec<()>)
    ensures r.Got? ==> |r.rest| < |bs|
  {
    var n := FirstStop(bs);
    if n == |bs| then Fail else Got((), bs[n + 1..])
  }

  /** The 32-bit decoder after its first byte. `bitpos` is a uint_fast8_t of eight bits, `result` a
      uint32_t. Groups at or above bit 32 must be zero or extend the sign of a negative int32. */
  function Varint32More(bs: seq<byte>, bitpos: nat, result: nat): (r: Dec<nat>)
    requires bitpos < 256 && result < TWO_TO_THE_32
    ensures r.Got? ==> r.value < TWO_TO_THE_32 && |r.rest| < |bs|
    decreases |bs|
  {
    if bs == [] then Fail
    else
      var b := bs[0];
      if bitpos >= 32 && b % 128 != 0 && (result < TWO_TO_THE_31 || b != SignExtension(bitpos)) then Fail
      else
        var result' := if bitpos >= 32 then result else OrGroup32(result, b, bitpos);
        var bitpos' := (bitpos + 7) % 256;
        if b >= 128 then Varint32More(bs[1..], bitpos', result')
        else if bitpos' == 35 && b / 16 % 8 != 0 then Fail
        else Got(result', bs[1..])
  }

  function SignExtension(bitpos: nat): byte { if bitpos < 63 then 0xFF else 0x01 }

  /** result |= (uint32_t)(b & 0x7F) << bitpos */
  function OrGroup32(result: nat, b: byte, bitpos: nat): (r: nat)
    requires result < TWO_TO_THE_32
    ensures r < TWO_TO_THE_32
  {
    Pow2Values();
    OrBound(32, result, Trunc32(b % 128 * Pow2(bitpos)));
    Or(result, Trunc32(b % 128 * Pow2(bitpos)))
  }

  function DecodeVarint32(bs: seq<byte>): (r: Dec<nat>)
    ensures r.Got? ==> r.value < TWO_TO_THE_32 && |r.rest| < |bs|
  {
    if bs == [] then Fail
    else if bs[0] < 128 then Got(bs[0], bs[1..])
    else Varint32More(bs[1..], 7, bs[0] % 128)
  }

  // ---------- zigzag ----------

  function ToUint64(v: int): nat
    requires -TWO_TO_THE_63 <= v < TWO_TO_THE_64
  {
    if v < 0 then v + TWO_TO_THE_64 else v
  }

  function ToInt64(v: nat): int
    requires v < TWO_TO_THE_64
  {
    if v < TWO_TO_THE_63 then v else v - TWO_TO_THE_64
  }

  function Not64(v: nat): nat
    requires v < TWO_TO_THE_64
  {
    TWO_TO_THE_64 - 1 - v
  }

  function ZigzagEncode(v: int): (r: nat)
    requires -TWO_TO_THE_63 <= v < TWO_TO_THE_63
    ensures r < TWO_TO_THE_64
  {
    var shifted := Trunc64(ToUint64(v) * 2);
    if v < 0 then Not64(shifted) else shifted
  }

  function ZigzagDecode(v: nat): (r: int)
    requires v < TWO_TO_THE_64
    ensures -TWO_TO_THE_63 <= r < TWO_TO_THE_63
  {
    if v % 2 == 1 then ToInt64(Not64(v / 2)) else ToInt64(v / 2)
  }

  /** Zigzag numbers the integers 0, -1, 1, -2, ... and is undone by the decoder. */
  lemma ZigzagRoundTrip(v: int)
    requires -TWO_TO_THE_63 <= v < TWO_TO_THE_63
    ensures ZigzagEncode(v) == (if v < 0 then -2 * v - 1 else 2 * v)
    ensures ZigzagDecode(ZigzagEncode(v)) == v
  {
    if v < 0 {
      assert ToUint64(v) * 2 == TWO_TO_THE_64 + (2 * v + TWO_TO_THE_64);
    }
  }

  // ---------- fixed width ----------

  /** n bytes, least significant first. */
  function LittleEndian(v: nat, n: nat): (r: seq<byte>)
    ensures |r| == n
  {
    if n == 0 then [] else [v % 256] + LittleEndian(v / 256, n - 1)
  }

  function FromLittleEndian(s: seq<byte>): nat {
    if s == [] then 0 else s[0] + 256 * FromLittleEndian(s[1..])
  }

  function DecodeFixed(bs: seq<byte>, n: nat): (r: Dec<nat>)
    ensures r.Got? ==> |r.rest| + n == |bs|
  {
    if |bs| < n then Fail else Got(FromLittleEndian(bs[..n]), bs[n..])
  }

  lemma {:induction false} FixedRoundTrip(v: nat, n: nat, rest: seq<byte>)
    requires v < Pow2(8 * n)
    ensures DecodeFixed(LittleEndian(v, n) + rest, n) == Got(v, rest)
  {
    var bs := LittleEndian(v, n);
    assert (bs + rest)[..n] == bs && (bs + rest)[n..] == rest;
    LittleEndianValue(v, n);
  }

  lemma {:induction false} LittleEndianValue(v: nat, n: nat)
    requires v < Pow2(8 * n)
    ensures FromLittleEndian(LittleEndian(v, n)) == v
  {
    if n > 0 {
      Pow2Add(8, 8 * (n - 1));
      assert Pow2(8) == 256;
      LittleEndianValue(v / 256, n - 1);
      assert LittleEndian(v, n)[1..] == LittleEndian(v / 256, n - 1);
    }
  }

  // ---------- properties of varints ----------

  lemma {:induction false} VarintShape(v: nat, rest: seq<byte>)
    ensures FirstStop(EncodeVarint(v) + rest) == |EncodeVarint(v)| - 1
    ensures GroupsValue(EncodeVarint(v)) == v
  {
    var bs := EncodeVarint(v);
    if v < 128 {
      assert (bs + rest)[0] == v;
      assert bs[1..] == [];
    } else {
      VarintShape(v / 128, rest);
      assert (bs + rest)[1..] == EncodeVarint(v / 128) + rest;
      assert bs[1..] == EncodeVarint(v / 128);
    }
  }

  function Pow128(n: nat): nat { if n == 0 then 1 else 128 * Pow128(n - 1) }

  lemma {:induction false} VarintLength(v: nat, n: nat)
    requires n >= 1 && v < Pow128(n)
    ensures |EncodeVarint(v)| <= n
  {
    if v >= 128 { VarintLength(v / 128, n - 1); }
  }

  lemma VarintTenBytes(v: nat)
    requires v < TWO_TO_THE_64
    ensures |EncodeVarint(v)| <= 10
  {
    assert Pow128(5) == 0x8_0000_0000;
    assert Pow128(10) == 64 * TWO_TO_THE_64;
    VarintLength(v, 10);
  }

  /** Every uint64 takes at most ten bytes and is read back, leaving what follows. */
  lemma VarintRoundTrip(v: nat, rest: seq<byte>)
    requires v < TWO_TO_THE_64
    ensures |EncodeVarint(v)| <= 10
    ensures DecodeVarint64(EncodeVarint(v) + rest) == Got(v, rest)
    ensures SkipVarint(EncodeVarint(v) + rest) == Got((), rest)
  {
    VarintTenBytes(v);
    VarintShape(v, rest);
    var e := EncodeVarint(v);
    var n := |e| - 1;
    assert n + 1 == |e| && (e + rest)[..n + 1] == e && (e + rest)[n + 1..] == rest;
  }

  /** x << 7 * k, for the groups below bit 32. */
  function ShiftGroup(x: nat, k: nat): nat
    requires 1 <= k <= 4
  {
    if k == 1 then x * 0x80 else if k == 2 then x * 0x4000 else if k == 3 then x * 0x20_0000 else x * 0x1000_0000
  }

  lemma OrGroup32Fits(result: nat, b: byte, k: nat)
    requires 1 <= k <= 4 && result < ShiftGroup(1, k)
    ensures OrGroup32(result, b, 7 * k) == result + ShiftGroup(if k < 4 then b % 128 else b % 16, k)
  {
    hide Or, Pow2;
    var g := if k < 4 then b % 128 else b % 16;
    ShiftIs(b % 128, k);
    ShiftIs(g, k);
    ShiftIs(1, k);
    assert Trunc32(ShiftGroup(b % 128, k)) == ShiftGroup(g, k) by { ShiftTruncated(b, k); }
    OrDisjoint(result, g, 7 * k);
  }

  lemma ShiftIs(x: nat, k: nat)
    requires 1 <= k <= 4
    ensures x * Pow2(7 * k) == ShiftGroup(x, k)
  {
    hide Pow2;
    Pow2Values();
  }

  lemma ShiftTruncated(b: byte, k: nat)
    requires 1 <= k <= 4
    ensures Trunc32(ShiftGroup(b % 128, k)) == ShiftGroup(if k < 4 then b % 128 else b % 16, k)
  {
    SumTruncated(0, b, k);
  }

  /** Only four bits of the group at bit 28 have room. */
  lemma SumTruncated(result: nat, b: byte, k: nat)
    requires 1 <= k <= 4 && result < ShiftGroup(1, k)
    ensures Trunc32(result + ShiftGroup(b % 128, k)) == result + ShiftGroup(if k < 4 then b % 128 else b % 16, k)
  {
    if k == 4 {
      Nibbles(b);
      ModIs(result + b % 128 * 0x1000_0000, TWO_TO_THE_32, b / 16 % 8, result + b % 16 * 0x1000_0000);
    }
  }

  lemma Nibbles(b: byte)
    ensures b % 128 == b % 16 + 16 * (b / 16 % 8)
  {
  }

  lemma GroupSplit(x: nat, k: nat, r: nat)
    requires 1 <= k < 4 && r < ShiftGroup(1, k)
    ensures ShiftGroup(x, k) == ShiftGroup(x % 128, k) + ShiftGroup(x / 128, k + 1)
    ensures r + ShiftGroup(x % 128, k) < ShiftGroup(1, k + 1) < TWO_TO_THE_32
  {
  }

  /** One byte of the 32-bit decoder. */
  lemma MoreByte(bs: seq<byte>, bitpos: nat, result: nat)
    requires bs != [] && bitpos < 256 && result < TWO_TO_THE_32
    ensures var b := bs[0];
      var next := if bitpos >= 32 then result else OrGroup32(result, b, bitpos);
      Varint32More(bs, bitpos, result) ==
        if bitpos >= 32 && b % 128 != 0 && (result < TWO_TO_THE_31 || b != SignExtension(bitpos)) then Fail
        else if b >= 128 then Varint32More(bs[1..], (bitpos + 7) % 256, next)
        else if (bitpos + 7) % 256 == 35 && b / 16 % 8 != 0 then Fail
        else Got(next, bs[1..])
  {
    hide OrGroup32, SignExtension;
  }

  lemma FirstByte(v: nat, rest: seq<byte>)
    ensures EncodeVarint(v) + rest != []
    ensures (EncodeVarint(v) + rest)[0] == if v < 128 then v else v % 128 + 128
    ensures (EncodeVarint(v) + rest)[1..] == if v < 128 then rest else EncodeVarint(v / 128) + rest
  {
    assert v >= 128 ==> EncodeVarint(v)[1..] == EncodeVarint(v / 128);
  }

  /** One continued group below bit 32. */
  lemma MoreStep(x: nat, k: nat, r: nat, rest: seq<byte>)
    requires 1 <= k <= 4 && r < ShiftGroup(1, k) && x >= 128
    ensures r + ShiftGroup(if k < 4 then x % 128 else x % 16, k) < TWO_TO_THE_32
    ensures Varint32More(EncodeVarint(x) + rest, 7 * k, r)
         == Varint32More(EncodeVarint(x / 128) + rest, 7 * (k + 1),
                         r + ShiftGroup(if k < 4 then x % 128 else x % 16, k))
  {
    assert r < TWO_TO_THE_32;
    hide *;
    var bs := EncodeVarint(x) + rest;
    FirstByte(x, rest);
    MoreContinued(bs, 7 * k, r);
    SameGroup(x);
    OrGroup32Fits(r, bs[0], k);
  }

  lemma MoreContinued(bs: seq<byte>, bitpos: nat, result: nat)
    requires bs != [] && bs[0] >= 128 && bitpos < 32 && result < TWO_TO_THE_32
    ensures Varint32More(bs, bitpos, result) == Varint32More(bs[1..], bitpos + 7, OrGroup32(result, bs[0], bitpos))
  {
    hide OrGroup32, Varint32More;
    MoreByte(bs, bitpos, result);
  }

  lemma SameGroup(x: nat)
    ensures (x % 128 + 128) % 128 == x % 128 && (x % 128 + 128) % 16 == x % 16
  {
    var g, q := x % 128, x / 128;
    assert x == 128 * q + g && g % 16 == x % 16;
  }

  /** The last group below bit 32, which must not reach past it. */
  lemma MoreLast(x: nat, k: nat, r: nat, rest: seq<byte>)
    requires 1 <= k <= 4 && r < ShiftGroup(1, k) && x < 128 && (k == 4 ==> x < 16)
    ensures Varint32More(EncodeVarint(x) + rest, 7 * k, r) == Got(r + ShiftGroup(x, k), rest)
  {
    hide OrGroup32;
    var bs := EncodeVarint(x) + rest;
    assert bs[0] == x && bs[1..] == rest;
    OrGroup32Fits(r, x, k);
  }

  lemma {:induction false} SmallMore(x: nat, k: nat, r: nat, rest: seq<byte>)
    requires 1 <= k <= 4 && r < ShiftGroup(1, k) && r + ShiftGroup(x, k) < TWO_TO_THE_32
    ensures Varint32More(EncodeVarint(x) + rest, 7 * k, r) == Got(r + ShiftGroup(x, k), rest)
    decreases x
  {
    hide Varint32More;
    if x < 128 {
      MoreLast(x, k, r, rest);
    } else {
      MoreStep(x, k, r, rest);
      GroupSplit(x, k, r);
      SmallMore(x / 128, k + 1, r + ShiftGroup(x % 128, k), rest);
    }
  }

  /** The five bytes FF FF FF FF 01 that end every sign-extended negative int32. */
  lemma SignTail(result: nat, rest: seq<byte>)
    requires TWO_TO_THE_31 <= result < TWO_TO_THE_32
    ensures Varint32More(EncodeVarint(0x1FFF_FFFF) + rest, 35, result) == Got(result, rest)
  {
    var bs := [0xFF, 0xFF, 0xFF, 0xFF, 0x01] + rest;
    assert EncodeVarint(0x1FFF_FFFF) == [0xFF, 0xFF, 0xFF, 0xFF, 0x01];
    assert bs[1..][1..] == bs[2..] && bs[2..][1..] == bs[3..] && bs[3..][1..] == bs[4..] && bs[4..][1..] == rest;
    calc {
      Varint32More(bs, 35, result);
      Varint32More(bs[1..], 42, result);
      Varint32More(bs[2..], 49, result);
      Varint32More(bs[3..], 56, result);
      Varint32More(bs[4..], 63, result);
      Got(result, rest);
    }
  }

  lemma {:induction false} NegativeMore(x: nat, k: nat, r: nat, rest: seq<byte>)
    requires 1 <= k <= 4 && r < ShiftGroup(1, k)
    requires TWO_TO_THE_64 - TWO_TO_THE_31 <= r + ShiftGroup(x, k) < TWO_TO_THE_64
    ensures Varint32More(EncodeVarint(x) + rest, 7 * k, r) == Got(Trunc32(r + ShiftGroup(x, k)), rest)
    decreases x
  {
    hide Varint32More, Trunc32, EncodeVarint;
    if k < 4 {
      assert x >= 128;
      MoreStep(x, k, r, rest);
      GroupSplit(x, k, r);
      NegativeMore(x / 128, k + 1, r + ShiftGroup(x % 128, k), rest);
    } else {
      NegativeFifthGroup(x, r, rest);
    }
  }

  /** The group at bit 28 holds the top four bits of the int32 and three copies of its sign. */
  lemma NegativeFifthGroup(x: nat, r: nat, rest: seq<byte>)
    requires r < 0x1000_0000
    requires TWO_TO_THE_64 - TWO_TO_THE_31 <= r + x * 0x1000_0000 < TWO_TO_THE_64
    ensures Varint32More(EncodeVarint(x) + rest, 28, r) == Got(Trunc32(r + x * 0x1000_0000), rest)
  {
    hide Varint32More, EncodeVarint;
    MoreStep(x, 4, r, rest);
    assert x / 128 == 0x1FFF_FFFF;
    SignTail(r + x % 16 * 0x1000_0000, rest);
  }

  /** On the encoding of a uint32, or of a negative int32 sign-extended to 64 bits, the 32-bit
      decoder returns the value modulo 2^32, as the 64-bit decoder does. */
  lemma Varint32Agrees(v: nat, rest: seq<byte>)
    requires v < TWO_TO_THE_32 || TWO_TO_THE_64 - TWO_TO_THE_31 <= v < TWO_TO_THE_64
    ensures DecodeVarint32(EncodeVarint(v) + rest) == Got(Trunc32(v), rest)
    ensures DecodeVarint64(EncodeVarint(v) + rest) == Got(v, rest)
  {
    hide OrGroup32, Varint32More, DecodeVarint64;
    VarintRoundTrip(v, rest);
    if v < 128 {
      assert (EncodeVarint(v) + rest)[1..] == rest;
    } else {
      FirstGroup32(v, rest);
      if v < TWO_TO_THE_32 {
        SmallMore(v / 128, 1, v % 128, rest);
      } else {
        NegativeMore(v / 128, 1, v % 128, rest);
      }
    }
  }

  lemma FirstGroup32(v: nat, rest: seq<byte>)
    requires v >= 128
    ensures DecodeVarint32(EncodeVarint(v) + rest) == Varint32More(EncodeVarint(v / 128) + rest, 7, v % 128)
  {
    hide Varint32More;
    var bs := EncodeVarint(v) + rest;
    assert bs[0] == v % 128 + 128;
    assert bs[1..] == EncodeVarint(v / 128) + rest;
  }

  // ---------- which inputs the 32-bit decoder accepts, and as what ----------

  /** A group of seven sign bits, or of seven zeros. */
  predicate SignGroup(x: nat) { x % 128 == 0 || x % 128 == 127 }

  /** The encodings that are accepted: those of 32-bit numbers, and ten-byte ones with bit 31 set in
      which each group at the bits 35, 42, 49 and 56 is all zeros or all ones. */
  predicate Reads32(v: nat) {
    v < TWO_TO_THE_32
    || (v >= TWO_TO_THE_63 && v / 0x8000_0000 % 2 == 1
        && SignGroup(v / 0x8_0000_0000) && SignGroup(v / 0x400_0000_0000)
        && SignGroup(v / 0x2_0000_0000_0000) && SignGroup(v / 0x100_0000_0000_0000))
  }

  /** The groups x from bit 7 * k on, at or above bit 35. */
  predicate HighOk(x: nat, k: nat, negative: bool)
    requires 5 <= k <= 9
    decreases 9 - k
  {
    if k == 9 then x == 1 && negative
    else x >= 128 && (x % 128 == 0 || (x % 128 == 127 && negative)) && HighOk(x / 128, k + 1, negative)
  }

  lemma {:induction false} HighMore(x: nat, k: nat, result: nat, rest: seq<byte>)
    requires 5 <= k <= 9 && 1 <= x < 2 * Pow128(9 - k) && result < TWO_TO_THE_32
    ensures Varint32More(EncodeVarint(x) + rest, 7 * k, result) ==
      if HighOk(x, k, result >= TWO_TO_THE_31) then Got(result, rest) else Fail
    decreases 9 - k
  {
    hide OrGroup32, Varint32More, EncodeVarint;
    FirstByte(x, rest);
    MoreByte(EncodeVarint(x) + rest, 7 * k, result);
    if k < 9 && x >= 128 { HighMore(x / 128, k + 1, result, rest); }
  }

  lemma HighOkMeans(x: nat, negative: bool)
    requires x < 0x2000_0000
    ensures HighOk(x, 5, negative) <==>
      x >= 0x1000_0000 && negative && SignGroup(x) && SignGroup(x / 128) && SignGroup(x / 128 / 128)
          && SignGroup(x / 128 / 128 / 128)
  {
    assert HighOk(x / 128 / 128 / 128, 8, negative) <==>
      x / 128 / 128 / 128 >= 128 && negative && SignGroup(x / 128 / 128 / 128);
    assert HighOk(x / 128 / 128, 7, negative) <==>
      x / 128 / 128 >= 128 && SignGroup(x / 128 / 128) && HighOk(x / 128 / 128 / 128, 8, negative);
  }

  /** The groups below bit 28 are read. */
  lemma LowGroups(v: nat, rest: seq<byte>)
    requires TWO_TO_THE_32 <= v < TWO_TO_THE_64
    ensures DecodeVarint32(EncodeVarint(v) + rest)
      == Varint32More(EncodeVarint(v / 0x1000_0000) + rest, 28, v % 0x1000_0000)
  {
    hide OrGroup32, Varint32More, EncodeVarint, DecodeVarint32;
    FirstGroup32(v, rest);
    LowArithmetic(v);
    MoreStep(v / 0x80, 1, v % 0x80, rest);
    MoreStep(v / 0x4000, 2, v % 0x4000, rest);
    MoreStep(v / 0x20_0000, 3, v % 0x20_0000, rest);
  }

  lemma LowArithmetic(v: nat)
    ensures v / 0x80 / 128 == v / 0x4000 && v / 0x4000 / 128 == v / 0x20_0000 && v / 0x20_0000 / 128 == v / 0x1000_0000
    ensures v % 0x80 + v / 0x80 % 128 * 0x80 == v % 0x4000
    ensures v % 0x4000 + v / 0x4000 % 128 * 0x4000 == v % 0x20_0000
    ensures v % 0x20_0000 + v / 0x20_0000 % 128 * 0x20_0000 == v % 0x1000_0000
  {
  }

  /** Exactly which uint64 encodings the 32-bit decoder accepts: all others are rejected. */
  lemma Varint32Exactly(v: nat, rest: seq<byte>)
    requires v < TWO_TO_THE_64
    ensures DecodeVarint32(EncodeVarint(v) + rest) == if Reads32(v) then Got(Trunc32(v), rest) else Fail
  {
    hide OrGroup32, Varint32More, EncodeVarint, DecodeVarint32, DecodeVarint64, HighOk, Reads32;
    var low, x := v % 0x1000_0000, v / 0x1000_0000;
    if v < TWO_TO_THE_32 {
      Varint32Agrees(v, rest);
      assert Reads32(v) by { Small32(v); }
    } else if x < 128 {
      LowGroups(v, rest);
      FirstByte(x, rest);
      MoreByte(EncodeVarint(x) + rest, 28, low);
      Reads32Means(v);
    } else {
      LowGroups(v, rest);
      FifthGroup(v, rest);
      HighMore(x / 128, 5, Trunc32(v), rest);
      HighOkMeans(x / 128, Trunc32(v) >= TWO_TO_THE_31);
      Reads32Means(v);
    }
  }

  lemma FifthGroup(v: nat, rest: seq<byte>)
    requires v < TWO_TO_THE_64 && v / 0x1000_0000 >= 128
    ensures Varint32More(EncodeVarint(v / 0x1000_0000) + rest, 28, v % 0x1000_0000)
         == Varint32More(EncodeVarint(v / 0x1000_0000 / 128) + rest, 35, Trunc32(v))
    ensures 1 <= v / 0x1000_0000 / 128 < 0x2000_0000 == 2 * Pow128(4)
  {
    hide OrGroup32, Varint32More, EncodeVarint;
    MoreStep(v / 0x1000_0000, 4, v % 0x1000_0000, rest);
    FifthArithmetic(v);
  }

  lemma FifthArithmetic(v: nat)
    ensures v % 0x1000_0000 + v / 0x1000_0000 % 16 * 0x1000_0000 == Trunc32(v)
  {
  }

  lemma Small32(v: nat)
    requires v < TWO_TO_THE_32
    ensures Reads32(v)
  {
  }

  lemma Reads32Means(v: nat)
    requires TWO_TO_THE_32 <= v < TWO_TO_THE_64
    ensures var x := v / 0x1000_0000 / 128;
      Reads32(v) <==>
        x >= 0x1000_0000 && Trunc32(v) >= TWO_TO_THE_31
        && SignGroup(x) && SignGroup(x / 128) && SignGroup(x / 128 / 128) && SignGroup(x / 128 / 128 / 128)
  {
    assert v / 0x1000_0000 / 128 == v / 0x8_0000_0000;
    assert v / 0x8_0000_0000 / 128 == v / 0x400_0000_0000;
    assert v / 0x400_0000_0000 / 128 == v / 0x2_0000_0000_0000;
    assert v / 0x2_0000_0000_0000 / 128 == v / 0x100_0000_0000_0000;
  }

  lemma OrGroupIs(result: nat, b: byte, k: nat)
    requires 1 <= k <= 4 && result < Pow2(7 * k) && result < TWO_TO_THE_32
    ensures OrGroup32(result, b, 7 * k) == Trunc32(result + b % 128 * Pow2(7 * k))
    ensures k < 4 ==> OrGroup32(result, b, 7 * k) < Pow2(7 * (k + 1))
  {
    hide OrGroup32, Pow2, Trunc32;
    ShiftIs(b % 128, k);
    ShiftIs(1, k);
    OrGroup32Fits(result, b, k);
    SumTruncated(result, b, k);
    if k < 4 { ShiftIs(1, k + 1); }
  }

  /** A group that starts at or above bit 32 is 0 modulo 2^32. */
  lemma HighGroups(result: nat, g: nat, k: nat)
    requires k >= 5 && result < TWO_TO_THE_32
    ensures Trunc32(result + g * Pow2(7 * k)) == result
  {
    hide Pow2;
    Pow2Values();
    Pow2Add(32, 7 * k - 32);
    var q := g * Pow2(7 * k - 32);
    assert g * Pow2(7 * k) == q * TWO_TO_THE_32;
  }

  /** The value of the bytes up to the stop byte n, by its first group. */
  lemma GroupsContinue(bs: seq<byte>, n: nat)
    requires 1 <= n < |bs|
    ensures bs[1..][n..] == bs[n + 1..] && GroupsValue(bs[..n + 1]) == bs[0] % 128 + 128 * GroupsValue(bs[1..][..n])
  {
    hide GroupsValue;
    assert bs[..n + 1] == [bs[0]] + bs[1..][..n];
    GroupsSplit(bs[0], bs[1..][..n]);
  }

  lemma GroupsEnd(bs: seq<byte>)
    requires bs != [] && bs[0] < 128
    ensures GroupsValue(bs[..1]) == bs[0]
  {
    assert bs[..1][1..] == [];
  }

  lemma GroupsSplit(b: byte, s: seq<byte>)
    ensures GroupsValue([b] + s) == b % 128 + 128 * GroupsValue(s)
  {
    assert ([b] + s)[1..] == s;
  }

  lemma StopsAt(bs: seq<byte>)
    requires FirstStop(bs) < |bs|
    ensures if bs[0] < 128 then FirstStop(bs) == 0 else FirstStop(bs) >= 1 && FirstStop(bs[1..]) == FirstStop(bs) - 1
  {
  }

  /** The number x at bit 7 * k. */
  function Shifted(x: nat, k: nat): nat { x * Pow2(7 * k) }

  /** Adding a group and then the groups above it adds them together. */
  lemma AddGroups(result: nat, next: nat, g: nat, h: nat, k: nat)
    requires next == Trunc32(result + Shifted(g, k))
    ensures Trunc32(next + Shifted(h, k + 1)) == Trunc32(result + Shifted(g + 128 * h, k))
  {
    hide Pow2, Trunc32;
    Pow2Values();
    Pow2Add(7, 7 * k);
    Distribute(g, h, Pow2(7 * k));
    assert Shifted(h, k + 1) == h * (128 * Pow2(7 * k));
    AddTruncated(result + Shifted(g, k), Shifted(h, k + 1));
  }

  lemma AddTruncated(a: nat, b: nat)
    ensures Trunc32(Trunc32(a) + b) == Trunc32(a + b)
  {
  }

  lemma Distribute(g: int, h: int, p: int)
    ensures (g + 128 * h) * p == g * p + h * (128 * p)
  {
  }

  lemma NextResult(result: nat, b: byte, k: nat)
    requires 1 <= k && result < TWO_TO_THE_32 && (k <= 4 ==> result < Pow2(7 * k))
    ensures var next := if 7 * k >= 32 then result else OrGroup32(result, b, 7 * k);
      next == Trunc32(result + Shifted(b % 128, k)) && (k < 4 ==> next < Pow2(7 * (k + 1)))
  {
    hide OrGroup32, Pow2, Trunc32;
    if k <= 4 { OrGroupIs(result, b, k); } else { HighGroups(result, b % 128, k); }
  }

  /** Groups k and later, of which bs[j] is group k + j: where the 8-bit bit position has wrapped to below
      bit 32, a group has only bits that v has already. */
  predicate NothingNew(bs: seq<byte>, k: nat, v: nat)
    requires v < TWO_TO_THE_32 && FirstStop(bs) < |bs|
  {
    forall j: nat | j <= FirstStop(bs) && k + j >= 37 && 7 * (k + j) % 256 < 32 ::
      OrGroup32(v, bs[j], 7 * (k + j) % 256) == v
  }

  lemma NothingNewStep(bs: seq<byte>, k: nat, v: nat)
    requires v < TWO_TO_THE_32 && FirstStop(bs) < |bs|
    ensures bs[0] >= 128 ==> FirstStop(bs[1..]) < |bs[1..]|
    ensures NothingNew(bs, k, v) <==>
      && (k >= 37 && 7 * k % 256 < 32 ==> OrGroup32(v, bs[0], 7 * k % 256) == v)
      && (bs[0] >= 128 ==> NothingNew(bs[1..], k + 1, v))
  {
    hide OrGroup32;
    StopsAt(bs);
    if bs[0] >= 128 && NothingNew(bs, k, v) {
      forall j: nat | j <= FirstStop(bs[1..]) && k + 1 + j >= 37 && 7 * (k + 1 + j) % 256 < 32
        ensures OrGroup32(v, bs[1..][j], 7 * (k + 1 + j) % 256) == v
      {
        assert k + 1 + j == k + (j + 1);
      }
    }
    if bs[0] >= 128 && NothingNew(bs[1..], k + 1, v) {
      forall j: nat | 0 < j <= FirstStop(bs) && k + j >= 37 && 7 * (k + j) % 256 < 32
        ensures OrGroup32(v, bs[j], 7 * (k + j) % 256) == v
      {
        assert k + j == k + 1 + (j - 1) && bs[j] == bs[1..][j - 1];
      }
    }
  }

  lemma NextBitpos(k: nat)
    ensures (7 * k % 256 + 7) % 256 == 7 * (k + 1) % 256
  {
    var q, r := 7 * k / 256, 7 * k % 256;
    if r + 7 < 256 {
      ModIs(7 * (k + 1), 256, q, r + 7);
    } else {
      ModIs(7 * (k + 1), 256, q + 1, r + 7 - 256);
    }
  }

  lemma HighBitpos(k: nat)
    requires 5 <= k && 7 * k % 256 < 32
    ensures k >= 37
  {
    if k < 37 { ModIs(7 * k, 256, 0, 7 * k); }
  }

  lemma OrGroupGrows(result: nat, b: byte, bitpos: nat)
    requires result < TWO_TO_THE_32
    ensures OrGroup32(result, b, bitpos) >= result
  {
    hide Pow2, Or;
    OrGrows(result, Trunc32(b % 128 * Pow2(bitpos)));
  }

  /** From bit 35 on a value only grows, and keeps what it is if no group adds a bit to it. */
  lemma {:induction false} HighTail(bs: seq<byte>, k: nat, result: nat)
    requires 5 <= k && result < TWO_TO_THE_32 && Varint32More(bs, 7 * k % 256, result).Got?
    ensures FirstStop(bs) < |bs|
    ensures var r := Varint32More(bs, 7 * k % 256, result);
      && r.rest == bs[FirstStop(bs) + 1..] && r.value >= result
      && (r.value == result <==> NothingNew(bs, k, result))
    decreases |bs|
  {
    hide OrGroup32, Varint32More, SignExtension, FirstStop, NothingNew;
    var bitpos := 7 * k % 256;
    NotEmpty(bs, bitpos, result);
    MoreByte(bs, bitpos, result);
    NextBitpos(k);
    if bitpos < 32 { HighBitpos(k); }
    OrGroupGrows(result, bs[0], bitpos);
    StopsOrNot(bs);
    if bs[0] >= 128 {
      HighTail(bs[1..], k + 1, if bitpos >= 32 then result else OrGroup32(result, bs[0], bitpos));
    }
    NothingNewStep(bs, k, result);
  }

  lemma NotEmpty(bs: seq<byte>, bitpos: nat, result: nat)
    requires bitpos < 256 && result < TWO_TO_THE_32 && Varint32More(bs, bitpos, result).Got?
    ensures bs != []
  {
  }

  lemma StopsOrNot(bs: seq<byte>)
    requires bs != []
    ensures if bs[0] < 128 then FirstStop(bs) == 0 else FirstStop(bs) == FirstStop(bs[1..]) + 1
  {
  }

  lemma {:induction false} MoreValue(bs: seq<byte>, k: nat, result: nat)
    requires 1 <= k <= 5 && result < TWO_TO_THE_32 && (k <= 4 ==> result < Pow2(7 * k))
    requires Varint32More(bs, 7 * k, result).Got?
    ensures FirstStop(bs) < |bs|
    ensures var n, r := FirstStop(bs), Varint32More(bs, 7 * k, result);
      var v := Trunc32(result + Shifted(GroupsValue(bs[..n + 1]), k));
      r.rest == bs[n + 1..] && (r.value == v <==> NothingNew(bs, k, v))
    decreases |bs|
  {
    hide OrGroup32, Varint32More, GroupsValue, FirstStop, Pow2, Trunc32, SignExtension, Shifted, NothingNew;
    if k == 5 {
      HighTail(bs, 5, result);
      AllHigh(result, GroupsValue(bs[..FirstStop(bs) + 1]));
    } else {
      NotEmpty(bs, 7 * k, result);
      MoreByte(bs, 7 * k, result);
      NextResult(result, bs[0], k);
      StopsOrNot(bs);
      if bs[0] < 128 {
        GroupsEnd(bs);
        NothingNewStep(bs, k, Trunc32(result + Shifted(GroupsValue(bs[..1]), k)));
      } else {
        var next := OrGroup32(result, bs[0], 7 * k);
        MoreValue(bs[1..], k + 1, next);
        var h := GroupsValue(bs[1..][..FirstStop(bs)]);
        GroupsContinue(bs, FirstStop(bs));
        AddGroups(result, next, bs[0] % 128, h, k);
        NothingNewStep(bs, k, Trunc32(result + Shifted(bs[0] % 128 + 128 * h, k)));
      }
    }
  }

  lemma AllHigh(result: nat, g: nat)
    requires result < TWO_TO_THE_32
    ensures Trunc32(result + Shifted(g, 5)) == result
  {
    hide Pow2, Trunc32;
    HighGroups(result, g, 5);
  }

  /** Exactly when an accepted input, canonical or not, is read as the number it denotes modulo 2^32: the
      groups from the thirty-eighth on that the wrapped bit position moves below bit 32 add no bit to it. */
  lemma Varint32ReadsValue(bs: seq<byte>)
    requires DecodeVarint32(bs).Got?
    ensures FirstStop(bs) < |bs|
    ensures var n := FirstStop(bs);
      var v := Trunc32(GroupsValue(bs[..n + 1]));
      && DecodeVarint32(bs).rest == bs[n + 1..]
      && (DecodeVarint32(bs).value == v <==> NothingNew(bs, 0, v))
  {
    hide Varint32More, GroupsValue, FirstStop, Trunc32, DecodeVarint32, NothingNew;
    FirstOf32(bs);
    StopsOrNot(bs);
    if bs[0] < 128 { OneByte(bs); } else { MoreBytes(bs); }
  }

  lemma OneByte(bs: seq<byte>)
    requires bs != [] && bs[0] < 128
    ensures GroupsValue(bs[..1]) == bs[0] && FirstStop(bs) == 0 && NothingNew(bs, 0, Trunc32(bs[0]))
  {
    hide GroupsValue, FirstStop, NothingNew;
    GroupsEnd(bs);
    StopsOrNot(bs);
    NothingNewStep(bs, 0, Trunc32(bs[0]));
  }

  lemma MoreBytes(bs: seq<byte>)
    requires bs != [] && bs[0] >= 128 && Varint32More(bs[1..], 7, bs[0] % 128).Got?
    ensures FirstStop(bs) < |bs|
    ensures var n, r := FirstStop(bs), Varint32More(bs[1..], 7, bs[0] % 128);
      var v := Trunc32(GroupsValue(bs[..n + 1]));
      r.rest == bs[n + 1..] && (r.value == v <==> NothingNew(bs, 0, v))
  {
    hide *;
    MoreTail(bs, FirstStop(bs));
    FirstIsNew(bs, Trunc32(GroupsValue(bs[..FirstStop(bs) + 1])));
  }

  lemma FirstIsNew(bs: seq<byte>, v: nat)
    requires v < TWO_TO_THE_32 && bs != [] && bs[0] >= 128 && FirstStop(bs) < |bs| && FirstStop(bs[1..]) < |bs[1..]|
    ensures NothingNew(bs, 0, v) <==> NothingNew(bs[1..], 1, v)
  {
    hide FirstStop, NothingNew;
    NothingNewStep(bs, 0, v);
  }

  lemma MoreTail(bs: seq<byte>, n: nat)
    requires bs != [] && bs[0] >= 128 && Varint32More(bs[1..], 7, bs[0] % 128).Got? && n == FirstStop(bs)
    ensures n < |bs| && FirstStop(bs[1..]) < |bs[1..]|
    ensures var r, v := Varint32More(bs[1..], 7, bs[0] % 128), Trunc32(GroupsValue(bs[..n + 1]));
      r.rest == bs[n + 1..] && (r.value == v <==> NothingNew(bs[1..], 1, v))
  {
    hide *;
    StopsOrNot(bs);
    SecondOn(bs[1..], bs[0] % 128, n);
    GroupsContinue(bs, n);
  }

  lemma SecondOn(bs: seq<byte>, first: nat, n: nat)
    requires first < 128 && Varint32More(bs, 7, first).Got? && n == FirstStop(bs) + 1
    ensures n <= |bs|
    ensures var r, v := Varint32More(bs, 7, first), Trunc32(first + 128 * GroupsValue(bs[..n]));
      r.rest == bs[n..] && (r.value == v <==> NothingNew(bs, 1, v))
  {
    hide Varint32More, GroupsValue, FirstStop, Trunc32, NothingNew, Pow2, Shifted;
    Pow2Values();
    MoreValue(bs, 1, first);
    ShiftedByOne(GroupsValue(bs[..n]));
  }

  /** In particular up to 37 bytes are always read as the number they denote modulo 2^32. */
  lemma Varint32IsTheValue(bs: seq<byte>)
    requires DecodeVarint32(bs).Got? && FirstStop(bs) <= 36 && FirstStop(bs) < |bs|
    ensures var n := FirstStop(bs);
      DecodeVarint32(bs) == Got(Trunc32(GroupsValue(bs[..n + 1])), bs[n + 1..])
  {
    hide DecodeVarint32, FirstStop, GroupsValue, OrGroup32, Trunc32;
    Varint32ReadsValue(bs);
  }

  lemma ShiftedByOne(x: nat)
    ensures Shifted(x, 1) == 128 * x
  {
    hide Pow2;
    Pow2Values();
  }

  lemma FirstOf32(bs: seq<byte>)
    ensures bs == [] ==> DecodeVarint32(bs).Fail?
    ensures bs != [] ==>
      DecodeVarint32(bs)
        == (if bs[0] < 128 then Got(bs[0], bs[1..]) else Varint32More(bs[1..], 7, bs[0] % 128))
  {
  }

  /** So the decoder accepts encodings of numbers that no 32-bit field holds, and drops their high bits:
      2^63 + 2^31 is neither below 2^32 nor a sign-extended int32, and is read as 2^31. */
  lemma Varint32DropsHighBits(rest: seq<byte>)
    ensures DecodeVarint64(EncodeVarint(0x8000_0000_8000_0000) + rest) == Got(0x8000_0000_8000_0000, rest)
    ensures DecodeVarint32(EncodeVarint(0x8000_0000_8000_0000) + rest) == Got(TWO_TO_THE_31, rest)
  {
    hide DecodeVarint32, DecodeVarint64, EncodeVarint;
    VarintRoundTrip(0x8000_0000_8000_0000, rest);
    Varint32Exactly(0x8000_0000_8000_0000, rest);
  }

  // ---------- padding that wraps the bit position ----------

  function Padding(n: nat): seq<byte> { seq(n, _ => 0x80) }

  lemma {:induction false} PaddingSkipped(n: nat, bitpos: nat, tail: seq<byte>)
    requires bitpos < 256
    ensures Varint32More(Padding(n) + tail, bitpos, 0) == Varint32More(tail, (bitpos + 7 * n) % 256, 0)
    decreases n
  {
    hide Varint32More, OrGroup32;
    if n == 0 {
      assert Padding(0) + tail == tail;
    } else {
      PaddingFirst(n, tail);
      MoreByte(Padding(n) + tail, bitpos, 0);
      OrNothing(bitpos);
      PaddingSkipped(n - 1, (bitpos + 7) % 256, tail);
      WrapAgain(bitpos, n);
    }
  }

  lemma OrNothing(bitpos: nat)
    ensures OrGroup32(0, 0x80, bitpos) == 0
  {
    hide Pow2;
  }

  lemma WrapAgain(bitpos: nat, n: nat)
    requires n > 0
    ensures ((bitpos + 7) % 256 + 7 * (n - 1)) % 256 == (bitpos + 7 * n) % 256
  {
    var q, x := (bitpos + 7) / 256, (bitpos + 7) % 256 + 7 * (n - 1);
    assert bitpos + 7 * n == (q + x / 256) * 256 + x % 256;
    ModIs(bitpos + 7 * n, 256, q + x / 256, x % 256);
  }

  lemma {:induction false} PaddedValue(n: nat)
    ensures GroupsValue(Padding(n) + [1]) == Pow2(7 * n)
  {
    var bs := Padding(n) + [1];
    if n == 0 {
      assert bs[1..] == [];
    } else {
      assert bs[1..] == Padding(n - 1) + [1];
      PaddedValue(n - 1);
      Pow2Add(7, 7 * (n - 1));
      Pow2Values();
    }
  }

  /** One byte further the bit position wraps: thirty-seven bytes 0x80 and a 0x01 denote 2^259, which is
      0 modulo 2^32, and are accepted as 8. */
  lemma Varint32Wraps(rest: seq<byte>)
    ensures DecodeVarint32(Padding(37) + ([1] + rest)) == Got(8, rest)
    ensures GroupsValue(Padding(37) + [1]) == Pow2(259) && Trunc32(Pow2(259)) == 0
  {
    hide Varint32More, GroupsValue, OrGroup32, Pow2, Trunc32, Padding;
    PaddedValue(37);
    HighPower(259);
    var tail := [1] + rest;
    PaddingFirst(37, tail);
    PaddingSkipped(36, 7, tail);
    MoreByte(tail, 3, 0);
    assert tail[1..] == rest;
    OneAtBitThree();
  }

  lemma PaddingFirst(n: nat, tail: seq<byte>)
    requires n > 0
    ensures Padding(n) + tail != [] && (Padding(n) + tail)[0] == 0x80
      && (Padding(n) + tail)[1..] == Padding(n - 1) + tail
  {
  }

  lemma HighPower(k: nat)
    requires k >= 32
    ensures Trunc32(Pow2(k)) == 0
  {
    hide Pow2, Trunc32;
    Pow2Values();
    Pow2Add(32, k - 32);
    MultipleTruncated(Pow2(k - 32));
  }

  lemma MultipleTruncated(q: nat)
    ensures Trunc32(TWO_TO_THE_32 * q) == 0
  {
  }

  lemma OneAtBitThree()
    ensures OrGroup32(0, 1, 3) == 8
  {
    assert Pow2(3) == 8;
  }
}
