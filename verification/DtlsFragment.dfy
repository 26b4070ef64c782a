/** Handshake fragments of DTLS: their header, and the reassembly of one incoming message. */
module DtlsFragment {
  import opened Bits
  import opened TlsWire

  // ---------- the fragment header (section 4.2.2 of RFC 6347) ----------

  const HM_HEADER_LENGTH: nat := 12

  datatype Header = Header(typ: nat, msgLen: nat, seqNo: nat, fragOff: nat, fragLen: nat) {
    /** The numbers fit their fields of 1, 3, 2, 3 and 3 bytes. */
    predicate Fits() {
      typ < 0x100 && msgLen < 0x100_0000 && seqNo < 0x1_0000 && fragOff < 0x100_0000 && fragLen < 0x100_0000
    }
  }

  function HeaderBytes(h: Header): (r: seq<byte>)
    ensures |r| == HM_HEADER_LENGTH
  {
    BigEndian(h.typ, 1) + BigEndian(h.msgLen, 3) + BigEndian(h.seqNo, 2) + BigEndian(h.fragOff, 3)
        + BigEndian(h.fragLen, 3)
  }

  datatype Parsed = ParseError | Parsed(hdr: Header, body: seq<byte>, rest: seq<byte>)

  /** dtls1_parse_fragment */
  function ParseFragment(bs: seq<byte>): (r: Parsed)
    ensures r.Parsed? ==> |r.rest| < |bs| && |r.body| == r.hdr.fragLen
  {
    if |bs| < HM_HEADER_LENGTH then ParseError
    else
      var h := Header(FromBigEndian(bs[..1]), FromBigEndian(bs[1..4]), FromBigEndian(bs[4..6]),
                      FromBigEndian(bs[6..9]), FromBigEndian(bs[9..12]));
      if |bs| - HM_HEADER_LENGTH < h.fragLen then ParseError
      else Parsed(h, bs[12..12 + h.fragLen], bs[12 + h.fragLen..])
  }

  lemma FieldsRoundTrip(h: Header)
    requires h.Fits()
    ensures FromBigEndian(BigEndian(h.typ, 1)) == h.typ && FromBigEndian(BigEndian(h.msgLen, 3)) == h.msgLen
    ensures FromBigEndian(BigEndian(h.seqNo, 2)) == h.seqNo && FromBigEndian(BigEndian(h.fragOff, 3)) == h.fragOff
    ensures FromBigEndian(BigEndian(h.fragLen, 3)) == h.fragLen
  {
    hide BigEndian, FromBigEndian;
    Pow2Values();
    Pow2Add(8, 8);
    Pow2Add(16, 8);
    BigEndianRoundTrip(h.typ, 1);
    BigEndianRoundTrip(h.msgLen, 3);
    BigEndianRoundTrip(h.seqNo, 2);
    BigEndianRoundTrip(h.fragOff, 3);
    BigEndianRoundTrip(h.fragLen, 3);
  }

  /** A fragment is read back, leaving what follows it. */
  lemma FragmentRoundTrip(h: Header, body: seq<byte>, rest: seq<byte>)
    requires h.Fits() && |body| == h.fragLen
    ensures ParseFragment(HeaderBytes(h) + body + rest) == Parsed(h, body, rest)
  {
    hide BigEndian, FromBigEndian;
    FieldsRoundTrip(h);
    var bs := HeaderBytes(h) + body + rest;
    assert bs[..1] == BigEndian(h.typ, 1);
    assert bs[1..4] == BigEndian(h.msgLen, 3);
    assert bs[4..6] == BigEndian(h.seqNo, 2);
    assert bs[6..9] == BigEndian(h.fragOff, 3);
    assert bs[9..12] == BigEndian(h.fragLen, 3);
    assert bs[12..12 + |body|] == body && bs[12 + |body|..] == rest;
  }

  /** A record starts with a fragment exactly when it starts with the fragment's header and body. */
  lemma FragmentParsesExactly(bs: seq<byte>, h: Header, body: seq<byte>, rest: seq<byte>)
    ensures ParseFragment(bs) == Parsed(h, body, rest) <==>
      h.Fits() && |body| == h.fragLen && bs == HeaderBytes(h) + body + rest
  {
    hide BigEndian, FromBigEndian;
    if h.Fits() && |body| == h.fragLen && bs == HeaderBytes(h) + body + rest { FragmentRoundTrip(h, body, rest); }
    if ParseFragment(bs) == Parsed(h, body, rest) {
      hide Pow2;
      Pow2Values();
      Pow2Add(8, 8);
      Pow2Add(8, 16);
      BigEndianOf(bs[..1]);
      BigEndianOf(bs[1..4]);
      BigEndianOf(bs[4..6]);
      BigEndianOf(bs[6..9]);
      BigEndianOf(bs[9..12]);
      assert bs == bs[..1] + bs[1..4] + bs[4..6] + bs[6..9] + bs[9..12] + bs[12..12 + h.fragLen] + rest;
    }
  }

  /** Type, length, sequence number, fragment offset and fragment length, each with its most significant byte
      first. */
  lemma HeaderLayout(h: Header)
    requires h.Fits()
    ensures HeaderBytes(h) ==
      [h.typ, h.msgLen / 0x1_0000, h.msgLen / 0x100 % 0x100, h.msgLen % 0x100, h.seqNo / 0x100, h.seqNo % 0x100,
       h.fragOff / 0x1_0000, h.fragOff / 0x100 % 0x100, h.fragOff % 0x100,
       h.fragLen / 0x1_0000, h.fragLen / 0x100 % 0x100, h.fragLen % 0x100]
  {
    hide BigEndian;
    ShortNumbers(h.typ);
    ShortNumbers(h.msgLen);
    ShortNumbers(h.seqNo);
    ShortNumbers(h.fragOff);
    ShortNumbers(h.fragLen);
  }

  // ---------- the reassembly bitmask ----------

  /** Bit k of a byte. */
  predicate Bit(w: bv8, k: nat)
    requires k < 8
  {
    (w >> k) & 1 == 1
  }

  /** A byte with the bits from start, inclusive, to end, exclusive, set. */
  function BitRange(start: nat, end: nat): bv8
    requires start <= 8 && end <= 8
  {
    (!(((1 as bv32) << start) - 1) & (((1 as bv32) << end) - 1) & 0xff) as bv8
  }

  lemma BitRangeBits(start: nat, end: nat, k: nat)
    requires start <= end <= 8 && k < 8
    ensures Bit(BitRange(start, end), k) <==> start <= k < end
  {
  }

  lemma OrBitsOfByte(a: bv8, b: bv8, k: nat)
    requires k < 8
    ensures Bit(a | b, k) <==> Bit(a, k) || Bit(b, k)
  {
  }

  lemma SameByte(a: bv8, b: bv8)
    requires forall k: nat | k < 8 :: Bit(a, k) <==> Bit(b, k)
    ensures a == b
  {
    assert Bit(a, 0) == Bit(b, 0) && Bit(a, 1) == Bit(b, 1) && Bit(a, 2) == Bit(b, 2) && Bit(a, 3) == Bit(b, 3);
    assert Bit(a, 4) == Bit(b, 4) && Bit(a, 5) == Bit(b, 5) && Bit(a, 6) == Bit(b, 6) && Bit(a, 7) == Bit(b, 7);
  }

  /** Is byte position p of the message marked in the mask? */
  predicate Marked(mask: seq<bv8>, p: nat) {
    p / 8 < |mask| && Bit(mask[p / 8], p % 8)
  }

  /** A mask for a message of n bytes: no bit at or past n. */
  ghost predicate MaskFor(mask: seq<bv8>, n: nat) {
    |mask| == (n + 7) / 8 && forall p: nat | n <= p < 8 * |mask| :: !Marked(mask, p)
  }

  /** The marked positions. */
  ghost function Positions(mask: seq<bv8>, n: nat): set<nat> {
    set p: nat | p < n && Marked(mask, p)
  }

  predicate Within(a: nat, p: nat, b: nat) { a <= p < b }

  function Range(a: nat, b: nat): set<nat> { set p: nat | p < b && Within(a, p, b) }

  /** `now` is `before` with the positions from a to b marked. */
  ghost predicate Added(before: seq<bv8>, now: seq<bv8>, a: nat, b: nat) {
    |now| == |before| && forall p: nat :: Marked(now, p) <==> Marked(before, p) || a <= p < b
  }

  lemma AddedThen(x: seq<bv8>, y: seq<bv8>, z: seq<bv8>, a: nat, b: nat, c: nat)
    requires a <= b <= c && Added(x, y, a, b) && Added(y, z, b, c)
    ensures Added(x, z, a, c)
  {
    hide Marked;
  }

  lemma OrByte(mask: seq<bv8>, i: nat, s: nat, e: nat)
    requires i < |mask| && s <= e <= 8
    ensures Added(mask, mask[i := mask[i] | BitRange(s, e)], 8 * i + s, 8 * i + e)
  {
    hide Bit, BitRange;
    var now := mask[i := mask[i] | BitRange(s, e)];
    forall p: nat ensures Marked(now, p) <==> Marked(mask, p) || 8 * i + s <= p < 8 * i + e {
      OrBitsOfByte(mask[i], BitRange(s, e), p % 8);
      BitRangeBits(s, e, p % 8);
    }
  }

  lemma FullByte(mask: seq<bv8>, i: nat)
    requires i < |mask|
    ensures Added(mask, mask[i := 0xff], 8 * i, 8 * i + 8)
  {
    hide Bit;
    forall p: nat ensures Marked(mask[i := 0xff], p) <==> Marked(mask, p) || 8 * i <= p < 8 * i + 8 {
      AllOnes(p % 8);
    }
  }

  /** frag->reassembly[i] |= bit_range(s, e) */
  method OrInto(mask: array<bv8>, i: nat, s: nat, e: nat)
    requires i < mask.Length && s <= e <= 8
    modifies mask
    ensures Added(old(mask[..]), mask[..], 8 * i + s, 8 * i + e)
  {
    hide Added, BitRange;
    ghost var before := mask[..];
    mask[i] := mask[i] | BitRange(s, e);
    OrByte(before, i, s, e);
    assert mask[..] == before[i := before[i] | BitRange(s, e)];
  }

  lemma AllOnes(k: nat)
    requires k < 8
    ensures Bit(0xff, k)
  {
  }

  /** dtls1_hm_fragment_mark on the bitmask: marks a range, and tells whether every position of the
      message has now been marked. */
  method MarkRange(mask: array<bv8>, msgLen: nat, start: nat, end: nat) returns (complete: bool)
    requires MaskFor(mask[..], msgLen) && start < end <= msgLen
    modifies mask
    ensures MaskFor(mask[..], msgLen)
    ensures Positions(mask[..], msgLen) == old(Positions(mask[..], msgLen)) + Range(start, end)
    ensures complete <==> Positions(mask[..], msgLen) == Range(0, msgLen)
  {
    ghost var before := mask[..];
    SetRange(mask, msgLen, start, end);
    AddedPositions(before, mask[..], msgLen, start, end);
    complete := IsComplete(mask, msgLen);
  }

  lemma AddedPositions(before: seq<bv8>, now: seq<bv8>, n: nat, a: nat, b: nat)
    requires MaskFor(before, n) && Added(before, now, a, b) && b <= n
    ensures MaskFor(now, n) && Positions(now, n) == Positions(before, n) + Range(a, b)
  {
    hide Marked;
  }

  method SetRange(mask: array<bv8>, msgLen: nat, start: nat, end: nat)
    requires mask.Length == (msgLen + 7) / 8 && start < end <= msgLen
    modifies mask
    ensures Added(old(mask[..]), mask[..], start, end)
  {
    hide Added;
    ghost var before := mask[..];
    if start / 8 == end / 8 {
      OrInto(mask, start / 8, start % 8, end % 8);
    } else {
      OrInto(mask, start / 8, start % 8, 8);
      var i := start / 8 + 1;
      while i < end / 8
        invariant start / 8 < i <= end / 8
        invariant Added(before, mask[..], start, 8 * i)
      {
        ghost var now := mask[..];
        mask[i] := 0xff;
        assert mask[..] == now[i := 0xff];
        FullByte(now, i);
        AddedThen(before, now, mask[..], start, 8 * i, 8 * i + 8);
        i := i + 1;
      }
      if end % 8 != 0 {
        ghost var now := mask[..];
        OrInto(mask, end / 8, 0, end % 8);
        AddedThen(before, now, mask[..], start, 8 * i, end);
      }
    }
  }

  method IsComplete(mask: array<bv8>, msgLen: nat) returns (complete: bool)
    requires MaskFor(mask[..], msgLen) && msgLen > 0
    ensures complete <==> Positions(mask[..], msgLen) == Range(0, msgLen)
  {
    hide Bit, BitRange, Marked;
    var i := 0;
    while i < msgLen / 8
      invariant 0 <= i <= msgLen / 8
      invariant forall p: nat | p < 8 * i :: Marked(mask[..], p)
    {
      FullByteIff(mask[..], i);
      if mask[i] != 0xff {
        ghost var p: nat :| 8 * i <= p < 8 * i + 8 && !Marked(mask[..], p);
        assert p in Range(0, msgLen);
        return false;
      }
      i := i + 1;
    }
    if msgLen % 8 != 0 {
      LastByteIff(mask[..], msgLen);
      if mask[msgLen / 8] != BitRange(0, msgLen % 8) {
        ghost var p: nat :| 8 * (msgLen / 8) <= p < msgLen && !Marked(mask[..], p);
        assert p in Range(0, msgLen);
        return false;
      }
    }
    return true;
  }

  lemma FullByteIff(mask: seq<bv8>, i: nat)
    requires i < |mask|
    ensures mask[i] == 0xff <==> forall p: nat | 8 * i <= p < 8 * i + 8 :: Marked(mask, p)
  {
    hide Bit;
    forall k: nat | k < 8 ensures Bit(0xff, k) { AllOnes(k); }
    if forall p: nat | 8 * i <= p < 8 * i + 8 :: Marked(mask, p) {
      forall k: nat | k < 8 ensures Bit(mask[i], k) { assert Marked(mask, 8 * i + k); }
      SameByte(mask[i], 0xff);
    }
  }

  lemma LastByteIff(mask: seq<bv8>, n: nat)
    requires MaskFor(mask, n) && n % 8 != 0
    ensures mask[n / 8] == BitRange(0, n % 8) <==> forall p: nat | 8 * (n / 8) <= p < n :: Marked(mask, p)
  {
    hide Bit, BitRange;
    var i, b := n / 8, BitRange(0, n % 8);
    forall k: nat | k < 8 ensures Bit(b, k) <==> k < n % 8 { BitRangeBits(0, n % 8, k); }
    if forall p: nat | 8 * i <= p < n :: Marked(mask, p) {
      forall k: nat | k < 8 ensures Bit(mask[i], k) <==> Bit(b, k) {
        assert Marked(mask, 8 * i + k) <==> Bit(mask[i], k);
      }
      SameByte(mask[i], b);
    }
  }
}
