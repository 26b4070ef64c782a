/** Input streams over byte buffers, and the scalar readers on them. */
module PbStream {
  import opened Bits
  import opened Varint
  import opened PbEncodeSpec
  import opened PbDecodeSpec

  // ---------- input ----------

  /** pb_istream_t with the buf_read callback. Substreams share the buffer. */
  class IStream {
    const buf: array<byte>
    var state: nat
    var bytesLeft: nat

    ghost predicate Valid()
      reads this
    {
      state + bytesLeft <= buf.Length
    }

    /** The bytes still to be read. */
    ghost function Rest(): seq<byte>
      requires Valid()
      reads this, buf
    {
      buf[state..state + bytesLeft]
    }

    /** Where the stream ends in the buffer; reading does not move it. */
    ghost function End(): nat
      reads this
    {
      state + bytesLeft
    }

    /** pb_istream_from_buffer, and the copy that starts a substream. */
    constructor (buf: array<byte>, state: nat, bytesLeft: nat)
      requires state + bytesLeft <= buf.Length
      ensures Valid() && this.buf == buf && this.state == state && this.bytesLeft == bytesLeft
    {
      this.buf := buf;
      this.state := state;
      this.bytesLeft := bytesLeft;
    }

    /** pb_read: all of it or nothing. */
    method Read(count: nat) returns (ok: bool, data: seq<byte>)
      requires Valid()
      modifies this
      ensures Valid() && End() == old(End()) && ok == (count <= |old(Rest())|)
      ensures ok ==>
        data == old(Rest())[..count] && Rest() == old(Rest())[count..]
        && bytesLeft == old(bytesLeft) - count
      ensures !ok ==> Rest() == old(Rest())
    {
      if bytesLeft < count {
        return false, [];
      }
      data := buf[state..state + count];
      state := state + count;
      bytesLeft := bytesLeft - count;
      return true, data;
    }

    method ReadByte() returns (ok: bool, b: byte)
      requires Valid()
      modifies this
      ensures Valid() && End() == old(End()) && ok == (old(Rest()) != [])
      ensures ok ==> b == old(Rest())[0] && Rest() == old(Rest())[1..]
      ensures !ok ==> Rest() == old(Rest())
    {
      if bytesLeft == 0 {
        return false, 0;
      }
      b := buf[state];
      state := state + 1;
      bytesLeft := bytesLeft - 1;
      return true, b;
    }
  }

  /** The outcome of a reading method agrees with its specification. */
  ghost predicate Reads<T>(r: Dec<T>, ok: bool, value: T, rest: seq<byte>) {
    ok == r.Got? && (ok ==> r == Got(value, rest))
  }

  /** pb_decode_varint32eof. eof is reported only when there was no first byte. */
  method ReadVarint32(s: IStream) returns (ok: bool, value: nat, eof: bool)
    requires s.Valid()
    modifies s
    ensures s.Valid() && s.End() == old(s.End()) && Reads(DecodeVarint32(old(s.Rest())), ok, value, s.Rest())
    ensures eof == (old(s.Rest()) == []) && (eof ==> s.Rest() == [])
  {
    hide OrGroup32;
    ghost var spec := DecodeVarint32(s.Rest());
    var b;
    ok, b := s.ReadByte();
    if !ok {
      return false, 0, true;
    }
    if b < 128 {
      return true, b, false;
    }
    var bitpos: nat := 7;
    var result: nat := b % 128;
    while true
      invariant s.Valid() && s.End() == old(s.End()) && bitpos < 256 && result < TWO_TO_THE_32
      invariant spec == Varint32More(s.Rest(), bitpos, result)
      decreases s.bytesLeft
    {
      hide DecodeVarint32;
      ok, b := s.ReadByte();
      if !ok {
        return false, 0, false;
      }
      if bitpos >= 32 {
        var signExtension := if bitpos < 63 then 0xFF else 0x01;
        if b % 128 != 0 && (result < TWO_TO_THE_31 || b != signExtension) {
          return false, 0, false;
        }
      } else {
        result := OrGroup32(result, b, bitpos);
      }
      bitpos := (bitpos + 7) % 256;
      if b < 128 {
        if bitpos == 35 && b / 16 % 8 != 0 {
          return false, 0, false;
        }
        return true, result, false;
      }
    }
  }

  lemma {:induction false} FirstStopIs(bs: seq<byte>, n: nat)
    requires n <= |bs| && (forall k | 0 <= k < n :: bs[k] >= 128)
    ensures FirstStop(bs) >= n
    ensures n == |bs| || bs[n] < 128 ==> FirstStop(bs) == n
  {
    if n > 0 {
      forall k | 0 <= k < n - 1 ensures bs[1..][k] >= 128 {}
      FirstStopIs(bs[1..], n - 1);
    }
  }

  lemma {:induction false} GroupsAppend(p: seq<byte>, b: byte)
    ensures GroupsValue(p) < Pow2(7 * |p|)
    ensures GroupsValue(p + [b]) == GroupsValue(p) + b % 128 * Pow2(7 * |p|)
  {
    if p == [] {
      assert (p + [b])[1..] == [];
    } else {
      hide Pow2;
      GroupsAppend(p[1..], b);
      assert (p + [b])[1..] == p[1..] + [b];
      Pow2Add(7, 7 * |p[1..]|);
      Pow2Values();
      Regroup(b % 128, Pow2(7 * |p[1..]|));
    }
  }

  lemma Regroup(g: nat, w: nat)
    ensures 128 * (g * w) == g * (128 * w)
  {
  }

  /** `|` adds the next group to a 64-bit result, dropping what does not fit. */
  lemma OrGroup64(p: seq<byte>, b: byte)
    requires |p| <= 9
    ensures Or(Trunc64(GroupsValue(p)), Trunc64(b % 128 * Pow2(7 * |p|))) == Trunc64(GroupsValue(p + [b]))
  {
    hide *;
    GroupsAppend(p, b);
    if |p| < 9 {
      OrLowGroup(GroupsValue(p), b % 128, 7 * |p|);
    } else {
      Pow2Values();
      OrTopGroup(GroupsValue(p), b % 128);
    }
  }

  lemma OrLowGroup(v: nat, g: nat, k: nat)
    requires k <= 56 && v < Pow2(k) && g < 128
    ensures Or(Trunc64(v), Trunc64(g * Pow2(k))) == Trunc64(v + g * Pow2(k))
  {
    hide Or, Pow2, Trunc64;
    Pow2Add(7, k);
    Pow2Monotone(k + 7, 63);
    Pow2Values();
    TimesAtMost(g, 127, Pow2(k));
    OrDisjoint(v, g, k);
  }

  lemma TimesAtMost(g: nat, h: nat, w: nat)
    requires g <= h
    ensures g * w <= h * w
  {
  }

  lemma OrTopGroup(v: nat, g: nat)
    requires v < TWO_TO_THE_63 && g < 128
    ensures Or(Trunc64(v), Trunc64(g * TWO_TO_THE_63)) == Trunc64(v + g * TWO_TO_THE_63)
  {
    hide Or;
    Pow2Values();
    TopGroup(g);
    OrDisjoint(v, g % 2, 63);
  }

  lemma TopGroup(g: nat)
    ensures Trunc64(g * 0x8000_0000_0000_0000) == g % 2 * 0x8000_0000_0000_0000
  {
  }

  /** pb_decode_varint */
  method ReadVarint64(s: IStream) returns (ok: bool, value: nat)
    requires s.Valid()
    modifies s
    ensures s.Valid() && s.End() == old(s.End()) && Reads(DecodeVarint64(old(s.Rest())), ok, value, s.Rest())
  {
    assert GroupsValue([]) == 0;
    hide Or, GroupsValue, FirstStop;
    ghost var bs := s.Rest();
    var bitpos := 0;
    var result := 0;
    ghost var k := 0;
    assert bs[..0] == [];
    while true
      invariant s.Valid() && s.End() == old(s.End()) && k <= 10 && k <= |bs| && bitpos == 7 * k
      invariant forall j | 0 <= j < k :: bs[j] >= 128
      invariant s.Rest() == bs[k..] && result == Trunc64(GroupsValue(bs[..k]))
      decreases s.bytesLeft
    {
      FirstStopIs(bs, k);
      if bitpos >= 64 {
        return false, 0;
      }
      var b;
      ok, b := s.ReadByte();
      if !ok {
        return false, 0;
      }
      OrGroup64(bs[..k], b);
      assert bs[..k] + [b] == bs[..k + 1];
      result := Or(result, Trunc64(b % 128 * Pow2(bitpos)));
      bitpos := bitpos + 7;
      k := k + 1;
      if b < 128 {
        return true, result;
      }
    }
  }

  /** pb_skip_varint */
  method SkipVarintBytes(s: IStream) returns (ok: bool)
    requires s.Valid()
    modifies s
    ensures s.Valid() && s.End() == old(s.End()) && Reads(SkipVarint(old(s.Rest())), ok, (), s.Rest())
  {
    hide FirstStop;
    ghost var bs := s.Rest();
    ghost var k := 0;
    while true
      invariant s.Valid() && s.End() == old(s.End()) && k <= |bs| && s.Rest() == bs[k..]
      invariant forall j | 0 <= j < k :: bs[j] >= 128
      decreases s.bytesLeft
    {
      FirstStopIs(bs, k);
      var b;
      ok, b := s.ReadByte();
      if !ok {
        return false;
      }
      k := k + 1;
      if b < 128 {
        return true;
      }
    }
  }

  /** pb_decode_fixed32 and pb_decode_fixed64. */
  method ReadFixed(s: IStream, n: nat) returns (ok: bool, value: nat)
    requires s.Valid()
    modifies s
    ensures s.Valid() && s.End() == old(s.End()) && Reads(DecodeFixed(old(s.Rest()), n), ok, value, s.Rest())
  {
    var data;
    ok, data := s.Read(n);
    value := 0;
    if ok {
      var i := n;
      assert data[n..] == [];
      while i > 0
        invariant 0 <= i <= n && value == FromLittleEndian(data[i..])
      {
        i := i - 1;
        assert data[i..][1..] == data[i + 1..];
        value := data[i] + 256 * value;
      }
      assert data[0..] == data;
    }
  }

  /** pb_make_string_substream. The substream gets the prefixed bytes; the stream keeps the rest but
      is not moved behind them yet. */
  method MakeSubstream(s: IStream) returns (ok: bool, sub: IStream)
    requires s.Valid()
    modifies s
    ensures s.Valid() && fresh(sub) && sub.Valid() && sub.buf == s.buf
    ensures ok == SplitPrefixed(old(s.Rest())).Got? && (!ok ==> s.End() == old(s.End()))
    ensures ok ==> sub.Rest() == SplitPrefixed(old(s.Rest())).value
    ensures ok ==> sub.End() + s.bytesLeft == old(s.End()) && s.End() <= old(s.End())
    ensures ok ==> s.buf[sub.End()..old(s.End())] == SplitPrefixed(old(s.Rest())).rest
  {
    hide DecodeVarint32;
    var size, eof;
    ok, size, eof := ReadVarint32(s);
    if !ok || s.bytesLeft < size {
      sub := new IStream(s.buf, s.state, 0);
      return false, sub;
    }
    sub := new IStream(s.buf, s.state, size);
    s.bytesLeft := s.bytesLeft - size;
  }

  /** pb_close_string_substream: skips what the substream left and moves the stream behind it. */
  method CloseSubstream(s: IStream, sub: IStream)
    requires s != sub && s.Valid() && sub.Valid() && sub.buf == s.buf
    requires sub.End() + s.bytesLeft <= s.buf.Length
    modifies s, sub
    ensures s.Valid() && s.bytesLeft == old(s.bytesLeft) && s.state == old(sub.End())
  {
    if sub.bytesLeft > 0 {
      var _, _ := sub.Read(sub.bytesLeft);
    }
    s.state := sub.state;
  }
}
