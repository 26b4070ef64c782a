/** The decoder's methods. Each is proved to compute its specification in PbDecodeSpec. */
module PbDecoder {
  import opened Bits
  import opened Wrappers
  import opened Varint
  import opened PbTypes
  import opened PbEncodeSpec
  import opened PbDecodeSpec
  import opened PbStream
  import opened PbRoundTrip
  import opened PbRecords

  /** The struct a message is decoded into. */
  class MessageStruct {
    var cells: seq<Cell>

    constructor (cells: seq<Cell>)
      ensures this.cells == cells
    {
      this.cells := cells;
    }
  }

  // ---------- values ----------

  /** Assignment to a struct member of the given size, read back; None for an invalid size. */
  function CastSigned(size: nat, n: int): Option<int> {
    match size
    case 1 => Some((n + 0x80) % 0x100 - 0x80)
    case 2 => Some((n + 0x8000) % 0x1_0000 - 0x8000)
    case 4 => Some((n + 0x8000_0000) % 0x1_0000_0000 - 0x8000_0000)
    case 8 => Some((n + 0x8000_0000_0000_0000) % 0x1_0000_0000_0000_0000 - 0x8000_0000_0000_0000)
    case _ => None
  }

  function CastUnsigned(size: nat, n: nat): Option<nat> {
    match size
    case 1 => Some(n % 0x100)
    case 2 => Some(n % 0x1_0000)
    case 4 => Some(n % 0x1_0000_0000)
    case 8 => Some(n % 0x1_0000_0000_0000_0000)
    case _ => None
  }

  /** The clamped value equals the decoded one exactly when the member can hold it. */
  lemma CastKeeps(size: nat, n: int)
    ensures CastSigned(size, n) == Some(n) <==> FitsSigned(size, n)
    ensures n >= 0 ==> (CastUnsigned(size, n) == Some(n) <==> FitsUnsigned(size, n))
  {
  }

  /** pb_dec_varint, pb_dec_uvarint, pb_dec_svarint, pb_dec_fixed32, pb_dec_fixed64 */
  method ReadScalar(s: IStream, f: Field) returns (ok: bool, v: Value)
    requires s.Valid() && f.ltype.Packable()
    modifies s
    ensures s.Valid() && s.End() == old(s.End()) && Reads(DecScalar(f, old(s.Rest())), ok, v, s.Rest())
  {
    hide DecodeVarint64, DecodeFixed, CastSigned, CastUnsigned, FitsSigned, FitsUnsigned, Trunc32, ToInt64, ToInt32,
      ZigzagDecode;
    var u, n := 0, 0;
    if f.ltype == VarintT {
      ok, u := ReadVarint64(s);
      if ok {
        n := if f.dataSize == 8 then ToInt64(u) else ToInt32(Trunc32(u));
        CastKeeps(f.dataSize, n);
        ok := CastSigned(f.dataSize, n) == Some(n);
      }
    } else if f.ltype == UVarintT {
      ok, n := ReadVarint64(s);
      CastKeeps(f.dataSize, n);
      ok := ok && CastUnsigned(f.dataSize, n) == Some(n);
    } else if f.ltype == SVarintT {
      ok, u := ReadVarint64(s);
      if ok {
        n := ZigzagDecode(u);
        CastKeeps(f.dataSize, n);
        ok := CastSigned(f.dataSize, n) == Some(n);
      }
    } else if f.ltype == Fixed32T {
      ok, n := ReadFixed(s, 4);
    } else {
      ok, n := ReadFixed(s, 8);
    }
    v := VInt(n);
  }

  /** pb_dec_bytes, pb_dec_string and pb_dec_fixed_length_bytes */
  method ReadBytes(s: IStream, f: Field, ghost prior: Value) returns (ok: bool, v: Value)
    requires s.Valid() && (f.ltype == BytesT || f.ltype == StringT || f.ltype == FixedLengthBytesT)
    modifies s
    ensures s.Valid() && s.End() == old(s.End()) && Reads(DecValue(f, prior, old(s.Rest())), ok, v, s.Rest())
  {
    hide DecodeVarint32, StrnLen, DecMessage;
    var size, eof, data;
    v := VNone;
    ok, size, eof := ReadVarint32(s);
    if !ok {
      return;
    }
    if f.ltype == FixedLengthBytesT && size == 0 {
      v := VBytes(Zeros(f.dataSize));
      return;
    }
    var fits :=
      if f.ltype == BytesT then size + PB_BYTES_HEADER <= f.dataSize
      else if f.ltype == StringT then size + 1 <= f.dataSize
      else size == f.dataSize;
    if !fits {
      return false, v;
    }
    ok, data := s.Read(size);
    if ok {
      v := VBytes(if f.ltype == StringT then data[..StrnLen(data, size)] else data);
    }
  }

  // ---------- defaults ----------

  /** pb_message_set_to_defaults: whatever the struct held before. */
  method SetToDefaults(d: Desc, dest: MessageStruct)
    requires WfDesc(d) && |dest.cells| == Slots(d.fields)
    modifies dest
    ensures dest.cells == DefaultCells(d)
    decreases d
  {
    hide DefaultCells, DefaultCell, WfDesc, WfField, Slot, Slots, Defaulted, FieldIter.Valid, FieldIter.Current;
    DefaultedNothing(d, dest.cells);
    var more := d.fields != [];
    var it := new FieldIter(d.fields);
    ghost var i := 0;
    while more
      invariant it.Valid() && fresh(it) && it.start == d.fields && Defaulted(d, i, dest.cells)
      invariant i <= |d.fields| && more == (i < |d.fields|) && (more ==> it.pos == i)
      decreases |d.fields| - i
    {
      DescField(d, i);
      CurrentIs(it);
      var c := InitialCell(it.Current());
      DefaultedMore(d, i, dest.cells);
      dest.cells := dest.cells[Slot(d.fields, it.pos) := c];
      more := it.Next();
      i := i + 1;
    }
    DefaultedAll(d, dest.cells);
  }

  /** The members of the first i fields hold their defaults. */
  ghost predicate Defaulted(d: Desc, i: nat, m: seq<Cell>) {
    && i <= |d.fields| && |m| == Slots(d.fields) && |DefaultPrefix(d, i)| <= |m|
    && m[..|DefaultPrefix(d, i)|] == DefaultPrefix(d, i)
  }

  lemma DefaultedNothing(d: Desc, m: seq<Cell>)
    requires |m| == Slots(d.fields)
    ensures Defaulted(d, 0, m)
  {
  }

  lemma DefaultedMore(d: Desc, i: nat, m: seq<Cell>)
    requires i < |d.fields| && Defaulted(d, i, m)
    ensures Slot(d.fields, i) < |m| && Defaulted(d, i + 1, m[Slot(d.fields, i) := DefaultCell(d.fields[i])])
  {
    hide DefaultOf;
    SlotInRange(d.fields, i);
    if i > 0 && InUnion(d.fields[i - 1], d.fields[i]) { DefaultPrefixAt(d, i, i - 1); }
  }

  lemma DefaultedAll(d: Desc, m: seq<Cell>)
    requires Defaulted(d, |d.fields|, m)
    ensures m == DefaultCells(d)
  {
    assert m[..|m|] == m;
  }

  lemma CurrentIs(it: FieldIter)
    requires it.Valid() && it.start != []
    ensures it.pos < |it.start| && it.Current() == it.start[it.pos]
  {
  }

  /** pb_field_set_to_default */
  method InitialCell(f: Field) returns (c: Cell)
    requires WfField(f)
    ensures c == DefaultCell(f)
    decreases f, 1
  {
    hide WfField, DefaultOf;
    if f.htype == Repeated {
      c := Many([]);
    } else if f.htype == Oneof {
      c := Union(0, VNone);
    } else {
      var v := InitialValue(f);
      c := if f.htype == Optional && f.sizeOffset != 0 then Has(false, v) else Plain(v);
    }
  }

  /** The part of pb_field_set_to_default that initialises the data. */
  method InitialValue(f: Field) returns (v: Value)
    requires WfField(f)
    ensures v == DefaultOf(f)
    decreases f, 0
  {
    if f.ltype == SubmessageT {
      var sub := new MessageStruct(seq(Slots(f.ptr.desc.fields), _ => Plain(VNone)));
      SetToDefaults(f.ptr.desc, sub);
      v := VMsg(sub.cells);
    } else if f.ptr.DefaultValue? {
      v := f.ptr.v;
    } else if f.ltype == BytesT || f.ltype == StringT {
      v := VBytes([]);
    } else if f.ltype == FixedLengthBytesT {
      v := VBytes(Zeros(f.dataSize));
    } else {
      v := VInt(0);
    }
  }

  // ---------- the required-field bits ----------

  const ALL_BITS: nat := 0xFFFF_FFFF

  /** fields_seen, two words of 32 bits, holds the set `seen`. */
  ghost predicate Holds(words: seq<nat>, seen: set<nat>) {
    && |words| == 2
    && (forall w | 0 <= w < 2 :: words[w] < TWO_TO_THE_32)
    && (forall k: nat | k < 64 :: BitAt(words[k / 32], k % 32) <==> k in seen)
    && (forall k | k in seen :: k < 64)
  }

  lemma HoldsNothing()
    ensures Holds([0, 0], {})
  {
    forall k: nat | k < 64 ensures !BitAt([0, 0][k / 32], k % 32) {
      ZeroHasNoBits(k % 32);
    }
  }

  lemma SetBit(words: seq<nat>, seen: set<nat>, r: nat)
    requires Holds(words, seen) && r < 64
    ensures Holds(words[r / 32 := Or(words[r / 32], Pow2(r % 32))], seen + {r})
  {
    hide Or, Pow2, BitAt;
    var w := Or(words[r / 32], Pow2(r % 32));
    Pow2Values();
    assert Pow2(r % 32) < Pow2(32) by { Pow2Monotone(r % 32, 31); }
    OrBound(32, words[r / 32], Pow2(r % 32));
    forall k: nat | k < 64 ensures BitAt(words[r / 32 := w][k / 32], k % 32) <==> k in seen + {r} {
      OrBits(words[r / 32], Pow2(r % 32), k % 32);
      Pow2Bits(r % 32, k % 32);
    }
  }

  lemma OnesQuotient(p: nat, q: nat)
    requires q > 0 && p > 0 && p * q == TWO_TO_THE_32
    ensures ALL_BITS / q == p - 1
  {
    assert ALL_BITS == (p - 1) * q + (q - 1);
    ModIs(ALL_BITS, q, p - 1, q - 1);
  }

  /** allbits >> (32 - n) has the low n bits. */
  lemma ShiftedOnes(n: nat)
    requires n <= 32
    ensures ALL_BITS / Pow2(32 - n) == Pow2(n) - 1 < TWO_TO_THE_32
  {
    hide Pow2;
    Pow2Values();
    Pow2Add(n, 32 - n);
    OnesQuotient(Pow2(n), Pow2(32 - n));
    if n < 32 { Pow2Monotone(n, 31); }
  }

  /** A word with no bits from n on equals the mask of n bits exactly when its first n bits are set. */
  lemma LowBits(w: nat, n: nat, mask: nat)
    requires w < TWO_TO_THE_32 && n <= 32 && mask == Pow2(n) - 1 < TWO_TO_THE_32
    requires forall k: nat | n <= k < 32 :: !BitAt(w, k)
    ensures w == mask <==> forall k: nat | k < n :: BitAt(w, k)
  {
    hide BitAt;
    Pow2Values();
    forall k: nat | k < 32 ensures BitAt(mask, k) <==> k < n { MaskBits(n, k); }
    if forall k: nat | k < n :: BitAt(w, k) {
      SameBits(32, w, mask);
    }
  }

  /** The check at the end of pb_decode_noinit: whole words first, then the remaining bits. */
  method CheckRequired(it: FieldIter, fieldsSeen: array<nat>, ghost d: Desc, ghost seen: set<nat>) returns (ok: bool)
    requires it.Valid() && it.start == d.fields && WfDesc(d)
    requires Holds(fieldsSeen[..], seen)
    requires forall k | k in seen :: k < Requireds(d.fields, |d.fields|)
    modifies it
    ensures ok == RequiredSeen(d, seen)
  {
    var count, last := 0, Optional;
    var more := true;
    while more
      invariant it.Valid()
      invariant !more ==> it.pos == 0
      invariant !more && d.fields != [] ==>
        count == Requireds(d.fields, |d.fields| - 1) && last == d.fields[|d.fields| - 1].htype
      invariant !more && d.fields == [] ==> count == 0
      decreases more, |d.fields| - it.pos
    {
      count := it.requiredFieldIndex;
      last := it.Current().htype;
      more := it.Next();
    }
    FirstTag(it, d);
    if last == Required && it.Current().tag != 0 {
      count := count + 1;
    }
    assert count == Requireds(d.fields, |d.fields|);
    if count > PB_MAX_REQUIRED_FIELDS {
      count := PB_MAX_REQUIRED_FIELDS;
    }
    var i := 0;
    while i < count / 32
      invariant 0 <= i <= count / 32
      invariant forall k: nat | k < 32 * i :: k in seen
    {
      WordIs(fieldsSeen[..], seen, i, 32);
      if fieldsSeen[i] != ALL_BITS {
        return false;
      }
      i := i + 1;
    }
    if count % 32 != 0 {
      WordIs(fieldsSeen[..], seen, count / 32, count % 32);
      if fieldsSeen[count / 32] != ALL_BITS / Pow2(32 - count % 32) {
        return false;
      }
    }
    return true;
  }

  /** Only the terminator has tag 0. */
  lemma FirstTag(it: FieldIter, d: Desc)
    requires it.Valid() && it.start == d.fields && WfDesc(d)
    ensures it.Current().tag != 0 <==> d.fields != []
  {
    if d.fields != [] { DescField(d, it.pos); }
  }

  /** A word is the mask of its first n bits exactly when the n indices are seen, if no later index
      of the word is. */
  lemma WordIs(words: seq<nat>, seen: set<nat>, i: nat, n: nat)
    requires Holds(words, seen) && i < 2 && 0 < n <= 32
    requires forall k: nat | 32 * i + n <= k < 32 * i + 32 :: k !in seen
    ensures words[i] == ALL_BITS / Pow2(32 - n) <==> forall k: nat | 32 * i <= k < 32 * i + n :: k in seen
    ensures n == 32 ==> ALL_BITS / Pow2(32 - n) == ALL_BITS
  {
    hide BitAt, Pow2;
    ShiftedOnes(n);
    Pow2Values();
    forall k: nat | k < 32 ensures BitAt(words[i], k) <==> 32 * i + k in seen {
      assert (32 * i + k) / 32 == i && (32 * i + k) % 32 == k;
    }
    LowBits(words[i], n, Pow2(n) - 1);
    if forall k: nat | k < n :: BitAt(words[i], k) {
      forall k: nat | 32 * i <= k < 32 * i + n ensures k in seen {
        assert BitAt(words[i], k - 32 * i);
      }
    }
    if forall k: nat | 32 * i <= k < 32 * i + n :: k in seen {
      forall k: nat | k < n ensures BitAt(words[i], k) {
        assert 32 * i + k in seen;
      }
    }
  }

  // ---------- records ----------

  /** pb_decode_tag */
  method ReadTag(s: IStream) returns (ok: bool, tag: nat, wireType: nat, eof: bool)
    requires s.Valid()
    modifies s
    ensures s.Valid() && s.End() == old(s.End())
    ensures match DecTag(old(s.Rest()))
      case TagBad => !ok && !eof
      case TagEnd(rest) => !ok && eof && s.Rest() == rest
      case TagOk(t, w, rest) => ok && tag == t && wireType == w && s.Rest() == rest
  {
    hide DecodeVarint32;
    var t;
    tag, wireType := 0, 0;
    ok, t, eof := ReadVarint32(s);
    if !ok {
      assert eof ==> DecodeVarint32([]).Fail?;
      return;
    }
    if t == 0 {
      return false, 0, 0, true;
    }
    return true, t / 8, t % 8, false;
  }

  /** pb_skip_field */
  method Skip(s: IStream, wireType: nat) returns (ok: bool)
    requires s.Valid()
    modifies s
    ensures s.Valid() && s.End() == old(s.End()) && Reads(SkipField(wireType, old(s.Rest())), ok, (), s.Rest())
  {
    hide DecodeVarint32, SkipVarint;
    var data, size, eof;
    match wireType {
      case 0 => ok := SkipVarintBytes(s);
      case 1 => ok, data := s.Read(8);
      case 2 =>
        ok, size, eof := ReadVarint32(s);
        if ok { ok, data := s.Read(size); }
      case 5 => ok, data := s.Read(4);
      case _ => ok := false;
    }
  }

  /** The decoder functions, called through PB_DECODERS. */
  method ReadValue(s: IStream, f: Field, prior: Value) returns (ok: bool, v: Value)
    requires s.Valid() && WfField(f)
    modifies s
    ensures s.Valid() && s.End() <= old(s.End()) && (ok ==> s.End() == old(s.End()))
    ensures Reads(DecValue(f, prior, old(s.Rest())), ok, v, s.Rest())
    decreases f, 0
  {
    if f.ltype.Packable() {
      ok, v := ReadScalar(s, f);
    } else if f.ltype == SubmessageT {
      ok, v := ReadSubmessage(s, f, prior);
    } else {
      ok, v := ReadBytes(s, f, prior);
    }
  }

  /** pb_dec_submessage */
  method ReadSubmessage(s: IStream, f: Field, prior: Value) returns (ok: bool, v: Value)
    requires s.Valid() && WfField(f) && f.ltype == SubmessageT
    modifies s
    ensures s.Valid() && s.End() <= old(s.End()) && (ok ==> s.End() == old(s.End()))
    ensures Reads(DecValue(f, prior, old(s.Rest())), ok, v, s.Rest())
    decreases f, -1
  {
    SubmessageSpec(f, prior, s.Rest());
    hide SplitPrefixed, DecMessage, DecValue, SubmessageBase, WfField, WfDesc, Slots;
    ghost var split := SplitPrefixed(s.Rest());
    var sub, dest;
    v := VNone;
    ok, sub := MakeSubstream(s);
    if !ok {
      return;
    }
    ok, dest := SubmessageTarget(f, prior);
    if !ok {
      return;
    }
    assert s.buf[sub.End()..sub.End() + s.bytesLeft] == split.rest;
    ok := DecodeSubstream(s, sub, f.ptr.desc, dest);
    v := VMsg(dest.cells);
  }

  /** pb_decode_noinit on a substream, which is then closed. */
  method DecodeSubstream(s: IStream, sub: IStream, d: Desc, dest: MessageStruct) returns (ok: bool)
    requires s != sub && s.Valid() && sub.Valid() && sub.buf == s.buf && sub.End() + s.bytesLeft <= s.buf.Length
    requires WfDesc(d) && |dest.cells| == Slots(d.fields)
    modifies s, sub, dest
    ensures s.Valid() && s.End() <= old(sub.End() + s.bytesLeft)
    ensures var r := DecMessage(d, old(dest.cells), old(sub.Rest()));
      && ok == r.Got? && (ok ==> dest.cells == r.value && s.End() == old(sub.End() + s.bytesLeft))
      && (ok ==> s.Rest() == s.buf[old(sub.End())..old(sub.End() + s.bytesLeft)])
    decreases d, 4
  {
    hide DecMessage, WfDesc, Slots;
    ok := DecodeNoinit(sub, d, dest);
    CloseSubstream(s, sub);
  }

  lemma SubmessageSpec(f: Field, prior: Value, bs: seq<byte>)
    requires WfField(f) && f.ltype == SubmessageT
    ensures WfDesc(f.ptr.desc)
    ensures var split, base := SplitPrefixed(bs), SubmessageBase(f, prior);
      DecValue(f, prior, bs) ==
        if split.Fail? || base.None? then Fail
        else match DecMessage(f.ptr.desc, base.value, split.value)
          case Fail => Fail
          case Got(m, _) => Got(VMsg(m), split.rest)
  {
    hide SplitPrefixed, DecMessage, SubmessageBase;
  }

  /** What a submessage is decoded into: a new array entry starts from the defaults, other
      submessages were set to theirs together with the message around them. */
  method SubmessageTarget(f: Field, prior: Value) returns (ok: bool, dest: MessageStruct)
    requires WfField(f) && f.ltype == SubmessageT
    ensures fresh(dest) && ok == SubmessageBase(f, prior).Some?
    ensures ok ==> dest.cells == SubmessageBase(f, prior).value
  {
    hide DefaultCells, WfDesc;
    var d := f.ptr.desc;
    dest := new MessageStruct(seq(Slots(d.fields), _ => Plain(VNone)));
    if f.htype == Repeated {
      SetToDefaults(d, dest);
    } else if prior.VMsg? && |prior.cells| == Slots(d.fields) {
      dest.cells := prior.cells;
    } else {
      return false, dest;
    }
    ok := true;
  }

  /** decode_static_field, for the member under the iterator. */
  method DecodeField(s: IStream, f: Field, dest: MessageStruct, slot: nat, wireType: nat) returns (ok: bool)
    requires s.Valid() && WfField(f) && slot < |dest.cells|
    modifies s, dest
    ensures s.Valid() && s.End() <= old(s.End()) && (ok ==> s.End() == old(s.End()))
    ensures |dest.cells| == |old(dest.cells)|
    ensures var r := DecField(f, old(dest.cells)[slot], wireType, old(s.Rest()));
      ok == r.Got? && (ok ==> dest.cells == old(dest.cells)[slot := r.value] && s.Rest() == r.rest)
    decreases f, 1
  {
    hide DecValue, SplitPrefixed, DecPacked, DefaultOf, WfField;
    var v;
    match f.htype {
      case Required =>
        if !dest.cells[slot].Plain? { return false; }
        ok, v := ReadValue(s, f, dest.cells[slot].v);
        dest.cells := dest.cells[slot := Plain(v)];
      case Optional =>
        if f.sizeOffset != 0 {
          if !dest.cells[slot].Has? { return false; }
          dest.cells := dest.cells[slot := Has(true, dest.cells[slot].v)];
        } else if !dest.cells[slot].Plain? {
          return false;
        }
        ok, v := ReadValue(s, f, dest.cells[slot].v);
        dest.cells := dest.cells[slot := if f.sizeOffset != 0 then Has(true, v) else Plain(v)];
      case Repeated =>
        if !dest.cells[slot].Many? { return false; }
        if wireType == WT_STRING && f.ltype.Packable() {
          ok := DecodePacked(s, f, dest, slot);
        } else {
          if |dest.cells[slot].items| >= f.arraySize { return false; }
          ok, v := ReadValue(s, f, VNone);
          dest.cells := dest.cells[slot := Many(dest.cells[slot].items + [v])];
        }
      case Oneof =>
        if !dest.cells[slot].Union? { return false; }
        var prior := VNone;
        if f.ltype == SubmessageT { prior := InitialValue(f); }
        dest.cells := dest.cells[slot := Union(f.tag, prior)];
        ok, v := ReadValue(s, f, prior);
        dest.cells := dest.cells[slot := Union(f.tag, v)];
    }
  }

  /** The packed branch of decode_static_field: entries are appended in place. */
  method DecodePacked(s: IStream, f: Field, dest: MessageStruct, slot: nat) returns (ok: bool)
    requires s.Valid() && f.ltype.Packable() && slot < |dest.cells| && dest.cells[slot].Many?
    modifies s, dest
    ensures s.Valid() && s.End() <= old(s.End()) && (ok ==> s.End() == old(s.End()))
    ensures |dest.cells| == |old(dest.cells)|
    ensures var r := SplitPrefixed(old(s.Rest()));
      var items := if r.Got? then DecPacked(f, old(dest.cells)[slot].items, r.value) else None;
      && ok == items.Some?
      && (ok ==> dest.cells == old(dest.cells)[slot := Many(items.value)] && s.Rest() == r.rest)
  {
    hide SplitPrefixed, DecScalar;
    var sub, v;
    ghost var split := SplitPrefixed(s.Rest());
    ok, sub := MakeSubstream(s);
    if !ok {
      return;
    }
    ghost var items := dest.cells[slot].items;
    ghost var end := sub.End();
    var status := true;
    while status && sub.bytesLeft > 0 && |dest.cells[slot].items| < f.arraySize
      invariant sub.Valid() && sub.End() == end && sub.buf == s.buf && fresh(sub) && sub != s
      invariant s.Valid() && s.bytesLeft + end == old(s.End()) && s.End() <= old(s.End())
      invariant |dest.cells| == |old(dest.cells)| && dest.cells[slot].Many?
      invariant dest.cells == old(dest.cells)[slot := dest.cells[slot]]
      invariant DecPacked(f, items, split.value) ==
        if status then DecPacked(f, dest.cells[slot].items, sub.Rest()) else None
      decreases status, sub.bytesLeft
    {
      ok, v := ReadScalar(sub, f);
      if ok {
        dest.cells := dest.cells[slot := Many(dest.cells[slot].items + [v])];
      } else {
        status := false;
      }
    }
    if sub.bytesLeft != 0 {
      return false;
    }
    CloseSubstream(s, sub);
    ok := status;
  }

  // ---------- messages ----------

  /** The body of the field loop after the tag: find the field from wherever the last search ended,
      then skip the payload, or note the field as seen and decode it. */
  method DecodeRecord(s: IStream, d: Desc, dest: MessageStruct, it: FieldIter, fieldsSeen: array<nat>,
                      tag: nat, wireType: nat, ghost seen: set<nat>) returns (ok: bool, ghost i: nat)
    requires s.Valid() && WfDesc(d) && it.Valid() && it.start == d.fields && |dest.cells| == Slots(d.fields)
    requires fieldsSeen.Length == 2 && Holds(fieldsSeen[..], seen)
    modifies s, dest, it, fieldsSeen
    ensures s.Valid() && s.End() <= old(s.End()) && (ok ==> s.End() == old(s.End()))
    ensures it.Valid() && |dest.cells| == Slots(d.fields)
    ensures Reads(DecRecord(d, old(dest.cells), tag, wireType, old(s.Rest())), ok, (dest.cells, i), s.Rest())
    ensures ok ==> Holds(fieldsSeen[..], if i < |d.fields| then MarkSeen(d, i, seen) else seen)
    decreases d, 1
  {
    hide DecField, SkipField, Holds, WfDesc, FindTag, WfField, UnionTagOk, MarkSeen;
    i := FindTag(d.fields, tag);
    var found := it.Find(tag);
    FoundIs(d, it, found, tag);
    if !found {
      ok := Skip(s, wireType);
      return;
    }
    if it.pos == |d.fields| {
      // The terminator of an empty message type: its invalid data_size fails every decode.
      return false, i;
    }
    var f := it.Current();
    var slot := Slot(d.fields, it.pos);
    DescField(d, it.pos);
    SlotInRange(d.fields, it.pos);
    MarkField(it, d, fieldsSeen, seen);
    ok := ReleaseUnionField(d, it, f, dest.cells[slot]);
    if !ok {
      return;
    }
    ok := DecodeField(s, f, dest, slot, wireType);
  }

  /** Notes a required field as seen. */
  method MarkField(it: FieldIter, ghost d: Desc, fieldsSeen: array<nat>, ghost seen: set<nat>)
    requires it.Valid() && it.start == d.fields && it.pos < |d.fields|
    requires fieldsSeen.Length == 2 && Holds(fieldsSeen[..], seen)
    modifies fieldsSeen
    ensures Holds(fieldsSeen[..], MarkSeen(d, it.pos, seen))
  {
    hide Holds;
    var r := it.requiredFieldIndex;
    if it.Current().htype == Required && r < PB_MAX_REQUIRED_FIELDS {
      SetBit(fieldsSeen[..], seen, r);
      fieldsSeen[r / 32] := Or(fieldsSeen[r / 32], Pow2(r % 32));
    }
  }

  /** pb_release_union_field: another tag in the union must name a field, which is then released; for a
      static field there is nothing to release. */
  method ReleaseUnionField(d: Desc, it: FieldIter, f: Field, c: Cell) returns (ok: bool)
    requires WfDesc(d) && it.Valid() && it.start == d.fields && it.pos < |d.fields| && f == it.Current()
    modifies it
    ensures it.Valid() && ok == UnionTagOk(d, f, c) && (ok ==> it.pos == old(it.pos))
  {
    hide WfDesc, FindTag, WfField;
    if f.htype != Oneof || !c.Union? || c.which == 0 || c.which == f.tag {
      return true;
    }
    FindTagUnique(d.fields, it.pos) by { DescField(d, it.pos); DescTags(d, it.pos); }
    ok := it.Find(c.which);
    FoundIs(d, it, ok, c.which);
    if ok {
      ok := it.Find(f.tag);
      FoundIs(d, it, ok, f.tag);
    }
  }

  lemma DescTags(d: Desc, i: nat)
    requires WfDesc(d) && i < |d.fields|
    ensures DistinctTags(d.fields) && d.fields[i].ltype != ExtensionT
  {
    assert WfField(d.fields[i]);
  }

  /** With distinct tags it does not matter where a search starts. */
  lemma FoundIs(d: Desc, it: FieldIter, found: bool, tag: nat)
    requires WfDesc(d) && it.Valid() && it.start == d.fields
    requires found ==> Matches(it.Current(), tag)
    requires found <==> (exists k :: 0 <= k < |d.fields| && Matches(d.fields[k], tag)) || (d.fields == [] && tag == 0)
    ensures found ==> it.pos == FindTag(d.fields, tag)
    ensures !found ==> FindTag(d.fields, tag) == |d.fields| && !(d.fields == [] && tag == 0)
    ensures found && it.pos == |d.fields| ==> d.fields == [] && tag == 0
    ensures found && it.pos < |d.fields| ==> it.Current() == d.fields[it.pos]
  {
    hide WfField;
    if found && d.fields != [] { FindTagUnique(d.fields, it.pos); }
  }

  /** The field loop of pb_decode_noinit. */
  method DecodeRecords(s: IStream, d: Desc, dest: MessageStruct, it: FieldIter, fieldsSeen: array<nat>)
    returns (ok: bool, ghost seen: set<nat>)
    requires s.Valid() && WfDesc(d) && |dest.cells| == Slots(d.fields) && it.Valid() && it.start == d.fields
    requires fieldsSeen.Length == 2 && Holds(fieldsSeen[..], {})
    modifies s, dest, it, fieldsSeen
    ensures s.Valid() && s.End() <= old(s.End()) && (ok ==> s.End() == old(s.End()))
    ensures it.Valid() && |dest.cells| == Slots(d.fields)
    ensures var r := DecLoop(d, old(dest.cells), {}, old(s.Rest()));
      ok == r.Done? && (ok ==> r.m == dest.cells && r.seen == seen && r.rest == s.Rest())
    ensures ok ==> Holds(fieldsSeen[..], seen) && forall k | k in seen :: k < Requireds(d.fields, |d.fields|)
    decreases d, 2
  {
    hide DecRecord, DecTag, WfDesc, MarkSeen, Holds, Requireds, Slots;
    ghost var i := 0;
    seen := {};
    ghost var spec := DecLoop(d, dest.cells, {}, s.Rest());
    while s.bytesLeft > 0
      invariant s.Valid() && s.End() == old(s.End()) && |dest.cells| == Slots(d.fields) && it.Valid()
      invariant Holds(fieldsSeen[..], seen) && forall k | k in seen :: k < Requireds(d.fields, |d.fields|)
      invariant spec == DecLoop(d, dest.cells, seen, s.Rest())
      decreases s.bytesLeft
    {
      var tag, wireType, eof;
      ok, tag, wireType, eof := ReadTag(s);
      if !ok {
        return eof, seen;
      }
      ok, i := DecodeRecord(s, d, dest, it, fieldsSeen, tag, wireType, seen);
      if !ok {
        return;
      }
      if i < |d.fields| {
        MarkInRange(d, i, seen);
        seen := MarkSeen(d, i, seen);
      }
    }
    ok := true;
  }

  /** pb_decode_noinit: a message without a record for one of the first 64 required fields is rejected. */
  method DecodeNoinit(s: IStream, d: Desc, dest: MessageStruct) returns (ok: bool)
    requires s.Valid() && WfDesc(d) && |dest.cells| == Slots(d.fields)
    modifies s, dest
    ensures s.Valid() && s.End() <= old(s.End()) && (ok ==> s.End() == old(s.End()))
    ensures Reads(DecMessage(d, old(dest.cells), old(s.Rest())), ok, dest.cells, s.Rest())
    ensures ok <==>
      DecLoop(d, old(dest.cells), {}, old(s.Rest())).Done? && HasRequired(d, TagsRead(d, old(s.Rest())))
    decreases d, 3
  {
    AcceptedExactly(d, dest.cells, s.Rest());
    hide HasRequired, TagsRead, DecLoop, WfDesc, RequiredSeen, Holds, Requireds, Slots;
    var fieldsSeen := new nat[2](_ => 0);
    assert fieldsSeen[..] == [0, 0];
    HoldsNothing();
    var it := new FieldIter(d.fields);
    ghost var seen;
    ok, seen := DecodeRecords(s, d, dest, it, fieldsSeen);
    if ok {
      ok := CheckRequired(it, fieldsSeen, d, seen);
    }
  }

  lemma MarkInRange(d: Desc, i: nat, seen: set<nat>)
    requires i < |d.fields| && forall k | k in seen :: k < Requireds(d.fields, |d.fields|)
    ensures forall k | k in MarkSeen(d, i, seen) :: k < Requireds(d.fields, |d.fields|)
  {
    if d.fields[i].htype == Required { RequiredsMonotone(d.fields, i + 1, |d.fields|); }
  }

  /** pb_decode */
  method Decode(s: IStream, d: Desc, dest: MessageStruct) returns (ok: bool)
    requires s.Valid() && WfDesc(d) && |dest.cells| == Slots(d.fields)
    modifies s, dest
    ensures s.Valid() && s.End() <= old(s.End()) && (ok ==> s.End() == old(s.End()))
    ensures Reads(DecodeFresh(d, old(s.Rest())), ok, dest.cells, s.Rest())
  {
    hide DecMessage, DefaultCells;
    SetToDefaults(d, dest);
    ok := DecodeNoinit(s, d, dest);
  }

  /** pb_decode_delimited: on success the stream is at the first byte after the message. */
  method DecodeDelimited(s: IStream, d: Desc, dest: MessageStruct) returns (ok: bool)
    requires s.Valid() && WfDesc(d) && |dest.cells| == Slots(d.fields)
    modifies s, dest
    ensures s.Valid() && Reads(DecDelimited(d, DefaultCells(d), old(s.Rest())), ok, dest.cells, s.Rest())
  {
    hide DecMessage, DefaultCells, SplitPrefixed;
    var sub;
    ok, sub := MakeSubstream(s);
    if !ok {
      return;
    }
    ok := Decode(sub, d, dest);
    CloseSubstream(s, sub);
  }
}
