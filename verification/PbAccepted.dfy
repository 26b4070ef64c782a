/** What the decoder accepts - structs that stay within their descriptor, which encode and decode to themselves -
    and what the encoder accepts. */
module PbAccepted {
  import opened Bits
  import opened Wrappers
  import opened Varint
  import opened PbTypes
  import opened PbEncodeSpec
  import opened PbDecodeSpec
  import opened PbRoundTrip

  // ---------- sound descriptors ----------

  /** Members are large enough for a value of their type, and default values fit them. */
  ghost predicate SoundDesc(d: Desc)
    decreases d
  {
    forall i | 0 <= i < |d.fields| :: SoundField(d.fields[i])
  }

  ghost predicate SoundField(f: Field)
    decreases f
  {
    && (f.ptr.SubFields? ==> SoundDesc(f.ptr.desc))
    && (f.ptr.DefaultValue? ==> WfValue(f, f.ptr.v))
    && match f.ltype
       case VarintT | UVarintT | SVarintT => f.dataSize in {1, 2, 4, 8}
       case BytesT => f.dataSize >= PB_BYTES_HEADER
       case StringT => f.dataSize >= 1
       case _ => true
  }

  lemma SoundAt(d: Desc, i: nat)
    requires SoundDesc(d) && WfDesc(d) && i < |d.fields|
    ensures SoundField(d.fields[i]) && WfField(d.fields[i])
  {
    hide SoundField, WfField;
  }

  lemma {:induction false} DefaultIsWf(f: Field)
    requires WfField(f) && SoundField(f)
    ensures WfValue(f, DefaultOf(f))
    decreases f, 0
  {
    if f.ptr.SubFields? { DefaultsAreWf(f.ptr.desc); }
  }

  /** The struct a message is decoded into is well formed. */
  lemma {:induction false} DefaultsAreWf(d: Desc)
    requires WfDesc(d) && SoundDesc(d)
    ensures WfCells(d, DefaultCells(d))
    decreases d, 0
  {
    hide WfField, SoundField, WfCell, DefaultCell;
    var m := DefaultCells(d);
    forall i | 0 <= i < |d.fields|
      ensures Slot(d.fields, i) < |m| && WfCell(d.fields[i], m[Slot(d.fields, i)]) && WfUnion(d, m, i)
    {
      DefaultsAt(d, i);
      SoundAt(d, i);
      DefaultCellIsWf(d.fields[i]);
    }
  }

  lemma DefaultCellIsWf(f: Field)
    requires WfField(f) && SoundField(f)
    ensures WfCell(f, DefaultCell(f)) && (f.htype == Oneof ==> DefaultCell(f) == Union(0, VNone))
    decreases f, 1
  {
    hide SoundField, WfValue, DefaultOf;
    NotExtension(f);
    DefaultIsWf(f);
  }

  /** What a decoder starts from: a declared default value, otherwise what the encoder takes for zero - for a
      submessage the defaults of its fields; flags are off, arrays and unions are empty. */
  lemma DefaultsSay(f: Field)
    requires WfField(f)
    ensures f.ptr.DefaultValue? ==> DefaultOf(f) == f.ptr.v
    ensures f.ptr.NullPtr? && f.ltype != FixedLengthBytesT ==> IsZero(f, DefaultOf(f))
    ensures f.ltype == FixedLengthBytesT && f.ptr.NullPtr? ==>
      DefaultOf(f).VBytes? && |DefaultOf(f).b| == f.dataSize && forall k | 0 <= k < f.dataSize :: DefaultOf(f).b[k] == 0
    ensures f.ptr.SubFields? ==> DefaultOf(f) == VMsg(DefaultCells(f.ptr.desc))
    ensures f.htype == Required || (f.htype == Optional && f.sizeOffset == 0) <==> DefaultCell(f) == Plain(DefaultOf(f))
    ensures f.htype != Required && (f.htype != Optional || f.sizeOffset != 0) ==> IsDefault(f, DefaultCell(f))
    ensures f.htype == Optional && f.sizeOffset != 0 ==> DefaultCell(f) == Has(false, DefaultOf(f))
  {
    hide WfDesc, DefaultCells;
  }

  lemma DefaultsAt(d: Desc, i: nat)
    requires i < |d.fields|
    ensures Slot(d.fields, i) < |DefaultCells(d)| && DefaultCells(d)[Slot(d.fields, i)] == DefaultCell(d.fields[i])
  {
    DefaultPrefixAt(d, |d.fields|, i);
  }

  // ---------- decoded values ----------

  lemma ScalarIsWf(f: Field, bs: seq<byte>)
    requires DecScalar(f, bs).Got?
    ensures WfValue(f, DecScalar(f, bs).value)
  {
    hide DecodeVarint64, FromLittleEndian, ZigzagDecode, ToInt32, ToInt64, Trunc32, FitsSigned;
    Pow2Values();
    if f.ltype == Fixed32T { FixedBound(bs, 4); } else if f.ltype == Fixed64T { FixedBound(bs, 8); }
  }

  /** A signed number is accepted exactly when the member holds a number that equals it modulo 2^32, or modulo
      2^64 for a member of eight bytes, and is read as that number; an unsigned or zigzag number when the member
      holds it itself. */
  lemma IntegerAccepted(f: Field, bs: seq<byte>, n: int)
    requires (f.ltype == VarintT || f.ltype == UVarintT || f.ltype == SVarintT) && DecodeVarint64(bs).Got?
    ensures var Got(u, rest) := DecodeVarint64(bs);
      var bits := if f.dataSize == 8 then TWO_TO_THE_64 else TWO_TO_THE_32;
      DecScalar(f, bs) == Got(VInt(n), rest) <==>
        if f.ltype == UVarintT then FitsUnsigned(f.dataSize, n) && n == u
        else if f.ltype == SVarintT then FitsSigned(f.dataSize, n) && n == ZigzagDecode(u)
        else FitsSigned(f.dataSize, n) && (n - u) % bits == 0
    ensures DecScalar(f, bs).Got? ==> DecScalar(f, bs).value.VInt? && DecScalar(f, bs).rest == DecodeVarint64(bs).rest
  {
    hide DecodeVarint64, ZigzagDecode;
    var u := DecodeVarint64(bs).value;
    if f.ltype == VarintT && FitsSigned(f.dataSize, n) {
      if f.dataSize == 8 { SameNumber(n, ToInt64(u), u, TWO_TO_THE_64); }
      else { SameNumber(n, ToInt32(Trunc32(u)), u, TWO_TO_THE_32); }
    }
  }

  lemma SameNumber(n: int, m: int, u: int, p: int)
    requires p > 0 && -p <= 2 * n < p && -p <= 2 * m < p && (m - u) % p == 0
    ensures (n - u) % p == 0 <==> n == m
  {
    var q := (m - u) / p;
    assert m - u == q * p;
    if (n - u) % p == 0 {
      var k := (n - u) / p;
      assert n - u == k * p;
      Apart(n - m, k - q, p);
    }
  }

  lemma Apart(x: int, k: int, p: int)
    requires p > 0 && x == k * p && -p < x < p
    ensures x == 0
  {
    assert (k >= 1 ==> k * p >= p) && (k <= -1 ==> k * p <= -p);
  }

  lemma FixedBound(bs: seq<byte>, n: nat)
    requires DecodeFixed(bs, n).Got?
    ensures DecodeFixed(bs, n).value < Pow2(8 * n)
  {
    LittleEndianBound(bs[..n]);
  }

  lemma {:induction false} LittleEndianBound(s: seq<byte>)
    ensures FromLittleEndian(s) < Pow2(8 * |s|)
  {
    if s != [] {
      LittleEndianBound(s[1..]);
      Pow2Add(8, 8 * |s[1..]|);
      assert Pow2(8) == 256;
    }
  }

  /** A submessage prior must be well formed itself. */
  ghost predicate PriorOk(f: Field, prior: Value) {
    f.ltype == SubmessageT && f.htype != Repeated && prior.VMsg? && f.ptr.SubFields? ==>
      WfCells(f.ptr.desc, prior.cells)
  }

  lemma {:induction false} ValueIsWf(f: Field, prior: Value, bs: seq<byte>)
    requires WfField(f) && SoundField(f) && PriorOk(f, prior) && DecValue(f, prior, bs).Got?
    ensures WfValue(f, DecValue(f, prior, bs).value)
    decreases f, 0
  {
    if f.ltype.Packable() {
      ScalarIsWf(f, bs);
    } else if f.ltype == SubmessageT {
      hide WfCells, WfDesc, SoundDesc, DecMessage, SplitPrefixed, DefaultCells;
      var base := SubmessageBase(f, prior).value;
      if f.htype == Repeated { DefaultsAreWf(f.ptr.desc); }
      MessageIsWf(f.ptr.desc, base, SplitPrefixed(bs).value);
    } else {
      hide SplitPrefixed;
      StringIsWf(SplitPrefixed(bs).value);
    }
  }

  /** Bytes are accepted exactly when they fit behind their count, a string when it leaves room for its NUL - it
      ends at the first NUL in it - and a fixed-length array when it has its length, or no bytes for all zeros. */
  lemma BytesAccepted(f: Field, prior: Value, s: seq<byte>, rest: seq<byte>)
    requires f.ltype == BytesT || f.ltype == StringT || f.ltype == FixedLengthBytesT
    requires |s| < TWO_TO_THE_32
    ensures var r := DecValue(f, prior, LengthPrefixed(s) + rest);
      && (f.ltype == BytesT ==> r == if |s| + 4 <= f.dataSize then Got(VBytes(s), rest) else Fail)
      && (f.ltype == StringT ==> (r.Got? <==> |s| < f.dataSize))
      && (f.ltype == FixedLengthBytesT ==> (r.Got? <==> s == [] || |s| == f.dataSize))
      && (r.Got? ==> r.rest == rest && r.value.VBytes?)
      && (r.Got? && f.ltype == StringT ==>
          r.value.b <= s && 0 !in r.value.b && (|r.value.b| < |s| ==> s[|r.value.b|] == 0))
      && (r.Got? && f.ltype == FixedLengthBytesT ==>
          |r.value.b| == f.dataSize && forall k | 0 <= k < f.dataSize :: r.value.b[k] == if s == [] then 0 else s[k])
  {
    hide SplitPrefixed, LengthPrefixed, StrnLen;
    SplitPrefixedRoundTrip(s, rest);
  }

  lemma StringIsWf(s: seq<byte>)
    ensures 0 !in s[..StrnLen(s, |s|)]
  {
  }

  lemma {:induction false} PackedIsWf(f: Field, items: seq<Value>, bs: seq<byte>)
    requires forall k | 0 <= k < |items| :: WfValue(f, items[k])
    requires |items| <= f.arraySize && DecPacked(f, items, bs).Some?
    ensures var r := DecPacked(f, items, bs).value;
      |r| <= f.arraySize && forall k | 0 <= k < |r| :: WfValue(f, r[k])
    decreases |bs|
  {
    hide DecScalar, WfValue;
    if bs != [] {
      ScalarIsWf(f, bs);
      PackedIsWf(f, items + [DecScalar(f, bs).value], DecScalar(f, bs).rest);
    }
  }

  /** The cell a record leaves is within the bounds of its field, and present. */
  lemma FieldIsWf(f: Field, c: Cell, wt: nat, bs: seq<byte>)
    requires WfField(f) && SoundField(f) && WfCell(f, c) && DecField(f, c, wt, bs).Got?
    ensures WfCell(f, DecField(f, c, wt, bs).value)
    ensures f.htype == Oneof ==> DecField(f, c, wt, bs).value.Union? && DecField(f, c, wt, bs).value.which == f.tag
    decreases f, 1
  {
    hide WfField, SoundField, DecValue, DecPacked, SplitPrefixed, DefaultOf, DecScalar;
    if f.htype == Repeated && wt == WT_STRING && f.ltype.Packable() {
      PackedIsWf(f, c.items, SplitPrefixed(bs).value);
    } else {
      var prior := match f.htype
        case Required | Optional => c.v
        case Repeated => VNone
        case Oneof => if f.ltype.SubmessageT? then DefaultOf(f) else VNone;
      DefaultIsWf(f);
      assert PriorOk(f, prior);
      ValueIsWf(f, prior, bs);
    }
  }

  // ---------- accepted messages ----------

  lemma UpdateIsWf(d: Desc, m: seq<Cell>, i: nat, c: Cell)
    requires WfDesc(d) && WfCells(d, m) && i < |d.fields| && Slot(d.fields, i) < |m| && WfCell(d.fields[i], c)
    requires d.fields[i].htype == Oneof ==> c.Union? && c.which == d.fields[i].tag
    ensures WfCells(d, m[Slot(d.fields, i) := c])
  {
    hide WfField, WfValue, DefaultOf;
    var s, m' := Slot(d.fields, i), m[Slot(d.fields, i) := c];
    forall k | 0 <= k < |d.fields|
      ensures Slot(d.fields, k) < |m'| && WfCell(d.fields[k], m'[Slot(d.fields, k)]) && WfUnion(d, m', k)
    {
      assert WfCell(d.fields[k], m[Slot(d.fields, k)]) && WfUnion(d, m, k);
      if Slot(d.fields, k) == s && k != i {
        if k < i { SameSlotIsOneof(d.fields, k, i); } else { SameSlotIsOneof(d.fields, i, k); }
      }
    }
  }

  lemma {:induction false} LoopIsWf(d: Desc, m: seq<Cell>, seen: set<nat>, bs: seq<byte>)
    requires WfDesc(d) && SoundDesc(d) && WfCells(d, m) && DecLoop(d, m, seen, bs).Done?
    ensures WfCells(d, DecLoop(d, m, seen, bs).m)
    decreases d, |bs|, 1
  {
    hide WfDesc, SoundDesc, WfCells, DecTag, DecRecord, MarkSeen;
    if bs != [] && DecTag(bs).TagOk? {
      var TagOk(tag, wt, payload) := DecTag(bs);
      RecordIsWf(d, m, tag, wt, payload);
      var Got((m', i), rest) := DecRecord(d, m, tag, wt, payload);
      LoopIsWf(d, m', if i < |d.fields| then MarkSeen(d, i, seen) else seen, rest);
    }
  }

  lemma RecordIsWf(d: Desc, m: seq<Cell>, tag: nat, wt: nat, bs: seq<byte>)
    requires WfDesc(d) && SoundDesc(d) && WfCells(d, m) && DecRecord(d, m, tag, wt, bs).Got?
    ensures WfCells(d, DecRecord(d, m, tag, wt, bs).value.0)
    decreases d, |bs|, 0
  {
    hide WfDesc, SoundDesc, WfField, WfCell, DecField, SkipField, FindTag, UnionTagOk, WfUnion;
    var i := FindTag(d.fields, tag);
    if i < |d.fields| {
      SoundAt(d, i);
      FieldIsWf(d.fields[i], m[Slot(d.fields, i)], wt, bs);
      UpdateIsWf(d, m, i, DecField(d.fields[i], m[Slot(d.fields, i)], wt, bs).value);
    }
  }

  /** Main theorem. Decoding any input into a well-formed struct fails or leaves a well-formed struct: integers
      that their member holds, arrays, bytes and strings within their bounds, unions that name a member. */
  lemma {:induction false} MessageIsWf(d: Desc, m: seq<Cell>, bs: seq<byte>)
    requires WfDesc(d) && SoundDesc(d) && WfCells(d, m) && DecMessage(d, m, bs).Got?
    ensures WfCells(d, DecMessage(d, m, bs).value)
    decreases d, |bs|, 2
  {
    hide WfDesc, SoundDesc, WfCells, DecLoop, RequiredSeen;
    LoopIsWf(d, m, {}, bs);
  }

  /** Whatever input was accepted, canonical or not, the struct it gave is encoded, and decoding that gives the
      same struct. */
  lemma DecodedRoundTrip(d: Desc, bs: seq<byte>)
    requires WfDesc(d) && SoundDesc(d) && DecodeFresh(d, bs).Got?
    ensures var m := DecodeFresh(d, bs).value;
      && WfCells(d, m) && EncMessage(d, m).Some?
      && (|EncMessage(d, m).value| < TWO_TO_THE_32 ==> DecodeFresh(d, EncMessage(d, m).value) == Got(m, []))
  {
    hide WfDesc, SoundDesc, WfCells, DecMessage, DefaultCells, EncMessage;
    DefaultsAreWf(d);
    MessageIsWf(d, DefaultCells(d), bs);
    RoundTrip(d, DecodeFresh(d, bs).value);
  }

  // ---------- what is encoded ----------

  /** Values that can be encoded: a string may fill its array or hold a NUL. */
  predicate Encodable(f: Field, v: Value)
    decreases f, 0
  {
    match f.ltype
    case VarintT | SVarintT => v.VInt? && FitsSigned(f.dataSize, v.n)
    case UVarintT => v.VInt? && FitsUnsigned(f.dataSize, v.n)
    case Fixed32T => v.VInt? && 0 <= v.n < TWO_TO_THE_32
    case Fixed64T => v.VInt? && 0 <= v.n < TWO_TO_THE_64
    case BytesT => v.VBytes? && |v.b| + PB_BYTES_HEADER <= f.dataSize
    case StringT => v.VBytes?
    case FixedLengthBytesT => v.VBytes? && |v.b| == f.dataSize
    case SubmessageT => v.VMsg? && f.ptr.SubFields? && CellsEncodable(f.ptr.desc, v.cells)
    case ExtensionT => false
  }

  predicate CellEncodable(f: Field, c: Cell)
    decreases f, 1
  {
    match f.htype
    case Required => c.Plain? && Encodable(f, c.v)
    case Optional =>
      if f.sizeOffset != 0 then c.Has? && (c.has ==> Encodable(f, c.v))
      else c.Plain? && (IsZero(f, c.v) || Encodable(f, c.v))
    case Repeated => c.Many? && (c.items == [] || |c.items| <= f.arraySize)
      && forall k | 0 <= k < |c.items| :: Encodable(f, c.items[k])
    case Oneof => c.Union? && (c.which == f.tag ==> Encodable(f, c.v))
  }

  predicate CellsEncodable(d: Desc, m: seq<Cell>)
    decreases d
  {
    forall i | 0 <= i < |d.fields| :: Slot(d.fields, i) < |m| && CellEncodable(d.fields[i], m[Slot(d.fields, i)])
  }

  lemma {:induction false} ValueEncodesExactly(f: Field, v: Value)
    requires WfField(f)
    ensures EncTagged(f, v).Some? <==> Encodable(f, v)
    decreases f, 0
  {
    hide WfDesc, EncMessage, CellsEncodable, LengthPrefixed, Tag;
    if f.ltype == SubmessageT && v.VMsg? { MessageEncodesExactly(f.ptr.desc, v.cells); }
  }

  lemma {:induction false} ItemsEncodeExactly(f: Field, items: seq<Value>)
    requires WfField(f)
    ensures (if f.ltype.Packable() then EncScalars(f, items).Some? else EncItems(f, items).Some?) <==>
      forall k | 0 <= k < |items| :: Encodable(f, items[k])
    decreases f, 1, |items|
  {
    hide WfField, Encodable, EncTagged, EncScalar;
    if items != [] {
      ValueEncodesExactly(f, items[0]);
      ItemsEncodeExactly(f, items[1..]);
      ScalarTagged(f, items[0]);
      assert items == [items[0]] + items[1..];
    }
  }

  lemma ScalarTagged(f: Field, v: Value)
    ensures f.ltype.Packable() ==> (EncScalar(f, v).Some? <==> EncTagged(f, v).Some?)
    ensures !f.ltype.Packable() ==> EncScalar(f, v).None?
  {
  }

  lemma CellEncodesExactly(f: Field, c: Cell)
    requires WfField(f)
    ensures EncField(f, c).Some? <==> CellEncodable(f, c)
    decreases f, 2
  {
    hide WfField, Encodable, EncTagged, EncScalars, EncItems, LengthPrefixed, Tag, IsZero;
    match c {
      case Plain(v) => ValueEncodesExactly(f, v);
      case Has(_, v) => ValueEncodesExactly(f, v);
      case Many(items) => ItemsEncodeExactly(f, items);
      case Union(_, v) => ValueEncodesExactly(f, v);
    }
  }

  lemma {:induction false} FromEncodesExactly(d: Desc, m: seq<Cell>, i: nat)
    requires WfDesc(d) && i <= |d.fields|
    ensures EncFrom(d, m, i).Some? <==> forall k | i <= k < |d.fields| ::
      Slot(d.fields, k) < |m| && CellEncodable(d.fields[k], m[Slot(d.fields, k)])
    decreases d, 3, |d.fields| - i
  {
    hide WfDesc, CellEncodable, EncField, Slot, EncFrom;
    EncFromStep(d, m, i);
    if i < |d.fields| {
      DescField(d, i);
      if Slot(d.fields, i) < |m| { CellEncodesExactly(d.fields[i], m[Slot(d.fields, i)]); }
      FromEncodesExactly(d, m, i + 1);
    }
  }

  lemma EncFromStep(d: Desc, m: seq<Cell>, i: nat)
    requires i <= |d.fields|
    ensures i == |d.fields| ==> EncFrom(d, m, i).Some?
    ensures i < |d.fields| ==>
      (EncFrom(d, m, i).Some? <==>
       Slot(d.fields, i) < |m| && EncField(d.fields[i], m[Slot(d.fields, i)]).Some? && EncFrom(d, m, i + 1).Some?)
  {
    hide EncField, Slot;
  }

  /** Main theorem: exactly these structs are encoded. */
  lemma {:induction false} MessageEncodesExactly(d: Desc, m: seq<Cell>)
    requires WfDesc(d)
    ensures EncMessage(d, m).Some? <==> CellsEncodable(d, m)
    decreases d, 4
  {
    hide WfDesc, CellEncodable, EncFrom;
    FromEncodesExactly(d, m, 0);
  }

  // ---------- what is not written ----------

  /** A member for which nothing is written. */
  lemma NothingForField(f: Field, c: Cell)
    requires WfField(f) && WfCell(f, c)
    ensures EncField(f, c) == Some([]) <==>
      match f.htype
      case Required => false
      case Optional => if f.sizeOffset != 0 then !c.has else IsZero(f, c.v)
      case Repeated => c.items == []
      case Oneof => c.which != f.tag
  {
    hide EncTagged, EncArray, WfValue, IsZero, DefaultOf;
    if !c.Many? { TaggedNotEmpty(f, c.v); } else if c.items != [] && EncArray(f, c.items) == Some([]) {
      ArrayNotEmpty(f, c.items);
    } else if c.items == [] {
      NoEntries(f);
    }
  }

  lemma NoEntries(f: Field)
    ensures EncArray(f, []) == Some([])
  {
  }

  lemma {:induction false} NothingFrom(d: Desc, m: seq<Cell>, i: nat)
    requires i <= |d.fields|
    ensures EncFrom(d, m, i) == Some([]) <==> forall k | i <= k < |d.fields| ::
      Slot(d.fields, k) < |m| && EncField(d.fields[k], m[Slot(d.fields, k)]) == Some([])
    decreases |d.fields| - i
  {
    hide EncField;
    if i < |d.fields| {
      NothingFrom(d, m, i + 1);
      if EncFrom(d, m, i).Some? { FromSplit(d, m, i, {}); }
    }
  }

  /** A well-formed struct is encoded to nothing exactly when each of its fields is at its zero; of a union that
      means that it is empty. */
  lemma NothingWritten(d: Desc, m: seq<Cell>)
    requires WfDesc(d) && WfCells(d, m)
    ensures EncMessage(d, m) == Some([]) <==> AllDefault(d, m, |d.fields|)
  {
    hide EncField, EncFrom, WfField, WfCell, WfUnion, IsDefault;
    NothingFrom(d, m, 0);
    if EncMessage(d, m) == Some([]) {
      forall i | 0 <= i < |d.fields| ensures IsDefault(d.fields[i], m[Slot(d.fields, i)]) { EmptyIsDefault(d, m, i); }
    }
    if AllDefault(d, m, |d.fields|) {
      forall i | 0 <= i < |d.fields| ensures EncField(d.fields[i], m[Slot(d.fields, i)]) == Some([]) {
        DefaultIsEmpty(d, m, i);
      }
    }
  }

  lemma EmptyIsDefault(d: Desc, m: seq<Cell>, i: nat)
    requires WfDesc(d) && WfCells(d, m) && i < |d.fields|
    requires forall k | 0 <= k < |d.fields| :: EncField(d.fields[k], m[Slot(d.fields, k)]) == Some([])
    ensures IsDefault(d.fields[i], m[Slot(d.fields, i)])
  {
    hide EncField, WfField, WfValue, DefaultOf, IsZero;
    DescField(d, i);
    var f, c := d.fields[i], m[Slot(d.fields, i)];
    assert WfCell(f, c) && WfUnion(d, m, i);
    NothingForField(f, c);
    if f.htype == Oneof && c != Union(0, VNone) {
      var j :| 0 <= j < |d.fields| && Slot(d.fields, j) == Slot(d.fields, i) && d.fields[j].tag == c.which;
      DescField(d, j);
      assert WfCell(d.fields[j], c);
      NothingForField(d.fields[j], c);
      if j < i { SameSlotIsOneof(d.fields, j, i); } else if i < j { SameSlotIsOneof(d.fields, i, j); }
    }
  }

  lemma DefaultIsEmpty(d: Desc, m: seq<Cell>, i: nat)
    requires WfDesc(d) && WfCells(d, m) && i < |d.fields| && IsDefault(d.fields[i], m[Slot(d.fields, i)])
    ensures EncField(d.fields[i], m[Slot(d.fields, i)]) == Some([])
  {
    hide EncField, WfField, WfValue, DefaultOf, IsZero;
    DescField(d, i);
    assert WfCell(d.fields[i], m[Slot(d.fields, i)]);
    NotExtension(d.fields[i]);
    NothingForField(d.fields[i], m[Slot(d.fields, i)]);
  }

  /** Exactly these proto3 values are left out: zero, no bytes, a string that is empty, a fixed-length array of
      length 0, a submessage for which nothing would be written. */
  lemma OmittedExactly(f: Field, v: Value)
    requires WfField(f) && f.htype == Optional && f.sizeOffset == 0 && WfValue(f, v)
    ensures EncField(f, Plain(v)) == Some([]) <==>
      if v.VInt? then v.n == 0 else if v.VBytes? then v.b == [] else EncMessage(f.ptr.desc, v.cells) == Some([])
  {
    hide EncField, WfDesc, WfCells, AllDefault, EncMessage;
    NothingForField(f, Plain(v));
    if v.VMsg? { NothingWritten(f.ptr.desc, v.cells); }
  }
}
