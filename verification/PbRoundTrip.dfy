/** Decoding the encoder's output rebuilds the message. */
module PbRoundTrip {
  import opened Bits
  import opened Wrappers
  import opened Varint
  import opened PbTypes
  import opened PbEncodeSpec
  import opened PbDecodeSpec

  // ---------- well-formed descriptors and messages ----------

  ghost predicate WfDesc(d: Desc)
    decreases d
  {
    DistinctTags(d.fields) && forall i | 0 <= i < |d.fields| :: WfField(d.fields[i])
  }

  ghost predicate WfField(f: Field)
    decreases f
  {
    && 1 <= f.tag < 0x2000_0000
    && f.ltype != ExtensionT
    && (f.ltype == SubmessageT <==> f.ptr.SubFields?)
    && (f.ptr.SubFields? ==> WfDesc(f.ptr.desc))
    && (f.ptr.DefaultValue? ==> f.htype != Optional || f.sizeOffset != 0)   // proto3 has no defaults
    && (f.htype == Repeated ==> f.sizeOffset != 0)                          // no fixed-count arrays
  }

  lemma DescField(d: Desc, i: nat)
    requires WfDesc(d) && i < |d.fields|
    ensures WfField(d.fields[i])
  {
    hide WfField;
  }

  lemma NotExtension(f: Field)
    requires WfField(f)
    ensures f.ltype != ExtensionT && f.tag >= 1
  {
  }

  /** A value its struct member can hold; a string has room for its NUL. */
  ghost predicate WfValue(f: Field, v: Value)
    decreases f, 0
  {
    match f.ltype
    case VarintT | SVarintT => v.VInt? && FitsSigned(f.dataSize, v.n)
    case UVarintT => v.VInt? && FitsUnsigned(f.dataSize, v.n)
    case Fixed32T => v.VInt? && FitsUnsigned(4, v.n)
    case Fixed64T => v.VInt? && FitsUnsigned(8, v.n)
    case BytesT => v.VBytes? && |v.b| + PB_BYTES_HEADER <= f.dataSize
    case StringT => v.VBytes? && |v.b| < f.dataSize && 0 !in v.b
    case FixedLengthBytesT => v.VBytes? && |v.b| == f.dataSize
    case SubmessageT => v.VMsg? && f.ptr.SubFields? && WfCells(f.ptr.desc, v.cells)
    case ExtensionT => false
  }

  /** An absent optional member holds its default. */
  ghost predicate WfCell(f: Field, c: Cell)
    decreases f, 1
  {
    match f.htype
    case Required => c.Plain? && WfValue(f, c.v)
    case Optional =>
      if f.sizeOffset != 0 then c.Has? && WfValue(f, c.v) && (!c.has ==> c.v == DefaultOf(f))
      else c.Plain? && WfValue(f, c.v)
    case Repeated =>
      c.Many? && |c.items| <= f.arraySize && forall k | 0 <= k < |c.items| :: WfValue(f, c.items[k])
    case Oneof => c.Union? && (c.which == f.tag ==> WfValue(f, c.v))
  }

  ghost predicate WfCells(d: Desc, m: seq<Cell>)
    decreases d
  {
    && |m| == Slots(d.fields)
    && (forall i | 0 <= i < |d.fields| :: Slot(d.fields, i) < |m| && WfCell(d.fields[i], m[Slot(d.fields, i)]))
    && (forall i | 0 <= i < |d.fields| :: WfUnion(d, m, i))
  }

  /** A union is empty or names one of its members. */
  ghost predicate WfUnion(d: Desc, m: seq<Cell>, i: nat)
    requires i < |d.fields|
  {
    var s := Slot(d.fields, i);
    d.fields[i].htype == Oneof && s < |m| && m[s].Union? ==>
      || m[s] == Union(0, VNone)
      || exists j | 0 <= j < |d.fields| :: Slot(d.fields, j) == s && d.fields[j].tag == m[s].which
  }

  // ---------- values ----------

  lemma ScalarRoundTrip(f: Field, v: Value, rest: seq<byte>)
    requires EncScalar(f, v).Some?
    ensures DecScalar(f, EncScalar(f, v).value + rest) == Got(v, rest)
  {
    hide DecodeVarint64, EncodeVarint, DecodeFixed, LittleEndian, Trunc64, ZigzagEncode, ZigzagDecode;
    match f.ltype {
      case VarintT =>
        SignedVarintRoundTrip(f, v.n, rest);
      case UVarintT =>
        VarintRoundTrip(v.n, rest);
      case SVarintT =>
        VarintRoundTrip(ZigzagEncode(v.n), rest);
        ZigzagRoundTrip(v.n);
      case Fixed32T =>
        Pow2Values();
        FixedRoundTrip(v.n, 4, rest);
      case Fixed64T =>
        Pow2Values();
        FixedRoundTrip(v.n, 8, rest);
      case _ =>
    }
  }

  lemma SignedVarintRoundTrip(f: Field, n: int, rest: seq<byte>)
    requires f.ltype == VarintT && FitsSigned(f.dataSize, n)
    ensures DecScalar(f, EncodeVarint(ToUint64(n)) + rest) == Got(VInt(n), rest)
  {
    hide DecodeVarint64, EncodeVarint;
    var u := ToUint64(n);
    VarintRoundTrip(u, rest);
    assert ToInt64(u) == n;
    assert f.dataSize != 8 ==> ToInt32(Trunc32(u)) == n;
  }

  lemma SplitPrefixedRoundTrip(s: seq<byte>, rest: seq<byte>)
    requires |s| < TWO_TO_THE_32
    ensures SplitPrefixed(LengthPrefixed(s) + rest) == Got(s, rest)
  {
    hide DecodeVarint32, EncodeVarint;
    Varint32Agrees(|s|, s + rest);
    assert LengthPrefixed(s) + rest == EncodeVarint(|s|) + (s + rest);
  }

  lemma {:induction false} StrnLenWhole(s: seq<byte>, max: nat)
    requires 0 !in s && |s| <= max
    ensures StrnLen(s, max) == |s|
  {
    if s != [] { StrnLenWhole(s[1..], max - 1); }
  }

  lemma PackedStep(f: Field, prior: seq<Value>, v: Value, tail: seq<byte>)
    requires |prior| < f.arraySize && EncScalar(f, v).Some?
    ensures DecPacked(f, prior, EncScalar(f, v).value + tail) == DecPacked(f, prior + [v], tail)
  {
    hide EncScalar, DecScalar;
    ScalarRoundTrip(f, v, tail);
  }

  lemma PackedEnd(f: Field, prior: seq<Value>)
    ensures EncScalars(f, []) == Some([]) && DecPacked(f, prior, []) == Some(prior)
  {
  }

  lemma ScalarsSplit(f: Field, items: seq<Value>)
    requires items != [] && EncScalars(f, items).Some?
    ensures EncScalar(f, items[0]).Some? && EncScalars(f, items[1..]).Some?
    ensures EncScalars(f, items).value == EncScalar(f, items[0]).value + EncScalars(f, items[1..]).value
  {
    hide EncScalar;
  }

  /** A packed run is read back behind what the array already holds. */
  lemma {:induction false} PackedRoundTrip(f: Field, prior: seq<Value>, items: seq<Value>)
    requires |prior| + |items| <= f.arraySize && EncScalars(f, items).Some?
    ensures DecPacked(f, prior, EncScalars(f, items).value) == Some(prior + items)
    decreases |items|
  {
    hide *;
    if items == [] {
      assert EncScalars(f, []) == Some([]) && DecPacked(f, prior, []) == Some(prior) by { PackedEnd(f, prior); }
      assert prior + [] == prior;
    } else {
      ScalarsSplit(f, items);
      PackedStep(f, prior, items[0], EncScalars(f, items[1..]).value);
      PackedRoundTrip(f, prior + [items[0]], items[1..]);
      assert prior + [items[0]] + items[1..] == prior + items;
    }
  }

  // ---------- defaults ----------

  lemma {:induction false} DefaultPrefixAt(d: Desc, n: nat, i: nat)
    requires i < n <= |d.fields|
    ensures Slot(d.fields, i) < |DefaultPrefix(d, n)|
    ensures DefaultPrefix(d, n)[Slot(d.fields, i)] == DefaultCell(d.fields[i])
    decreases n
  {
    SlotMonotone(d.fields, i, n - 1);
    if i < n - 1 {
      DefaultPrefixAt(d, n - 1, i);
    } else if n > 1 && InUnion(d.fields[n - 2], d.fields[n - 1]) {
      DefaultPrefixAt(d, n - 1, n - 2);
    }
  }

  lemma {:induction false} SlotHasField(fs: seq<Field>, n: nat, s: nat) returns (i: nat)
    requires 0 < n <= |fs| && s <= Slot(fs, n - 1)
    ensures i < n && Slot(fs, i) == s
  {
    if s == Slot(fs, n - 1) {
      i := n - 1;
    } else {
      i := SlotHasField(fs, n - 1, s);
    }
  }

  lemma SlotInRange(fs: seq<Field>, i: nat)
    requires i < |fs|
    ensures Slot(fs, i) < Slots(fs)
  {
    SlotMonotone(fs, i, |fs| - 1);
  }

  /** Structs are equal when they agree on the member of every field. */
  lemma SameCells(d: Desc, a: seq<Cell>, b: seq<Cell>)
    requires |a| == |b| == Slots(d.fields)
    requires forall i | 0 <= i < |d.fields| :: Slot(d.fields, i) < |a| && a[Slot(d.fields, i)] == b[Slot(d.fields, i)]
    ensures a == b
  {
    forall s | 0 <= s < |a| ensures a[s] == b[s] {
      var i := SlotHasField(d.fields, |d.fields|, s);
    }
  }

  /** What the encoder leaves out as a proto3 zero is what the decoder starts from. */
  lemma {:induction false} ZeroIsDefault(f: Field, v: Value)
    requires WfField(f) && WfValue(f, v) && IsZero(f, v) && !f.ptr.DefaultValue?
    ensures v == DefaultOf(f)
    decreases f, 0
  {
    if f.ltype == SubmessageT {
      var d := f.ptr.desc;
      forall i | 0 <= i < |d.fields|
        ensures Slot(d.fields, i) < |v.cells|
        ensures v.cells[Slot(d.fields, i)] == DefaultCells(d)[Slot(d.fields, i)]
      {
        DefaultCellIsDefault(d, v.cells, i);
        DefaultPrefixAt(d, |d.fields|, i);
      }
      SameCells(d, v.cells, DefaultCells(d));
    } else if f.ltype == FixedLengthBytesT {
      assert v.b == Zeros(0);
    }
  }

  lemma {:induction false} DefaultCellIsDefault(d: Desc, m: seq<Cell>, i: nat)
    requires WfDesc(d) && WfCells(d, m) && i < |d.fields|
    requires IsDefault(d.fields[i], m[Slot(d.fields, i)])
    ensures m[Slot(d.fields, i)] == DefaultCell(d.fields[i])
    decreases d, 0
  {
    var f, c := d.fields[i], m[Slot(d.fields, i)];
    assert WfField(f) && WfCell(f, c) && WfUnion(d, m, i);
    if f.htype == Optional && f.sizeOffset == 0 {
      ZeroIsDefault(f, c.v);
    }
  }

  // ---------- one record ----------

  lemma FindTagUnique(fs: seq<Field>, i: nat)
    requires DistinctTags(fs) && i < |fs| && fs[i].ltype != ExtensionT
    ensures FindTag(fs, fs[i].tag) == i
  {
    assert Matches(fs[i], fs[i].tag);
  }

  lemma TagRoundTrip(tag: nat, wt: nat, rest: seq<byte>)
    requires 1 <= tag < 0x2000_0000 && wt < 8
    ensures DecTag(Tag(wt, tag) + rest) == TagOk(tag, wt, rest)
  {
    hide DecodeVarint32, EncodeVarint, DecodeVarint64;
    Varint32Agrees(tag * 8 + wt, rest);
  }

  /** A record whose payload decodes is one step of the field loop. */
  lemma RecordStep(d: Desc, m: seq<Cell>, seen: set<nat>, i: nat, wt: nat, bs: seq<byte>, c: Cell, rest: seq<byte>)
    requires WfDesc(d) && i < |d.fields| && wt < 8 && Slot(d.fields, i) < |m|
    requires UnionTagOk(d, d.fields[i], m[Slot(d.fields, i)])
    requires DecField(d.fields[i], m[Slot(d.fields, i)], wt, bs) == Got(c, rest)
    ensures DecLoop(d, m, seen, Tag(wt, d.fields[i].tag) + bs)
         == DecLoop(d, m[Slot(d.fields, i) := c], MarkSeen(d, i, seen), rest)
  {
    hide DecTag, DecField, Tag;
    var f := d.fields[i];
    assert WfField(f);
    TagRoundTrip(f.tag, wt, bs);
    FindTagUnique(d.fields, i);
    assert Tag(wt, f.tag) + bs != [] by { assert |EncodeVarint(f.tag * 8 + wt)| >= 1; }
  }

  /** The wire type of a field whose values are not packed. */
  function PlainWire(f: Field): nat { if WireType(f.ltype).Some? then WireType(f.ltype).value else 0 }

  lemma WireSmall(f: Field)
    requires f.ltype != ExtensionT
    ensures WireType(f.ltype) == Some(PlainWire(f)) && PlainWire(f) < 8
    ensures f.ltype.Packable() <==> PlainWire(f) != WT_STRING
  {
  }

  // ---------- whole messages ----------

  /** m is what the sender has; cur is the receiver's struct after fields 0 .. i-1. */
  ghost predicate Progress(d: Desc, m: seq<Cell>, cur: seq<Cell>, i: nat)
    requires i <= |d.fields|
  {
    && |cur| == |m| == Slots(d.fields)
    && forall k | 0 <= k < |d.fields| :: Slot(d.fields, k) < |m| && CellProgress(d, m, cur, i, k)
  }

  ghost predicate CellProgress(d: Desc, m: seq<Cell>, cur: seq<Cell>, i: nat, k: nat)
    requires i <= |d.fields| && k < |d.fields| && Slot(d.fields, k) < |m| == |cur|
  {
    var s := Slot(d.fields, k);
    if d.fields[k].htype != Oneof then
      cur[s] == if k < i then m[s] else DefaultCell(d.fields[k])
    else
      && cur[s].Union?
      && (cur[s] == m[s] ||
          (cur[s] == Union(0, VNone) && forall j | 0 <= j < i && Slot(d.fields, j) == s :: !Named(d, m, j)))
  }

  /** Field j is the member its union holds. */
  predicate Named(d: Desc, m: seq<Cell>, j: nat)
    requires j < |d.fields|
  {
    var s := Slot(d.fields, j);
    s < |m| && m[s].Union? && m[s].which == d.fields[j].tag
  }

  lemma ProgressStarts(d: Desc, m: seq<Cell>)
    requires WfCells(d, m)
    ensures Progress(d, m, DefaultCells(d), 0)
  {
    forall k | 0 <= k < |d.fields|
      ensures Slot(d.fields, k) < |m| && CellProgress(d, m, DefaultCells(d), 0, k)
    {
      SlotInRange(d.fields, k);
      DefaultPrefixAt(d, |d.fields|, k);
    }
  }

  lemma ProgressShape(d: Desc, m: seq<Cell>, cur: seq<Cell>, i: nat)
    requires i <= |d.fields| && Progress(d, m, cur, i)
    ensures |cur| == |m|
  {
  }

  lemma ProgressEnds(d: Desc, m: seq<Cell>, cur: seq<Cell>)
    requires WfDesc(d) && WfCells(d, m) && Progress(d, m, cur, |d.fields|)
    ensures cur == m
  {
    forall k | 0 <= k < |d.fields|
      ensures Slot(d.fields, k) < |cur| && cur[Slot(d.fields, k)] == m[Slot(d.fields, k)]
    {
      assert CellProgress(d, m, cur, |d.fields|, k);
      assert WfCell(d.fields[k], m[Slot(d.fields, k)]) && WfUnion(d, m, k);
    }
    SameCells(d, cur, m);
  }

  /** The struct after field i, which was sent or is absent and equal to its default. */
  ghost function After(d: Desc, m: seq<Cell>, cur: seq<Cell>, i: nat): seq<Cell>
    requires i < |d.fields| && Slot(d.fields, i) < |m| == |cur|
  {
    if d.fields[i].htype == Oneof && !Named(d, m, i) then cur
    else cur[Slot(d.fields, i) := m[Slot(d.fields, i)]]
  }

  lemma CellProgressStep(d: Desc, m: seq<Cell>, cur: seq<Cell>, i: nat, k: nat)
    requires i < |d.fields| && k < |d.fields| && Slot(d.fields, i) < |m| == |cur| && Slot(d.fields, k) < |m|
    requires m[Slot(d.fields, i)].Union? <==> d.fields[i].htype == Oneof
    requires CellProgress(d, m, cur, i, k)
    ensures CellProgress(d, m, After(d, m, cur, i), i + 1, k)
  {
    if Slot(d.fields, k) == Slot(d.fields, i) {
      if k < i {
        SameSlotIsOneof(d.fields, k, i);
      } else if i < k {
        SameSlotIsOneof(d.fields, i, k);
      }
    }
  }

  lemma ProgressStep(d: Desc, m: seq<Cell>, cur: seq<Cell>, i: nat)
    requires WfDesc(d) && WfCells(d, m) && i < |d.fields| && Progress(d, m, cur, i)
    ensures Progress(d, m, After(d, m, cur, i), i + 1)
  {
    assert WfCell(d.fields[i], m[Slot(d.fields, i)]);
    forall k | 0 <= k < |d.fields|
      ensures Slot(d.fields, k) < |m| && CellProgress(d, m, After(d, m, cur, i), i + 1, k)
    {
      assert CellProgress(d, m, cur, i, k);
      CellProgressStep(d, m, cur, i, k);
    }
  }

  /** Required fields seen once fields i and later have been decoded. */
  function SeenFrom(d: Desc, i: nat, seen: set<nat>): set<nat>
    requires i <= |d.fields|
    decreases |d.fields| - i
  {
    if i == |d.fields| then seen else SeenFrom(d, i + 1, MarkSeen(d, i, seen))
  }

  lemma {:induction false} SeenFromGrows(d: Desc, i: nat, seen: set<nat>)
    requires i <= |d.fields|
    ensures seen <= SeenFrom(d, i, seen)
    decreases |d.fields| - i
  {
    if i < |d.fields| { SeenFromGrows(d, i + 1, MarkSeen(d, i, seen)); }
  }

  lemma {:induction false} SeenFromAll(d: Desc, i: nat, seen: set<nat>)
    requires i <= |d.fields|
    requires forall k: nat | k < Requireds(d.fields, i) && k < PB_MAX_REQUIRED_FIELDS :: k in seen
    ensures RequiredSeen(d, SeenFrom(d, i, seen))
    decreases |d.fields| - i
  {
    if i < |d.fields| { SeenFromAll(d, i + 1, MarkSeen(d, i, seen)); }
  }

  /** Every payload decodes to its value. */
  lemma {:induction false} ValueRoundTrip(f: Field, prior: Value, v: Value, rest: seq<byte>)
    requires WfField(f) && WfValue(f, v) && EncValue(f, v).Some? && |EncValue(f, v).value| < TWO_TO_THE_32
    requires f.ltype == SubmessageT ==> f.htype == Repeated || prior == DefaultOf(f)
    ensures DecValue(f, prior, EncValue(f, v).value + rest) == Got(v, rest)
    decreases f, 0
  {
    if f.ltype.Packable() {
      ScalarRoundTrip(f, v, rest);
    } else if f.ltype == SubmessageT {
      var e := EncMessage(f.ptr.desc, v.cells).value;
      SplitPrefixedRoundTrip(e, rest);
      MessageRoundTrip(f.ptr.desc, v.cells);
    } else if f.ltype == StringT {
      StrnLenWhole(v.b, f.dataSize);
      StrnLenWhole(v.b, |v.b|);
      assert v.b[..|v.b|] == v.b;
      SplitPrefixedRoundTrip(v.b, rest);
    } else {
      SplitPrefixedRoundTrip(v.b, rest);
      if v.b == [] { assert v.b == Zeros(0); }
    }
  }

  lemma EncTaggedParts(f: Field, v: Value, tail: seq<byte>)
    requires f.ltype != ExtensionT && EncTagged(f, v).Some?
    ensures EncValue(f, v).Some? && |EncValue(f, v).value| <= |EncTagged(f, v).value|
    ensures EncTagged(f, v).value + tail == Tag(PlainWire(f), f.tag) + (EncValue(f, v).value + tail)
  {
    hide EncValue, Tag;
    WireSmall(f);
    var e := EncValue(f, v).value;
    assert Tag(PlainWire(f), f.tag) + e + tail == Tag(PlainWire(f), f.tag) + (e + tail);
  }

  lemma TaggedNotEmpty(f: Field, v: Value)
    ensures EncTagged(f, v).Some? ==> EncTagged(f, v).value != []
  {
    hide EncValue;
  }

  lemma ArrayNotEmpty(f: Field, items: seq<Value>)
    requires EncArray(f, items) == Some([])
    ensures items == []
  {
    hide EncTagged, EncScalars, LengthPrefixed;
    if items != [] { TaggedNotEmpty(f, items[0]); }
  }

  lemma ItemRoundTrip(d: Desc, cur: seq<Cell>, seen: set<nat>, i: nat, prior: seq<Value>, v: Value, tail: seq<byte>)
    requires WfDesc(d) && i < |d.fields| && Slot(d.fields, i) < |cur|
    requires d.fields[i].htype == Repeated && !d.fields[i].ltype.Packable()
    requires cur[Slot(d.fields, i)] == Many(prior) && |prior| < d.fields[i].arraySize && WfValue(d.fields[i], v)
    requires EncTagged(d.fields[i], v).Some? && |EncTagged(d.fields[i], v).value| < TWO_TO_THE_32
    ensures DecLoop(d, cur, seen, EncTagged(d.fields[i], v).value + tail)
         == DecLoop(d, cur[Slot(d.fields, i) := Many(prior + [v])], seen, tail)
    decreases d, 0, 0
  {
    hide DecLoop, EncTagged, EncValue, DecValue, WfValue;
    var f := d.fields[i];
    assert WfField(f);
    EncTaggedParts(f, v, tail);
    var bs := EncValue(f, v).value + tail;
    ValueRoundTrip(f, VNone, v, tail);
    assert DecField(f, Many(prior), PlainWire(f), bs) == Got(Many(prior + [v]), tail);
    WireSmall(f);
    RecordStep(d, cur, seen, i, PlainWire(f), bs, Many(prior + [v]), tail);
  }

  /** Unpacked array entries append one by one. */
  lemma {:induction false} ItemsRoundTrip(d: Desc, cur: seq<Cell>, seen: set<nat>, i: nat,
                                          prior: seq<Value>, items: seq<Value>, tail: seq<byte>)
    requires WfDesc(d) && i < |d.fields| && Slot(d.fields, i) < |cur|
    requires d.fields[i].htype == Repeated && !d.fields[i].ltype.Packable()
    requires cur[Slot(d.fields, i)] == Many(prior) && |prior| + |items| <= d.fields[i].arraySize
    requires forall k | 0 <= k < |items| :: WfValue(d.fields[i], items[k])
    requires EncItems(d.fields[i], items).Some? && |EncItems(d.fields[i], items).value| < TWO_TO_THE_32
    ensures DecLoop(d, cur, seen, EncItems(d.fields[i], items).value + tail)
         == DecLoop(d, cur[Slot(d.fields, i) := Many(prior + items)], seen, tail)
    decreases d, 0, |items| + 1
  {
    hide DecLoop, EncTagged, WfField, WfValue;
    var f, s := d.fields[i], Slot(d.fields, i);
    if items == [] {
      assert [] + tail == tail && prior + items == prior;
      assert cur[s := Many(prior)] == cur;
    } else {
      var es := EncItems(f, items[1..]).value;
      ItemRoundTrip(d, cur, seen, i, prior, items[0], es + tail);
      assert EncItems(f, items).value + tail == EncTagged(f, items[0]).value + (es + tail);
      ItemsRoundTrip(d, cur[s := Many(prior + [items[0]])], seen, i, prior + [items[0]], items[1..], tail);
      assert prior + [items[0]] + items[1..] == prior + items;
      assert cur[s := Many(prior + [items[0]])][s := Many(prior + items)] == cur[s := Many(prior + items)];
    }
  }

  lemma ArrayRoundTrip(d: Desc, cur: seq<Cell>, seen: set<nat>, i: nat, items: seq<Value>, tail: seq<byte>)
    requires WfDesc(d) && i < |d.fields| && Slot(d.fields, i) < |cur| && d.fields[i].htype == Repeated
    requires cur[Slot(d.fields, i)] == Many([]) && WfCell(d.fields[i], Many(items))
    requires EncArray(d.fields[i], items).Some? && |EncArray(d.fields[i], items).value| < TWO_TO_THE_32
    ensures DecLoop(d, cur, seen, EncArray(d.fields[i], items).value + tail)
         == DecLoop(d, cur[Slot(d.fields, i) := Many(items)], seen, tail)
    decreases d, 1
  {
    hide DecLoop, WfField, WfValue;
    var f, s := d.fields[i], Slot(d.fields, i);
    if items == [] {
      assert [] + tail == tail && cur[s := Many([])] == cur;
    } else if f.ltype.Packable() {
      PackedArrayRoundTrip(d, cur, seen, i, items, tail);
    } else {
      ItemsRoundTrip(d, cur, seen, i, [], items, tail);
      assert [] + items == items;
    }
  }

  lemma PackedArrayRoundTrip(d: Desc, cur: seq<Cell>, seen: set<nat>, i: nat, items: seq<Value>, tail: seq<byte>)
    requires WfDesc(d) && i < |d.fields| && Slot(d.fields, i) < |cur| && d.fields[i].htype == Repeated
    requires cur[Slot(d.fields, i)] == Many([]) && d.fields[i].ltype.Packable() && items != []
    requires EncArray(d.fields[i], items).Some? && |EncArray(d.fields[i], items).value| < TWO_TO_THE_32
    ensures DecLoop(d, cur, seen, EncArray(d.fields[i], items).value + tail)
         == DecLoop(d, cur[Slot(d.fields, i) := Many(items)], seen, tail)
  {
    hide DecLoop, Tag, SplitPrefixed, DecPacked, EncScalars;
    var f := d.fields[i];
    var e := EncScalars(f, items).value;
    PackedRoundTrip(f, [], items);
    assert [] + items == items;
    SplitPrefixedRoundTrip(e, tail);
    var bs := LengthPrefixed(e) + tail;
    assert DecField(f, Many([]), WT_STRING, bs) == Got(Many(items), tail);
    RecordStep(d, cur, seen, i, WT_STRING, bs, Many(items), tail);
    assert EncArray(f, items).value + tail == Tag(WT_STRING, f.tag) + bs;
  }

  /** A single tagged value that makes a cell c of the field's present cell. */
  lemma TaggedRoundTrip(d: Desc, cur: seq<Cell>, seen: set<nat>, i: nat, prior: Value, c: Cell, tail: seq<byte>)
    requires WfDesc(d) && i < |d.fields| && Slot(d.fields, i) < |cur| && d.fields[i].htype != Repeated
    requires Present(d.fields[i], cur[Slot(d.fields, i)], prior, c)
    requires UnionTagOk(d, d.fields[i], cur[Slot(d.fields, i)])
    requires EncTagged(d.fields[i], c.v).Some? && |EncTagged(d.fields[i], c.v).value| < TWO_TO_THE_32
    ensures DecLoop(d, cur, seen, EncTagged(d.fields[i], c.v).value + tail)
         == DecLoop(d, cur[Slot(d.fields, i) := c], MarkSeen(d, i, seen), tail)
    decreases d, 1
  {
    hide DecLoop, EncTagged, EncValue, DecValue, WfValue;
    var f, s := d.fields[i], Slot(d.fields, i);
    assert WfField(f);
    EncTaggedParts(f, c.v, tail);
    var bs := EncValue(f, c.v).value + tail;
    ValueRoundTrip(f, prior, c.v, tail);
    assert DecField(f, cur[s], PlainWire(f), bs) == Got(c, tail);
    WireSmall(f);
    RecordStep(d, cur, seen, i, PlainWire(f), bs, c, tail);
  }

  /** c is the cell that decoding a value for f leaves in place of `was`, whose value is `prior`. */
  ghost predicate Present(f: Field, was: Cell, prior: Value, c: Cell) {
    match f.htype
    case Required => was == Plain(prior) && c.Plain? && WfValue(f, c.v) && prior == DefaultOf(f)
    case Optional =>
      if f.sizeOffset != 0 then was == Has(false, prior) && c.Has? && c.has && WfValue(f, c.v) && prior == DefaultOf(f)
      else was == Plain(prior) && c.Plain? && WfValue(f, c.v) && prior == DefaultOf(f)
    case Repeated => false
    case Oneof =>
      was.Union? && c.Union? && c.which == f.tag && WfValue(f, c.v)
      && prior == (if f.ltype.SubmessageT? then DefaultOf(f) else VNone)
  }

  /** Decoding what was encoded for field i. */
  lemma FieldRoundTrip(d: Desc, m: seq<Cell>, cur: seq<Cell>, seen: set<nat>, i: nat, tail: seq<byte>)
    requires WfDesc(d) && WfCells(d, m) && i < |d.fields| && Progress(d, m, cur, i)
    requires EncField(d.fields[i], m[Slot(d.fields, i)]).Some?
    requires |EncField(d.fields[i], m[Slot(d.fields, i)]).value| < TWO_TO_THE_32
    ensures DecLoop(d, cur, seen, EncField(d.fields[i], m[Slot(d.fields, i)]).value + tail)
         == DecLoop(d, After(d, m, cur, i), MarkSeen(d, i, seen), tail)
    decreases d, 2
  {
    hide DecLoop, EncTagged, EncArray, WfValue;
    var f, s := d.fields[i], Slot(d.fields, i);
    var c := m[s];
    assert WfField(f) && WfCell(f, c) && CellProgress(d, m, cur, i, i);
    var absent := match f.htype
      case Required => false
      case Optional => if f.sizeOffset != 0 then !c.has else IsDefault(f, c)
      case Repeated => false
      case Oneof => !Named(d, m, i);
    if absent {
      if f.htype == Optional { DefaultCellIsDefault(d, m, i); }
      assert [] + tail == tail && cur[s := cur[s]] == cur;
    } else if f.htype == Repeated {
      ArrayRoundTrip(d, cur, seen, i, c.items, tail);
    } else {
      var prior := if f.htype == Oneof && !f.ltype.SubmessageT? then VNone else DefaultOf(f);
      TaggedRoundTrip(d, cur, seen, i, prior, c, tail);
    }
  }

  lemma FromSplit(d: Desc, m: seq<Cell>, i: nat, seen: set<nat>)
    requires i < |d.fields| && EncFrom(d, m, i).Some?
    ensures Slot(d.fields, i) < |m| && EncField(d.fields[i], m[Slot(d.fields, i)]).Some? && EncFrom(d, m, i + 1).Some?
    ensures EncFrom(d, m, i).value == EncField(d.fields[i], m[Slot(d.fields, i)]).value + EncFrom(d, m, i + 1).value
    ensures SeenFrom(d, i, seen) == SeenFrom(d, i + 1, MarkSeen(d, i, seen))
  {
    hide EncField, MarkSeen;
  }

  lemma FromEnd(d: Desc, m: seq<Cell>, seen: set<nat>)
    ensures EncFrom(d, m, |d.fields|) == Some([]) && DecLoop(d, m, seen, []) == Done(m, seen, [], false)
    ensures SeenFrom(d, |d.fields|, seen) == seen
  {
  }

  lemma {:induction false} FromRoundTrip(d: Desc, m: seq<Cell>, cur: seq<Cell>, seen: set<nat>, i: nat)
    requires WfDesc(d) && WfCells(d, m) && i <= |d.fields| && Progress(d, m, cur, i)
    requires EncFrom(d, m, i).Some? && |EncFrom(d, m, i).value| < TWO_TO_THE_32
    ensures DecLoop(d, cur, seen, EncFrom(d, m, i).value) == Done(m, SeenFrom(d, i, seen), [], false)
    decreases d, 3, |d.fields| - i
  {
    hide *;
    if i == |d.fields| {
      ProgressEnds(d, m, cur);
      FromEnd(d, m, seen);
    } else {
      FromSplit(d, m, i, seen);
      assert |cur| == |m| by { ProgressShape(d, m, cur, i); }
      FieldRoundTrip(d, m, cur, seen, i, EncFrom(d, m, i + 1).value);
      ProgressStep(d, m, cur, i);
      FromRoundTrip(d, m, After(d, m, cur, i), MarkSeen(d, i, seen), i + 1);
    }
  }

  /** Main theorem: pb_decode of pb_encode's output succeeds and rebuilds the message. */
  lemma {:induction false} MessageRoundTrip(d: Desc, m: seq<Cell>)
    requires WfDesc(d) && WfCells(d, m)
    requires EncMessage(d, m).Some? && |EncMessage(d, m).value| < TWO_TO_THE_32
    ensures DecMessage(d, DefaultCells(d), EncMessage(d, m).value) == Got(m, [])
    decreases d, 4
  {
    ProgressStarts(d, m);
    FromRoundTrip(d, m, DefaultCells(d), {}, 0);
    SeenFromAll(d, 0, {});
  }

  // ---------- the encoder accepts every well-formed message ----------

  lemma {:induction false} ScalarsEncode(f: Field, items: seq<Value>)
    requires f.ltype.Packable() && forall k | 0 <= k < |items| :: WfValue(f, items[k])
    ensures EncScalars(f, items).Some?
  {
    if items != [] {
      assert WfValue(f, items[0]);
      ScalarsEncode(f, items[1..]);
    }
  }

  lemma {:induction false} ValueEncodes(f: Field, v: Value)
    requires WfField(f) && WfValue(f, v)
    ensures EncTagged(f, v).Some?
    decreases f, 0
  {
    if f.ltype == SubmessageT {
      hide EncFrom, WfCells, WfDesc;
      MessageEncodes(f.ptr.desc, v.cells, 0);
      assert EncMessage(f.ptr.desc, v.cells).Some?;
    }
  }

  lemma {:induction false} ItemsEncode(f: Field, items: seq<Value>)
    requires WfField(f) && forall k | 0 <= k < |items| :: WfValue(f, items[k])
    ensures EncItems(f, items).Some?
    decreases f, 1, |items|
  {
    if items != [] {
      ValueEncodes(f, items[0]);
      ItemsEncode(f, items[1..]);
    }
  }

  lemma CellEncodes(f: Field, c: Cell)
    requires WfField(f) && WfCell(f, c)
    ensures EncField(f, c).Some?
    decreases f, 2
  {
    if f.htype == Repeated {
      if f.ltype.Packable() { ScalarsEncode(f, c.items); } else { ItemsEncode(f, c.items); }
    } else if f.htype != Oneof || c.which == f.tag {
      ValueEncodes(f, c.v);
    }
  }

  lemma {:induction false} MessageEncodes(d: Desc, m: seq<Cell>, i: nat)
    requires WfDesc(d) && WfCells(d, m) && i <= |d.fields|
    ensures EncFrom(d, m, i).Some?
    decreases d, |d.fields| - i
  {
    hide *;
    if i < |d.fields| {
      WfParts(d, m, i);
      CellEncodes(d.fields[i], m[Slot(d.fields, i)]);
      MessageEncodes(d, m, i + 1);
      FromAppend(d, m, i);
    } else {
      FromEnd(d, m, {});
    }
  }

  lemma WfParts(d: Desc, m: seq<Cell>, i: nat)
    requires WfDesc(d) && WfCells(d, m) && i < |d.fields|
    ensures WfField(d.fields[i]) && Slot(d.fields, i) < |m| && WfCell(d.fields[i], m[Slot(d.fields, i)])
  {
    hide WfField, WfCell;
  }

  lemma FromAppend(d: Desc, m: seq<Cell>, i: nat)
    requires i < |d.fields| && Slot(d.fields, i) < |m|
    requires EncField(d.fields[i], m[Slot(d.fields, i)]).Some? && EncFrom(d, m, i + 1).Some?
    ensures EncFrom(d, m, i).Some?
  {
    hide EncField;
  }

  /** Every well-formed message is encoded; when the result is shorter than 2^32 bytes, pb_decode
      rebuilds the message from it. */
  lemma RoundTrip(d: Desc, m: seq<Cell>)
    requires WfDesc(d) && WfCells(d, m)
    ensures EncMessage(d, m).Some?
    ensures |EncMessage(d, m).value| < TWO_TO_THE_32 ==> DecodeFresh(d, EncMessage(d, m).value) == Got(m, [])
  {
    hide DecMessage, DefaultCells, WfDesc, WfCells;
    MessageEncodes(d, m, 0);
    if |EncMessage(d, m).value| < TWO_TO_THE_32 { MessageRoundTrip(d, m); }
  }

  /** Messages in delimited form are read one after the other. */
  lemma DelimitedRoundTrip(d: Desc, m: seq<Cell>, rest: seq<byte>)
    requires WfDesc(d) && WfCells(d, m)
    requires EncMessage(d, m).Some? && |EncMessage(d, m).value| < TWO_TO_THE_32
    ensures DecDelimited(d, DefaultCells(d), LengthPrefixed(EncMessage(d, m).value) + rest) == Got(m, rest)
  {
    hide DecMessage, DefaultCells, WfDesc, WfCells, SplitPrefixed, LengthPrefixed;
    MessageRoundTrip(d, m);
    SplitPrefixedRoundTrip(EncMessage(d, m).value, rest);
  }

  /** A string that fills its array leaves no room for the NUL: it is encoded, and the decoder
      rejects what was encoded. A string shorter than its array comes back. */
  lemma StringRoundTripExactly(f: Field, b: seq<byte>, rest: seq<byte>)
    requires f.ltype == StringT && 0 !in b && |b| <= f.dataSize && |b| < TWO_TO_THE_32
    ensures EncValue(f, VBytes(b)) == Some(LengthPrefixed(b))
    ensures DecValue(f, VNone, LengthPrefixed(b) + rest) == (if |b| < f.dataSize then Got(VBytes(b), rest) else Fail)
  {
    StrnLenWhole(b, f.dataSize);
    StrnLenWhole(b, |b|);
    assert b[..|b|] == b;
    SplitPrefixedRoundTrip(b, rest);
  }
}
