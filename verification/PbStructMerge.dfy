/** Merging two structs of a message type, and what decoding the encoding of one into the other gives. */
module PbStructMerge {
  import opened Bits
  import opened Wrappers
  import opened Varint
  import opened PbTypes
  import opened PbEncodeSpec
  import opened PbDecodeSpec
  import opened PbRoundTrip
  import opened PbMerge

  // ---------- merging values ----------

  /** Submessages are merged; any other value is replaced. */
  function MergedValue(f: Field, a: Value, b: Value): Value
    decreases f, 0
  {
    if f.ptr.SubFields? && a.VMsg? && b.VMsg? && |a.cells| == |b.cells| == Slots(f.ptr.desc.fields)
    then VMsg(Merged(f.ptr.desc, a.cells, b.cells))
    else b
  }

  /** A singular member that is present in b is merged into that of a, arrays are concatenated, and a union
      that is set in b replaces that of a, whatever member that held. */
  function MergedCell(f: Field, a: Cell, b: Cell): Cell
    decreases f, 1
  {
    match b
    case Plain(v) =>
      if !a.Plain? then b else if f.htype == Optional && IsDefault(f, b) then a else Plain(MergedValue(f, a.v, v))
    case Has(has, v) => if !a.Has? then b else if has then Has(true, MergedValue(f, a.v, v)) else a
    case Many(items) => if !a.Many? then b else Many(a.items + items)
    case Union(which, _) => if which == 0 then a else b
  }

  /** The members of the first n fields. */
  function MergedTo(d: Desc, a: seq<Cell>, b: seq<Cell>, n: nat): (m: seq<Cell>)
    requires n <= |d.fields| && |a| == |b| == Slots(d.fields)
    ensures |m| == if n == 0 then 0 else Slot(d.fields, n - 1) + 1
    decreases d, n
  {
    if n == 0 then []
    else if n > 1 && InUnion(d.fields[n - 2], d.fields[n - 1]) then MergedTo(d, a, b, n - 1)
    else
      SlotInRange(d.fields, n - 1);
      var s := Slot(d.fields, n - 1);
      MergedTo(d, a, b, n - 1) + [MergedCell(d.fields[n - 1], a[s], b[s])]
  }

  function Merged(d: Desc, a: seq<Cell>, b: seq<Cell>): (m: seq<Cell>)
    requires |a| == |b| == Slots(d.fields)
    ensures |m| == Slots(d.fields)
    decreases d, |d.fields| + 1
  {
    MergedTo(d, a, b, |d.fields|)
  }

  /** The arrays of a have room for the entries of b, down through the submessages present in both. */
  predicate Room(d: Desc, a: seq<Cell>, b: seq<Cell>)
    decreases d
  {
    forall i | 0 <= i < |d.fields| :: Slot(d.fields, i) < |a| && Slot(d.fields, i) < |b|
      && RoomFor(d.fields[i], a[Slot(d.fields, i)], b[Slot(d.fields, i)])
  }

  predicate RoomFor(f: Field, a: Cell, b: Cell)
    decreases f, 1
  {
    match b
    case Plain(v) => a.Plain? && !(f.htype == Optional && IsDefault(f, b)) ==> RoomIn(f, a.v, v)
    case Has(has, v) => has && a.Has? ==> RoomIn(f, a.v, v)
    case Many(items) => a.Many? ==> |a.items| + |items| <= f.arraySize
    case Union(_, _) => true
  }

  predicate RoomIn(f: Field, a: Value, b: Value)
    decreases f, 0
  {
    f.ptr.SubFields? && a.VMsg? && b.VMsg? ==> Room(f.ptr.desc, a.cells, b.cells)
  }

  // ---------- where a member ends up ----------

  lemma {:induction false} MergedToAt(d: Desc, a: seq<Cell>, b: seq<Cell>, n: nat, i: nat)
    requires i < n <= |d.fields| && |a| == |b| == Slots(d.fields)
    requires forall k | 0 <= k < |d.fields| && d.fields[k].htype == Oneof ::
      Slot(d.fields, k) < |b| && b[Slot(d.fields, k)].Union?
    ensures Slot(d.fields, i) < |MergedTo(d, a, b, n)| && Slot(d.fields, i) < |a|
    ensures MergedTo(d, a, b, n)[Slot(d.fields, i)] ==
      MergedCell(d.fields[i], a[Slot(d.fields, i)], b[Slot(d.fields, i)])
    decreases n
  {
    hide MergedValue, IsDefault;
    SlotInRange(d.fields, i);
    SlotMonotone(d.fields, i, n - 1);
    if i < n - 1 {
      MergedToAt(d, a, b, n - 1, i);
    } else if n > 1 && InUnion(d.fields[n - 2], d.fields[n - 1]) {
      MergedToAt(d, a, b, n - 1, n - 2);
    }
  }

  lemma MergedAt(d: Desc, a: seq<Cell>, b: seq<Cell>, i: nat)
    requires i < |d.fields| && |a| == Slots(d.fields) && WfCells(d, b)
    ensures Slot(d.fields, i) < |a| && |b| == Slots(d.fields)
    ensures Merged(d, a, b)[Slot(d.fields, i)] ==
      MergedCell(d.fields[i], a[Slot(d.fields, i)], b[Slot(d.fields, i)])
  {
    hide WfValue, DefaultOf, MergedCell;
    forall k | 0 <= k < |d.fields| && d.fields[k].htype == Oneof
      ensures Slot(d.fields, k) < |b| && b[Slot(d.fields, k)].Union?
    {
      assert WfCell(d.fields[k], b[Slot(d.fields, k)]);
    }
    MergedToAt(d, a, b, |d.fields|, i);
  }

  // ---------- one value ----------

  /** A value encoded from b is decoded into what the member holds. */
  lemma {:induction false} ValueMerges(f: Field, a: Value, b: Value, rest: seq<byte>)
    requires WfField(f) && (f.htype == Required || f.htype == Optional) && WfValue(f, a) && WfValue(f, b)
    requires RoomIn(f, a, b) && EncValue(f, b).Some? && |EncValue(f, b).value| < TWO_TO_THE_32
    ensures DecValue(f, a, EncValue(f, b).value + rest) == Got(MergedValue(f, a, b), rest)
    decreases f, 1
  {
    hide DecValue, EncValue, WfValue, Room, Merged, WfDesc;
    if f.ltype == SubmessageT { SubmessageMerges(f, a, b, rest); } else { ValueRoundTrip(f, a, b, rest); }
  }

  lemma SubmessageMerges(f: Field, a: Value, b: Value, rest: seq<byte>)
    requires WfField(f) && (f.htype == Required || f.htype == Optional) && WfValue(f, a) && WfValue(f, b)
    requires f.ltype == SubmessageT && EncValue(f, b).Some? && |EncValue(f, b).value| < TWO_TO_THE_32
    ensures DecValue(f, a, EncValue(f, b).value + rest) ==
      if RoomIn(f, a, b) then Got(MergedValue(f, a, b), rest) else Fail
    decreases f, 0
  {
    hide WfCells, WfDesc, Room, EncMessage, DecMessage, Merged, SplitPrefixed, EncodeVarint;
    assert |a.cells| == |b.cells| == Slots(f.ptr.desc.fields) by { CellsCount(f, a); CellsCount(f, b); }
    SplitPrefixedRoundTrip(EncMessage(f.ptr.desc, b.cells).value, rest);
    MessageMerges(f.ptr.desc, a.cells, b.cells);
  }

  lemma CellsCount(f: Field, v: Value)
    requires f.ltype == SubmessageT && WfValue(f, v)
    ensures f.ptr.SubFields? && v.VMsg? && |v.cells| == Slots(f.ptr.desc.fields)
  {
    hide WfCell, WfUnion;
  }

  /** One record of a singular field: the member has what the record says, merged into what it had. */
  lemma TaggedMerges(d: Desc, cur: seq<Cell>, seen: set<nat>, i: nat, a: Cell, b: Cell, tail: seq<byte>)
    requires WfDesc(d) && i < |d.fields| && Slot(d.fields, i) < |cur| && cur[Slot(d.fields, i)] == a
    requires d.fields[i].htype == Required || d.fields[i].htype == Optional
    requires WfCell(d.fields[i], a) && WfCell(d.fields[i], b) && RoomIn(d.fields[i], a.v, b.v)
      && (b.Has? ==> b.has)
    requires EncTagged(d.fields[i], b.v).Some? && |EncTagged(d.fields[i], b.v).value| < TWO_TO_THE_32
    ensures var v := MergedValue(d.fields[i], a.v, b.v);
      DecLoop(d, cur, seen, EncTagged(d.fields[i], b.v).value + tail)
        == DecLoop(d, cur[Slot(d.fields, i) := if b.Has? then Has(true, v) else Plain(v)], MarkSeen(d, i, seen), tail)
    decreases d, 0
  {
    hide DecLoop, EncTagged, EncValue, DecValue, WfValue, MergedValue, RoomIn;
    var f := d.fields[i];
    DescField(d, i);
    NotExtension(f);
    EncTaggedParts(f, b.v, tail);
    ValueMerges(f, a.v, b.v, tail);
    WireSmall(f);
    var v := MergedValue(f, a.v, b.v);
    RecordStep(d, cur, seen, i, PlainWire(f), EncValue(f, b.v).value + tail,
               if b.Has? then Has(true, v) else Plain(v), tail);
  }

  /** The entries of b's array behind those of a. */
  lemma ArrayMerges(d: Desc, cur: seq<Cell>, seen: set<nat>, i: nat, prior: seq<Value>, items: seq<Value>,
      tail: seq<byte>)
    requires WfDesc(d) && i < |d.fields| && Slot(d.fields, i) < |cur| && d.fields[i].htype == Repeated
    requires cur[Slot(d.fields, i)] == Many(prior) && WfCell(d.fields[i], Many(items))
    requires |prior| + |items| <= d.fields[i].arraySize
    requires EncArray(d.fields[i], items).Some? && |EncArray(d.fields[i], items).value| < TWO_TO_THE_32
    ensures DecLoop(d, cur, seen, EncArray(d.fields[i], items).value + tail)
         == DecLoop(d, cur[Slot(d.fields, i) := Many(prior + items)], seen, tail)
  {
    hide DecLoop, WfField, WfValue, EncScalars, EncItems, Tag;
    var f, s := d.fields[i], Slot(d.fields, i);
    if items == [] {
      assert [] + tail == tail && prior + [] == prior && cur[s := Many(prior)] == cur;
    } else if f.ltype.Packable() {
      PackedMerges(d, cur, seen, i, prior, items, tail);
    } else {
      ItemsRoundTrip(d, cur, seen, i, prior, items, tail);
    }
  }

  lemma PackedMerges(d: Desc, cur: seq<Cell>, seen: set<nat>, i: nat, prior: seq<Value>, items: seq<Value>,
      tail: seq<byte>)
    requires WfDesc(d) && i < |d.fields| && Slot(d.fields, i) < |cur| && d.fields[i].htype == Repeated
    requires cur[Slot(d.fields, i)] == Many(prior) && d.fields[i].ltype.Packable() && items != []
    requires |prior| + |items| <= d.fields[i].arraySize
    requires EncArray(d.fields[i], items).Some? && |EncArray(d.fields[i], items).value| < TWO_TO_THE_32
    ensures DecLoop(d, cur, seen, EncArray(d.fields[i], items).value + tail)
         == DecLoop(d, cur[Slot(d.fields, i) := Many(prior + items)], seen, tail)
  {
    hide DecLoop, Tag, SplitPrefixed, DecPacked, EncScalars;
    var f := d.fields[i];
    var e := EncScalars(f, items).value;
    PackedRoundTrip(f, prior, items);
    SplitPrefixedRoundTrip(e, tail);
    var bs := LengthPrefixed(e) + tail;
    assert DecField(f, Many(prior), WT_STRING, bs) == Got(Many(prior + items), tail);
    RecordStep(d, cur, seen, i, WT_STRING, bs, Many(prior + items), tail);
    assert EncArray(f, items).value + tail == Tag(WT_STRING, f.tag) + bs;
  }

  // ---------- whole messages ----------

  /** cur is the receiver's struct a after fields 0 .. i-1 of b. */
  ghost predicate Merging(d: Desc, a: seq<Cell>, b: seq<Cell>, cur: seq<Cell>, i: nat)
    requires i <= |d.fields|
  {
    && |cur| == |a| == |b| == Slots(d.fields)
    && forall k | 0 <= k < |d.fields| :: Slot(d.fields, k) < |a| && CellMerging(d, a, b, cur, i, k)
  }

  ghost predicate CellMerging(d: Desc, a: seq<Cell>, b: seq<Cell>, cur: seq<Cell>, i: nat, k: nat)
    requires i <= |d.fields| && k < |d.fields| && Slot(d.fields, k) < |a| == |b| == |cur|
  {
    var s := Slot(d.fields, k);
    if d.fields[k].htype != Oneof then cur[s] == if k < i then MergedCell(d.fields[k], a[s], b[s]) else a[s]
    else
      || (cur[s] == b[s] && b[s].Union? && b[s].which != 0)
      || (cur[s] == a[s] && forall j | 0 <= j < i && Slot(d.fields, j) == s :: !Named(d, b, j))
  }

  /** The struct after field i. */
  ghost function AfterField(d: Desc, a: seq<Cell>, b: seq<Cell>, cur: seq<Cell>, i: nat): seq<Cell>
    requires i < |d.fields| && Slot(d.fields, i) < |a| == |b| == |cur|
  {
    var s := Slot(d.fields, i);
    if d.fields[i].htype != Oneof then cur[s := MergedCell(d.fields[i], a[s], b[s])]
    else if Named(d, b, i) then cur[s := b[s]] else cur
  }

  lemma CellMergingStep(d: Desc, a: seq<Cell>, b: seq<Cell>, cur: seq<Cell>, i: nat, k: nat)
    requires i < |d.fields| && k < |d.fields| && Slot(d.fields, i) < |a| == |b| == |cur| && Slot(d.fields, k) < |a|
    requires d.fields[i].tag >= 1 && CellMerging(d, a, b, cur, i, k)
    ensures CellMerging(d, a, b, AfterField(d, a, b, cur, i), i + 1, k)
  {
    hide MergedCell;
    if Slot(d.fields, k) == Slot(d.fields, i) {
      if k < i { SameSlotIsOneof(d.fields, k, i); } else if i < k { SameSlotIsOneof(d.fields, i, k); }
    }
  }

  lemma MergingStep(d: Desc, a: seq<Cell>, b: seq<Cell>, cur: seq<Cell>, i: nat)
    requires WfDesc(d) && i < |d.fields| && Merging(d, a, b, cur, i)
    ensures Merging(d, a, b, AfterField(d, a, b, cur, i), i + 1)
  {
    hide WfField, MergedCell, Named;
    DescField(d, i);
    NotExtension(d.fields[i]);
    var next := AfterField(d, a, b, cur, i);
    assert |next| == |cur|;
    forall k | 0 <= k < |d.fields|
      ensures Slot(d.fields, k) < |a| && CellMerging(d, a, b, next, i + 1, k)
    {
      assert CellMerging(d, a, b, cur, i, k);
      CellMergingStep(d, a, b, cur, i, k);
    }
  }

  lemma MergingStarts(d: Desc, a: seq<Cell>, b: seq<Cell>)
    requires |a| == |b| == Slots(d.fields)
    ensures Merging(d, a, b, a, 0)
  {
    forall k | 0 <= k < |d.fields| ensures Slot(d.fields, k) < |a| && CellMerging(d, a, b, a, 0, k) {
      SlotInRange(d.fields, k);
    }
  }

  lemma MergingEnds(d: Desc, a: seq<Cell>, b: seq<Cell>, cur: seq<Cell>)
    requires WfDesc(d) && WfCells(d, b) && Merging(d, a, b, cur, |d.fields|)
    ensures cur == Merged(d, a, b)
  {
    hide WfDesc, WfCells, Merged;
    forall k | 0 <= k < |d.fields|
      ensures Slot(d.fields, k) < |cur| && cur[Slot(d.fields, k)] == Merged(d, a, b)[Slot(d.fields, k)]
    {
      assert CellMerging(d, a, b, cur, |d.fields|, k);
      MergedAt(d, a, b, k);
      UnionEnds(d, b, k);
    }
    SameCells(d, cur, Merged(d, a, b));
  }

  /** A union is empty or one of its fields is named. */
  lemma UnionEnds(d: Desc, b: seq<Cell>, k: nat)
    requires WfDesc(d) && WfCells(d, b) && k < |d.fields|
    ensures Slot(d.fields, k) < |b|
    ensures var s := Slot(d.fields, k);
      d.fields[k].htype == Oneof ==>
        && b[s].Union?
        && if b[s].which == 0 then forall j | 0 <= j < |d.fields| && Slot(d.fields, j) == s :: !Named(d, b, j)
           else exists j | 0 <= j < |d.fields| :: Slot(d.fields, j) == s && Named(d, b, j)
  {
    hide WfValue, DefaultOf, WfField;
    assert WfCell(d.fields[k], b[Slot(d.fields, k)]) && WfUnion(d, b, k);
    forall j | 0 <= j < |d.fields| ensures d.fields[j].tag >= 1 {
      DescField(d, j);
      NotExtension(d.fields[j]);
    }
  }

  lemma UnionKnown(d: Desc, m: seq<Cell>, i: nat)
    requires WfDesc(d) && WfCells(d, m) && i < |d.fields|
    ensures Slot(d.fields, i) < |m| && UnionTagOk(d, d.fields[i], m[Slot(d.fields, i)])
  {
    hide WfValue, DefaultOf, WfField, FindTag;
    assert WfUnion(d, m, i);
    var c := m[Slot(d.fields, i)];
    if d.fields[i].htype == Oneof && c.Union? && c != Union(0, VNone) {
      var j :| 0 <= j < |d.fields| && Slot(d.fields, j) == Slot(d.fields, i) && d.fields[j].tag == c.which;
      DescField(d, j);
      NotExtension(d.fields[j]);
      FindTagUnique(d.fields, j);
    }
  }

  /** Decoding what was encoded for field i of b. */
  lemma FieldMerges(d: Desc, a: seq<Cell>, b: seq<Cell>, cur: seq<Cell>, seen: set<nat>, i: nat, tail: seq<byte>)
    requires WfDesc(d) && WfCells(d, a) && WfCells(d, b) && i < |d.fields| && Merging(d, a, b, cur, i)
    requires RoomFor(d.fields[i], a[Slot(d.fields, i)], b[Slot(d.fields, i)])
    requires EncField(d.fields[i], b[Slot(d.fields, i)]).Some?
    requires |EncField(d.fields[i], b[Slot(d.fields, i)]).value| < TWO_TO_THE_32
    ensures DecLoop(d, cur, seen, EncField(d.fields[i], b[Slot(d.fields, i)]).value + tail)
         == DecLoop(d, AfterField(d, a, b, cur, i), MarkSeen(d, i, seen), tail)
    decreases d, 1
  {
    hide DecLoop, EncTagged, EncArray, WfValue, WfField, IsDefault, MergedValue, DefaultOf, UnionTagOk, RoomIn;
    var f, s := d.fields[i], Slot(d.fields, i);
    assert WfCell(f, a[s]) && WfCell(f, b[s]) && CellMerging(d, a, b, cur, i, i);
    if EncField(f, b[s]).value == [] {
      FieldAbsent(d, a, b, cur, i, seen);
      assert [] + tail == tail;
    } else if f.htype == Oneof {
      UnionKnown(d, a, i);
      UnionKnown(d, b, i);
      TaggedRoundTrip(d, cur, seen, i, if f.ltype.SubmessageT? then DefaultOf(f) else VNone, b[s], tail);
    } else if f.htype == Repeated {
      ArrayMerges(d, cur, seen, i, a[s].items, b[s].items, tail);
    } else {
      TaggedMerges(d, cur, seen, i, a[s], b[s], tail);
    }
  }

  /** A field that is not written leaves the struct alone. */
  lemma FieldAbsent(d: Desc, a: seq<Cell>, b: seq<Cell>, cur: seq<Cell>, i: nat, seen: set<nat>)
    requires i < |d.fields| && Slot(d.fields, i) < |a| == |b| == |cur|
    requires WfCell(d.fields[i], a[Slot(d.fields, i)]) && WfCell(d.fields[i], b[Slot(d.fields, i)])
    requires CellMerging(d, a, b, cur, i, i) && EncField(d.fields[i], b[Slot(d.fields, i)]) == Some([])
    ensures AfterField(d, a, b, cur, i) == cur && MarkSeen(d, i, seen) == seen
  {
    hide EncArray, WfValue, IsDefault, MergedValue, DefaultOf;
    var f, s := d.fields[i], Slot(d.fields, i);
    assert cur[s := cur[s]] == cur;
    TaggedNotEmpty(f, if b[s].Many? then VNone else b[s].v);
    if f.htype == Repeated { ArrayNotEmpty(f, b[s].items); assert a[s].items + [] == a[s].items; }
  }

  /** Fields i and later have room. */
  predicate RoomFrom(d: Desc, a: seq<Cell>, b: seq<Cell>, i: nat) {
    forall k | i <= k < |d.fields| :: Slot(d.fields, k) < |a| && Slot(d.fields, k) < |b|
      && RoomFor(d.fields[k], a[Slot(d.fields, k)], b[Slot(d.fields, k)])
  }

  lemma RoomSplit(d: Desc, a: seq<Cell>, b: seq<Cell>, i: nat)
    requires |a| == |b| == Slots(d.fields)
    ensures RoomFrom(d, a, b, |d.fields|) && (RoomFrom(d, a, b, 0) <==> Room(d, a, b))
    ensures i < |d.fields| ==>
      && Slot(d.fields, i) < |a|
      && (RoomFrom(d, a, b, i) <==>
          RoomFor(d.fields[i], a[Slot(d.fields, i)], b[Slot(d.fields, i)]) && RoomFrom(d, a, b, i + 1))
  {
    hide RoomFor, Slot, Slots;
    forall k | 0 <= k < |d.fields| ensures Slot(d.fields, k) < |a| { SlotInRange(d.fields, k); }
  }

  lemma {:induction false} FromMerges(d: Desc, a: seq<Cell>, b: seq<Cell>, cur: seq<Cell>, seen: set<nat>, i: nat)
    requires WfDesc(d) && WfCells(d, a) && WfCells(d, b) && i <= |d.fields|
    requires Merging(d, a, b, cur, i) && EncFrom(d, b, i).Some? && |EncFrom(d, b, i).value| < TWO_TO_THE_32
    ensures |a| == |b| == Slots(d.fields)
    ensures DecLoop(d, cur, seen, EncFrom(d, b, i).value) ==
      if RoomFrom(d, a, b, i) then Done(Merged(d, a, b), SeenFrom(d, i, seen), [], false) else Bad
    decreases d, 2, |d.fields| - i
  {
    hide *;
    MergingCounts(d, a, b, cur, i);
    RoomSplit(d, a, b, i);
    if i == |d.fields| {
      MergingEnds(d, a, b, cur);
      FromEnd(d, b, seen);
      FromEnd(d, cur, seen);
    } else {
      FromSplit(d, b, i, seen);
      var tail := EncFrom(d, b, i + 1).value;
      if RoomFor(d.fields[i], a[Slot(d.fields, i)], b[Slot(d.fields, i)]) {
        FieldMerges(d, a, b, cur, seen, i, tail);
        MergingStep(d, a, b, cur, i);
        FromMerges(d, a, b, AfterField(d, a, b, cur, i), MarkSeen(d, i, seen), i + 1);
      } else {
        FieldOverflows(d, a, b, cur, seen, i, tail);
      }
    }
  }

  lemma MergingCounts(d: Desc, a: seq<Cell>, b: seq<Cell>, cur: seq<Cell>, i: nat)
    requires i <= |d.fields| && Merging(d, a, b, cur, i)
    ensures |cur| == |a| == |b| == Slots(d.fields)
  {
  }

  /** Main theorem: the encoding of b is decoded into a exactly if the arrays have room, and then gives the two
      merged. */
  lemma {:induction false} MessageMerges(d: Desc, a: seq<Cell>, b: seq<Cell>)
    requires WfDesc(d) && WfCells(d, a) && WfCells(d, b)
    requires EncMessage(d, b).Some? && |EncMessage(d, b).value| < TWO_TO_THE_32
    ensures |a| == |b| == Slots(d.fields)
    ensures DecMessage(d, a, EncMessage(d, b).value) == if Room(d, a, b) then Got(Merged(d, a, b), []) else Fail
    ensures DecLoop(d, a, {}, EncMessage(d, b).value).Bad? <==> !Room(d, a, b)
    decreases d, 3
  {
    hide Merged, EncFrom, DecLoop, WfCell, WfUnion, Room, RoomFrom, WfDesc, Merging;
    MergingStarts(d, a, b);
    FromMerges(d, a, b, a, {}, 0);
    RoomSplit(d, a, b, 0);
    SeenFromAll(d, 0, {});
  }

  /** So two encodings one after the other are the encoding of the two merged: of a member in both the last
      one wins, submessages are merged, and arrays are concatenated. */
  lemma TwoMessages(d: Desc, a: seq<Cell>, b: seq<Cell>)
    requires WfDesc(d) && WfCells(d, a) && WfCells(d, b) && EncMessage(d, a).Some? && EncMessage(d, b).Some?
    requires |EncMessage(d, a).value| < TWO_TO_THE_32 && |EncMessage(d, b).value| < TWO_TO_THE_32
    ensures |a| == |b| == Slots(d.fields)
    ensures DecodeFresh(d, EncMessage(d, a).value + EncMessage(d, b).value) ==
      if Room(d, a, b) then Got(Merged(d, a, b), []) else Fail
  {
    hide Merged, EncFrom, DecLoop, WfCell, WfUnion, Room, WfDesc, DecMessage, WfCells, Progress;
    var m0, e := DefaultCells(d), EncMessage(d, a).value;
    MessageRoundTrip(d, a);
    ProgressStarts(d, a);
    FromRoundTrip(d, a, m0, {}, 0);
    MergeByConcatenation(d, m0, e, a, [], EncMessage(d, b).value);
    MessageMerges(d, a, b);
  }

  // ---------- no room ----------

  lemma {:induction false} ItemsOverflow(d: Desc, cur: seq<Cell>, seen: set<nat>, i: nat,
      prior: seq<Value>, items: seq<Value>, tail: seq<byte>)
    requires WfDesc(d) && i < |d.fields| && Slot(d.fields, i) < |cur|
    requires d.fields[i].htype == Repeated && !d.fields[i].ltype.Packable()
    requires cur[Slot(d.fields, i)] == Many(prior) && |prior| <= d.fields[i].arraySize < |prior| + |items|
    requires forall k | 0 <= k < |items| :: WfValue(d.fields[i], items[k])
    requires EncItems(d.fields[i], items).Some? && |EncItems(d.fields[i], items).value| < TWO_TO_THE_32
    ensures DecLoop(d, cur, seen, EncItems(d.fields[i], items).value + tail).Bad?
    decreases |items|
  {
    hide DecLoop, EncTagged, EncValue, DecValue, WfField, WfValue, Tag;
    var f, s := d.fields[i], Slot(d.fields, i);
    var es := EncItems(f, items[1..]).value;
    assert EncItems(f, items).value + tail == EncTagged(f, items[0]).value + (es + tail);
    if |prior| == f.arraySize {
      DescField(d, i);
      NotExtension(f);
      EncTaggedParts(f, items[0], es + tail);
      WireSmall(f);
      RecordFails(d, cur, seen, i, PlainWire(f), EncValue(f, items[0]).value + (es + tail));
    } else {
      ItemRoundTrip(d, cur, seen, i, prior, items[0], es + tail);
      ItemsOverflow(d, cur[s := Many(prior + [items[0]])], seen, i, prior + [items[0]], items[1..], tail);
    }
  }

  lemma {:induction false} ScalarsOverflow(f: Field, prior: seq<Value>, items: seq<Value>)
    requires |prior| <= f.arraySize < |prior| + |items| && EncScalars(f, items).Some?
    ensures DecPacked(f, prior, EncScalars(f, items).value).None?
    decreases |items|
  {
    hide EncScalar, EncScalars, DecPacked;
    ScalarsSplit(f, items);
    if |prior| == f.arraySize {
      ScalarNotEmpty(f, items[0]);
      FullPacked(f, prior, EncScalars(f, items).value);
    } else {
      PackedStep(f, prior, items[0], EncScalars(f, items[1..]).value);
      ScalarsOverflow(f, prior + [items[0]], items[1..]);
    }
  }

  lemma ScalarNotEmpty(f: Field, v: Value)
    requires EncScalar(f, v).Some?
    ensures EncScalar(f, v).value != []
  {
    hide EncScalar, DecScalar;
    ScalarRoundTrip(f, v, []);
  }

  lemma FullPacked(f: Field, prior: seq<Value>, bs: seq<byte>)
    requires |prior| == f.arraySize && bs != []
    ensures DecPacked(f, prior, bs).None?
  {
    hide DecScalar;
  }

  lemma ArrayOverflows(d: Desc, cur: seq<Cell>, seen: set<nat>, i: nat, prior: seq<Value>, items: seq<Value>,
      tail: seq<byte>)
    requires WfDesc(d) && i < |d.fields| && Slot(d.fields, i) < |cur| && d.fields[i].htype == Repeated
    requires cur[Slot(d.fields, i)] == Many(prior) && WfCell(d.fields[i], Many(items))
    requires |prior| <= d.fields[i].arraySize < |prior| + |items|
    requires EncArray(d.fields[i], items).Some? && |EncArray(d.fields[i], items).value| < TWO_TO_THE_32
    ensures DecLoop(d, cur, seen, EncArray(d.fields[i], items).value + tail).Bad?
  {
    hide DecLoop, WfField, WfValue, EncScalars, EncItems, Tag, DecPacked, SplitPrefixed;
    var f := d.fields[i];
    if f.ltype.Packable() {
      var e := EncScalars(f, items).value;
      ScalarsOverflow(f, prior, items);
      SplitPrefixedRoundTrip(e, tail);
      RecordFails(d, cur, seen, i, WT_STRING, LengthPrefixed(e) + tail);
      assert EncArray(f, items).value + tail == Tag(WT_STRING, f.tag) + (LengthPrefixed(e) + tail);
    } else {
      ItemsOverflow(d, cur, seen, i, prior, items, tail);
    }
  }

  lemma TaggedOverflows(d: Desc, cur: seq<Cell>, seen: set<nat>, i: nat, a: Cell, b: Cell, tail: seq<byte>)
    requires WfDesc(d) && i < |d.fields| && Slot(d.fields, i) < |cur| && cur[Slot(d.fields, i)] == a
    requires d.fields[i].htype == Required || d.fields[i].htype == Optional
    requires WfCell(d.fields[i], a) && WfCell(d.fields[i], b) && !RoomIn(d.fields[i], a.v, b.v)
    requires EncTagged(d.fields[i], b.v).Some? && |EncTagged(d.fields[i], b.v).value| < TWO_TO_THE_32
    ensures DecLoop(d, cur, seen, EncTagged(d.fields[i], b.v).value + tail).Bad?
    decreases d, 0
  {
    hide DecLoop, EncTagged, EncValue, DecValue, WfValue, Room;
    var f := d.fields[i];
    DescField(d, i);
    NotExtension(f);
    EncTaggedParts(f, b.v, tail);
    SubmessageMerges(f, a.v, b.v, tail);
    WireSmall(f);
    RecordFails(d, cur, seen, i, PlainWire(f), EncValue(f, b.v).value + tail);
  }

  /** A field without room is rejected. */
  lemma FieldOverflows(d: Desc, a: seq<Cell>, b: seq<Cell>, cur: seq<Cell>, seen: set<nat>, i: nat, tail: seq<byte>)
    requires WfDesc(d) && WfCells(d, a) && WfCells(d, b) && i < |d.fields| && Merging(d, a, b, cur, i)
    requires !RoomFor(d.fields[i], a[Slot(d.fields, i)], b[Slot(d.fields, i)])
    requires EncField(d.fields[i], b[Slot(d.fields, i)]).Some?
    requires |EncField(d.fields[i], b[Slot(d.fields, i)]).value| < TWO_TO_THE_32
    ensures DecLoop(d, cur, seen, EncField(d.fields[i], b[Slot(d.fields, i)]).value + tail).Bad?
    decreases d, 1
  {
    hide DecLoop, EncTagged, EncArray, WfValue, WfField, IsDefault, DefaultOf, RoomIn, MergedCell;
    var f, s := d.fields[i], Slot(d.fields, i);
    assert WfCell(f, a[s]) && WfCell(f, b[s]) && CellMerging(d, a, b, cur, i, i);
    if f.htype == Repeated {
      ArrayOverflows(d, cur, seen, i, a[s].items, b[s].items, tail);
    } else {
      TaggedOverflows(d, cur, seen, i, a[s], b[s], tail);
    }
  }

  // ---------- any payload ----------

  /** The cell is of the kind of the field. */
  predicate Shaped(f: Field, c: Cell) {
    match f.htype
    case Required => c.Plain?
    case Optional => if f.sizeOffset != 0 then c.Has? else c.Plain?
    case Repeated => c.Many?
    case Oneof => c.Union?
  }

  /** The last one wins: what a record leaves in a singular field that is no submessage, or in a union, does
      not depend on what was there, and is present. */
  lemma LastOneWins(f: Field, a: Cell, b: Cell, wt: nat, bs: seq<byte>)
    requires Shaped(f, a) && Shaped(f, b) && f.htype != Repeated && (f.htype == Oneof || f.ltype != SubmessageT)
    ensures DecField(f, a, wt, bs) == DecField(f, b, wt, bs)
    ensures var r := DecField(f, a, wt, bs);
      r.Got? ==> match r.value
        case Plain(_) => true
        case Has(has, _) => has
        case Many(_) => false
        case Union(which, _) => which == f.tag
  {
    hide SplitPrefixed, DecScalar, DefaultOf;
  }

  /** A submessage is decoded into what a singular field holds, but an array entry and a member of a union
      start from the defaults, whatever the array or the union holds. */
  lemma SubmessageStarts(f: Field, c: Cell, wt: nat, s: seq<byte>, rest: seq<byte>)
    requires WfField(f) && f.ltype == SubmessageT && Shaped(f, c) && |s| < TWO_TO_THE_32
    requires f.htype == Required || f.htype == Optional ==>
      c.v.VMsg? && |c.v.cells| == Slots(f.ptr.desc.fields)
    ensures var start := if f.htype == Repeated || f.htype == Oneof then DefaultCells(f.ptr.desc) else c.v.cells;
      var r := DecMessage(f.ptr.desc, start, s);
      DecField(f, c, wt, LengthPrefixed(s) + rest) ==
        if r.Fail? || (f.htype == Repeated && |c.items| >= f.arraySize) then Fail
        else
          var v := VMsg(r.value);
          Got(match f.htype
              case Required => Plain(v)
              case Optional => if f.sizeOffset != 0 then Has(true, v) else Plain(v)
              case Repeated => Many(c.items + [v])
              case Oneof => Union(f.tag, v), rest)
  {
    hide SplitPrefixed, DecMessage, DefaultCells, WfDesc, LengthPrefixed;
    SplitPrefixedRoundTrip(s, rest);
  }

  /** The wire type of a known field is not looked at, except to tell packed runs. */
  lemma WireTypeIgnored(f: Field, c: Cell, wt: nat, wt': nat, bs: seq<byte>)
    requires f.htype != Repeated || !f.ltype.Packable() || (wt != WT_STRING && wt' != WT_STRING)
    ensures DecField(f, c, wt, bs) == DecField(f, c, wt', bs)
  {
    hide DecValue, DecPacked, SplitPrefixed;
  }

  /** A union whose which_ tag names no field of the message cannot be overwritten. */
  lemma StaleUnionFails(d: Desc, m: seq<Cell>, i: nat, wt: nat, bs: seq<byte>)
    requires WfDesc(d) && i < |d.fields| && d.fields[i].htype == Oneof && Slot(d.fields, i) < |m|
    requires var c := m[Slot(d.fields, i)];
      c.Union? && c.which != 0 && forall k | 0 <= k < |d.fields| :: d.fields[k].tag != c.which
    ensures DecRecord(d, m, d.fields[i].tag, wt, bs).Fail?
  {
    hide DecField, WfField;
    DescField(d, i);
    NotExtension(d.fields[i]);
    FindTagUnique(d.fields, i);
  }
}
