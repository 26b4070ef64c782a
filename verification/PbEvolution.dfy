/** Decoding with an older message type what a newer one encoded. */
module PbEvolution {
  import opened Bits
  import opened Wrappers
  import opened Varint
  import opened PbTypes
  import opened PbEncodeSpec
  import opened PbDecodeSpec
  import opened PbRoundTrip
  import opened PbMerge

  /** The same field, at another place in the struct. */
  predicate SameField(f: Field, g: Field) {
    && g == f.(dataOffset := g.dataOffset, sizeOffset := g.sizeOffset)
    && (f.sizeOffset == 0 <==> g.sizeOffset == 0)
  }

  /** Where the newer type has field k of the older one. */
  function Place(d: Desc, d2: Desc, k: nat): (i: nat)
    requires k < |d.fields|
    ensures i <= |d2.fields|
  {
    FindTag(d2.fields, d.fields[k].tag)
  }

  /** d2 has the fields of d in the same order and in the same unions, among new ones. */
  predicate Extends(d: Desc, d2: Desc) {
    && (forall k | 0 <= k < |d.fields| ::
          Place(d, d2, k) < |d2.fields| && SameField(d.fields[k], d2.fields[Place(d, d2, k)]))
    && (forall j, k | 0 <= j < k < |d.fields| :: Place(d, d2, j) < Place(d, d2, k))
    && (forall j, k | 0 <= j < |d.fields| && 0 <= k < |d.fields| :: SameUnions(d, d2, j, k))
  }

  predicate SameUnions(d: Desc, d2: Desc, j: nat, k: nat)
    requires j < |d.fields| && k < |d.fields|
  {
    Place(d, d2, j) < |d2.fields| && Place(d, d2, k) < |d2.fields| ==>
      (Slot(d.fields, j) == Slot(d.fields, k) <==>
       Slot(d2.fields, Place(d, d2, j)) == Slot(d2.fields, Place(d, d2, k)))
  }

  /** What the older type has for a member: a union that holds a new member looks empty. */
  function ViewOf(d: Desc, c: Cell): Cell {
    if c.Union? && FindTag(d.fields, c.which) == |d.fields| then Union(0, VNone) else c
  }

  /** The struct m shows every field of d as m2 has it. */
  predicate Shows(d: Desc, m: seq<Cell>, d2: Desc, m2: seq<Cell>) {
    |m| == Slots(d.fields) && forall k | 0 <= k < |d.fields| :: ShowsField(d, m, d2, m2, k)
  }

  predicate ShowsField(d: Desc, m: seq<Cell>, d2: Desc, m2: seq<Cell>, k: nat)
    requires k < |d.fields|
  {
    && Place(d, d2, k) < |d2.fields| && Slot(d2.fields, Place(d, d2, k)) < |m2| && Slot(d.fields, k) < |m|
    && m[Slot(d.fields, k)] == ViewOf(d, m2[Slot(d2.fields, Place(d, d2, k))])
  }

  // ---------- the struct as the older type sees it ----------

  lemma PlaceSlot(d: Desc, d2: Desc, m2: seq<Cell>, k: nat)
    requires Extends(d, d2) && WfCells(d2, m2) && k < |d.fields|
    ensures Place(d, d2, k) < |d2.fields| && Slot(d2.fields, Place(d, d2, k)) < |m2|
    ensures SameField(d.fields[k], d2.fields[Place(d, d2, k)])
  {
  }

  lemma {:induction false} ViewTo(d: Desc, d2: Desc, m2: seq<Cell>, n: nat) returns (m: seq<Cell>)
    requires Extends(d, d2) && WfCells(d2, m2) && n <= |d.fields|
    ensures |m| == if n == 0 then 0 else Slot(d.fields, n - 1) + 1
    ensures forall k | 0 <= k < n :: ShowsField(d, m, d2, m2, k)
  {
    hide Extends, WfCells, Place, ViewOf;
    m := [];
    if n > 0 {
      m := ViewTo(d, d2, m2, n - 1);
      PlaceSlot(d, d2, m2, n - 1);
      if n > 1 && InUnion(d.fields[n - 2], d.fields[n - 1]) {
        assert ShowsField(d, m, d2, m2, n - 2);
        PlaceSlot(d, d2, m2, n - 2);
        assert SameUnions(d, d2, n - 2, n - 1) by { SameUnionsOf(d, d2, n - 2, n - 1); }
      } else {
        ghost var c := ViewOf(d, m2[Slot(d2.fields, Place(d, d2, n - 1))]);
        forall k | 0 <= k < n ensures ShowsField(d, m + [c], d2, m2, k) {
          if k < n - 1 { assert ShowsField(d, m, d2, m2, k); }
        }
        m := m + [c];
      }
    }
  }

  lemma SameUnionsOf(d: Desc, d2: Desc, j: nat, k: nat)
    requires Extends(d, d2) && j < |d.fields| && k < |d.fields|
    ensures SameUnions(d, d2, j, k)
  {
  }

  lemma SameWf(f: Field, g: Field, c: Cell)
    requires SameField(f, g) && WfField(f)
    ensures DefaultOf(f) == DefaultOf(g)
    ensures WfCell(f, c) <==> WfCell(g, c)
  {
    hide WfCells, WfDesc, DefaultCells;
    assert forall v :: WfValue(f, v) <==> WfValue(g, v);
  }

  /** A member as the older type sees it is a member of that type. */
  lemma ShownIsWf(d: Desc, m: seq<Cell>, d2: Desc, m2: seq<Cell>, k: nat)
    requires WfDesc(d) && WfCells(d2, m2) && Extends(d, d2) && k < |d.fields| && ShowsField(d, m, d2, m2, k)
    ensures WfCell(d.fields[k], m[Slot(d.fields, k)])
  {
    hide WfCell, WfField, WfUnion, Extends, SameField, FindTag, ViewOf;
    var f, i := d.fields[k], Place(d, d2, k);
    PlaceSlot(d, d2, m2, k);
    DescField(d, k);
    SameWf(f, d2.fields[i], m2[Slot(d2.fields, i)]);
    ViewIsWf(d, f, m2[Slot(d2.fields, i)]);
  }

  lemma ViewIsWf(d: Desc, f: Field, c: Cell)
    requires WfField(f) && WfCell(f, c)
    ensures WfCell(f, ViewOf(d, c))
  {
    hide WfValue, WfDesc, DefaultOf, FindTag;
  }

  lemma UnionIsWf(d: Desc, m: seq<Cell>, d2: Desc, m2: seq<Cell>, k: nat)
    requires WfDesc(d) && WfDesc(d2) && WfCells(d2, m2) && Extends(d, d2) && k < |d.fields|
    requires ShowsField(d, m, d2, m2, k)
    ensures WfUnion(d, m, k)
  {
    var was := m[Slot(d.fields, k)];
    if d.fields[k].htype == Oneof && was.Union? && was != Union(0, VNone) { NamedIsKnown(d, m, d2, m2, k); }
  }

  lemma NamedIsKnown(d: Desc, m: seq<Cell>, d2: Desc, m2: seq<Cell>, k: nat)
    requires WfDesc(d) && WfDesc(d2) && WfCells(d2, m2) && Extends(d, d2) && k < |d.fields|
    requires d.fields[k].htype == Oneof && ShowsField(d, m, d2, m2, k)
    requires m[Slot(d.fields, k)].Union? && m[Slot(d.fields, k)] != Union(0, VNone)
    ensures exists j | 0 <= j < |d.fields| ::
      Slot(d.fields, j) == Slot(d.fields, k) && d.fields[j].tag == m[Slot(d.fields, k)].which
  {
    hide WfCell, WfField, Extends, SameField, FindTag;
    var i := Place(d, d2, k);
    var c := m2[Slot(d2.fields, i)];
    PlaceSlot(d, d2, m2, k);
    var k' := FindTag(d.fields, c.which);
    assert k' < |d.fields| && d.fields[k'].tag == c.which;
    assert d2.fields[i].htype == Oneof by { SameParts(d.fields[k], d2.fields[i]); }
    assert WfUnion(d2, m2, i);
    var j :| 0 <= j < |d2.fields| && Slot(d2.fields, j) == Slot(d2.fields, i) && d2.fields[j].tag == c.which;
    DescField(d2, j);
    NotExtension(d2.fields[j]);
    FindTagUnique(d2.fields, j);
    SameUnionsOf(d, d2, k, k');
  }

  lemma SameParts(f: Field, g: Field)
    requires SameField(f, g)
    ensures f.htype == g.htype && f.tag == g.tag && f.ltype == g.ltype && f.arraySize == g.arraySize
    ensures f.sizeOffset == 0 <==> g.sizeOffset == 0
  {
  }

  lemma ShownInRange(d: Desc, m: seq<Cell>, d2: Desc, m2: seq<Cell>, k: nat)
    requires k < |d.fields| && ShowsField(d, m, d2, m2, k)
    ensures Slot(d.fields, k) < |m|
  {
  }

  lemma ShownWf(d: Desc, m: seq<Cell>, d2: Desc, m2: seq<Cell>)
    requires WfDesc(d) && WfDesc(d2) && WfCells(d2, m2) && Extends(d, d2) && Shows(d, m, d2, m2)
    ensures WfCells(d, m)
  {
    hide WfDesc, WfCell, WfUnion, Extends, ShowsField;
    forall k | 0 <= k < |d.fields|
      ensures Slot(d.fields, k) < |m| && WfCell(d.fields[k], m[Slot(d.fields, k)]) && WfUnion(d, m, k)
    {
      assert ShowsField(d, m, d2, m2, k);
      ShownInRange(d, m, d2, m2, k);
      ShownIsWf(d, m, d2, m2, k);
      UnionIsWf(d, m, d2, m2, k);
    }
  }

  // ---------- the same bytes ----------

  lemma SameTagged(f: Field, g: Field, v: Value)
    requires SameField(f, g)
    ensures EncTagged(f, v) == EncTagged(g, v) && IsZero(f, v) == IsZero(g, v)
  {
    hide EncMessage, AllDefault;
  }

  lemma {:induction false} SameItems(f: Field, g: Field, items: seq<Value>)
    requires SameField(f, g)
    ensures EncItems(f, items) == EncItems(g, items) && EncScalars(f, items) == EncScalars(g, items)
    decreases |items|
  {
    hide EncTagged, SameField;
    if items != [] {
      SameTagged(f, g, items[0]);
      assert EncScalar(f, items[0]) == EncScalar(g, items[0]) by { SameScalar(f, g, items[0]); }
      SameItems(f, g, items[1..]);
    }
  }

  lemma SameScalar(f: Field, g: Field, v: Value)
    requires SameField(f, g)
    ensures EncScalar(f, v) == EncScalar(g, v)
  {
  }

  /** A known field is written as the older type would write what it sees of it. */
  lemma SameEncoding(d: Desc, f: Field, g: Field, c: Cell)
    requires SameField(f, g) && f.tag >= 1 && FindTag(d.fields, f.tag) < |d.fields|
    requires c.Union? <==> f.htype == Oneof
    ensures EncField(f, ViewOf(d, c)) == EncField(g, c)
  {
    hide EncTagged, EncItems, EncScalars, IsZero, FindTag, SameField;
    SameParts(f, g);
    match c {
      case Plain(v) => SameTagged(f, g, v);
      case Has(_, v) => SameTagged(f, g, v);
      case Many(items) => SameItems(f, g, items);
      case Union(_, v) => SameTagged(f, g, v);
    }
  }

  /** Among the first i fields of the newer type are the first k of the older one, and no others. */
  predicate Upto(d: Desc, d2: Desc, k: nat, i: nat) {
    k <= |d.fields| && i <= |d2.fields| && forall j | 0 <= j < |d.fields| :: Place(d, d2, j) < i <==> j < k
  }

  /** Field i of the newer type is the next one of the older, or new. */
  lemma UptoStep(d: Desc, d2: Desc, k: nat, i: nat)
    requires WfDesc(d) && WfDesc(d2) && Extends(d, d2) && Upto(d, d2, k, i) && i < |d2.fields|
    ensures var j := FindTag(d.fields, d2.fields[i].tag);
      if j == |d.fields| then Upto(d, d2, k, i + 1)
      else j == k && Place(d, d2, k) == i && Upto(d, d2, k + 1, i + 1)
  {
    hide WfField, FindTag, SameField, SameUnions;
    var j := FindTag(d.fields, d2.fields[i].tag);
    DescField(d2, i);
    NotExtension(d2.fields[i]);
    FindTagUnique(d2.fields, i);
    if j < |d.fields| {
      assert Place(d, d2, j) == i;
      assert Place(d, d2, k) <= Place(d, d2, j);
    }
    forall n | 0 <= n < |d.fields| && Place(d, d2, n) == i ensures n == j {
      DescField(d, n);
      NotExtension(d.fields[n]);
      FindTagUnique(d.fields, n);
      SameParts(d.fields[n], d2.fields[i]) by { PlaceIsSame(d, d2, n); }
    }
  }

  lemma PlaceIsSame(d: Desc, d2: Desc, n: nat)
    requires Extends(d, d2) && n < |d.fields|
    ensures Place(d, d2, n) < |d2.fields| && SameField(d.fields[n], d2.fields[Place(d, d2, n)])
  {
  }

  lemma KnownField(d: Desc, m: seq<Cell>, d2: Desc, m2: seq<Cell>, cur: seq<Cell>, seen: set<nat>, k: nat,
      tail: seq<byte>)
    requires WfDesc(d) && WfCells(d, m) && WfDesc(d2) && WfCells(d2, m2) && Extends(d, d2) && Shows(d, m, d2, m2)
    requires k < |d.fields| && Progress(d, m, cur, k) && Place(d, d2, k) < |d2.fields|
    requires var i := Place(d, d2, k);
      && Slot(d2.fields, i) < |m2| && EncField(d2.fields[i], m2[Slot(d2.fields, i)]).Some?
      && |EncField(d2.fields[i], m2[Slot(d2.fields, i)]).value| < TWO_TO_THE_32
    ensures |cur| == |m| && Slot(d.fields, k) < |m|
    ensures var i := Place(d, d2, k);
      DecLoop(d, cur, seen, EncField(d2.fields[i], m2[Slot(d2.fields, i)]).value + tail)
        == DecLoop(d, After(d, m, cur, k), MarkSeen(d, k, seen), tail)
  {
    hide WfField, WfCell, WfCells, Extends, SameField, FindTag, ViewOf, DecLoop, EncField, Progress, MarkSeen, After;
    ProgressShape(d, m, cur, k);
    assert ShowsField(d, m, d2, m2, k);
    PlaceIsSame(d, d2, k);
    DescField(d, k);
    NotExtension(d.fields[k]);
    FindTagUnique(d.fields, k);
    var c := m2[Slot(d2.fields, Place(d, d2, k))];
    CellKind(d2, m2, Place(d, d2, k));
    SameParts(d.fields[k], d2.fields[Place(d, d2, k)]);
    SameEncoding(d, d.fields[k], d2.fields[Place(d, d2, k)], c);
    FieldRoundTrip(d, m, cur, seen, k, tail);
  }

  lemma CellKind(d: Desc, m: seq<Cell>, i: nat)
    requires WfCells(d, m) && i < |d.fields|
    ensures Slot(d.fields, i) < |m| && (m[Slot(d.fields, i)].Union? <==> d.fields[i].htype == Oneof)
  {
    hide WfValue, DefaultOf;
    assert WfCell(d.fields[i], m[Slot(d.fields, i)]);
  }

  lemma {:induction false} NewerFrom(d: Desc, m: seq<Cell>, d2: Desc, m2: seq<Cell>, cur: seq<Cell>, seen: set<nat>,
      k: nat, i: nat)
    requires WfDesc(d) && WfCells(d, m) && WfDesc(d2) && WfCells(d2, m2) && Extends(d, d2) && Shows(d, m, d2, m2)
    requires Upto(d, d2, k, i) && Progress(d, m, cur, k)
    requires EncFrom(d2, m2, i).Some? && |EncFrom(d2, m2, i).value| < TWO_TO_THE_32
    ensures DecLoop(d, cur, seen, EncFrom(d2, m2, i).value) == Done(m, SeenFrom(d, k, seen), [], false)
    decreases |d2.fields| - i
  {
    hide *;
    UptoRange(d, d2, k, i);
    if i == |d2.fields| {
      UptoEnd(d, d2, k);
      ProgressEnds(d, m, cur);
      FromEnd(d2, m2, seen);
      FromEnd(d, m, seen);
    } else {
      UptoStep(d, d2, k, i);
      FromSplit(d2, m2, i, {});
      var f, tail := d2.fields[i], EncFrom(d2, m2, i + 1).value;
      if FindTag(d.fields, f.tag) == |d.fields| {
        DescField(d2, i);
        EncodedFieldIsSkipped(f, m2[Slot(d2.fields, i)], d, cur, seen, tail);
        NewerFrom(d, m, d2, m2, cur, seen, k, i + 1);
      } else {
        UptoRange(d, d2, k + 1, i + 1);
        KnownField(d, m, d2, m2, cur, seen, k, tail);
        ProgressStep(d, m, cur, k);
        SeenFromStep(d, k, seen);
        NewerFrom(d, m, d2, m2, After(d, m, cur, k), MarkSeen(d, k, seen), k + 1, i + 1);
      }
    }
  }

  lemma UptoRange(d: Desc, d2: Desc, k: nat, i: nat)
    requires Upto(d, d2, k, i)
    ensures k <= |d.fields| && i <= |d2.fields|
  {
  }

  lemma UptoEnd(d: Desc, d2: Desc, k: nat)
    requires Extends(d, d2) && Upto(d, d2, k, |d2.fields|)
    ensures k == |d.fields|
  {
    if k < |d.fields| { PlaceIsSame(d, d2, k); }
  }

  lemma SeenFromStep(d: Desc, k: nat, seen: set<nat>)
    requires k < |d.fields|
    ensures SeenFrom(d, k, seen) == SeenFrom(d, k + 1, MarkSeen(d, k, seen))
  {
  }

  /** Main theorem. A decoder with an older message type accepts what a newer one encoded, and has every field
      it knows as the sender has it; a union that the sender set to a new member looks empty to it. */
  lemma NewFieldsIgnored(d: Desc, d2: Desc, m2: seq<Cell>)
    requires WfDesc(d) && WfDesc(d2) && WfCells(d2, m2) && Extends(d, d2)
    requires EncMessage(d2, m2).Some? && |EncMessage(d2, m2).value| < TWO_TO_THE_32
    ensures var r := DecodeFresh(d, EncMessage(d2, m2).value);
      r.Got? && r.rest == [] && Shows(d, r.value, d2, m2)
  {
    hide WfDesc, WfCells, Extends, ShowsField, DecLoop, EncFrom, DefaultCells, Progress, Slots;
    var m := ViewTo(d, d2, m2, |d.fields|);
    assert Shows(d, m, d2, m2) by { SlotsIs(d); }
    ShownWf(d, m, d2, m2);
    ProgressStarts(d, m);
    assert Upto(d, d2, 0, 0);
    NewerFrom(d, m, d2, m2, DefaultCells(d), {}, 0, 0);
    SeenFromAll(d, 0, {});
  }

  lemma SlotsIs(d: Desc)
    ensures Slots(d.fields) == if |d.fields| == 0 then 0 else Slot(d.fields, |d.fields| - 1) + 1
  {
  }
}
