/** What concatenating and extending encoded messages does to the decoded struct. */
module PbMerge {
  import opened Bits
  import opened Wrappers
  import opened Sequences
  import opened Varint
  import opened PbTypes
  import opened PbEncodeSpec
  import opened PbDecodeSpec
  import opened PbRoundTrip

  // ---------- a decoder that succeeds does not look past what it consumes ----------

  function Extend<T>(r: Dec<T>, x: seq<byte>): Dec<T> {
    if r.Got? then Got(r.value, r.rest + x) else Fail
  }

  lemma {:induction false} FirstStopExtends(bs: seq<byte>, x: seq<byte>)
    requires FirstStop(bs) < |bs|
    ensures FirstStop(bs + x) == FirstStop(bs)
  {
    if bs[0] >= 128 {
      assert (bs + x)[1..] == bs[1..] + x;
      FirstStopExtends(bs[1..], x);
    }
  }

  lemma Varint64Extends(bs: seq<byte>, x: seq<byte>)
    ensures DecodeVarint64(bs).Got? ==> DecodeVarint64(bs + x) == Extend(DecodeVarint64(bs), x)
    ensures SkipVarint(bs).Got? ==> SkipVarint(bs + x) == Extend(SkipVarint(bs), x)
  {
    hide FirstStop, Trunc64, GroupsValue;
    var n := FirstStop(bs);
    if n < |bs| {
      FirstStopExtends(bs, x);
      assert (bs + x)[..n + 1] == bs[..n + 1];
      assert (bs + x)[n + 1..] == bs[n + 1..] + x;
    }
  }

  lemma {:induction false} Varint32MoreExtends(bs: seq<byte>, bitpos: nat, result: nat, x: seq<byte>)
    requires bitpos < 256 && result < TWO_TO_THE_32 && Varint32More(bs, bitpos, result).Got?
    ensures Varint32More(bs + x, bitpos, result) == Extend(Varint32More(bs, bitpos, result), x)
    decreases |bs|
  {
    hide OrGroup32;
    assert (bs + x)[1..] == bs[1..] + x && (bs + x)[0] == bs[0];
    if bs[0] >= 128 {
      var result' := if bitpos >= 32 then result else OrGroup32(result, bs[0], bitpos);
      Varint32MoreExtends(bs[1..], (bitpos + 7) % 256, result', x);
    }
  }

  lemma Varint32Extends(bs: seq<byte>, x: seq<byte>)
    requires DecodeVarint32(bs).Got?
    ensures DecodeVarint32(bs + x) == Extend(DecodeVarint32(bs), x)
  {
    hide Varint32More;
    assert (bs + x)[1..] == bs[1..] + x;
    if bs[0] >= 128 { Varint32MoreExtends(bs[1..], 7, bs[0] % 128, x); }
  }

  lemma FixedExtends(bs: seq<byte>, n: nat, x: seq<byte>)
    requires DecodeFixed(bs, n).Got?
    ensures DecodeFixed(bs + x, n) == Extend(DecodeFixed(bs, n), x)
  {
    hide FromLittleEndian;
    assert (bs + x)[..n] == bs[..n] && (bs + x)[n..] == bs[n..] + x;
  }

  lemma SplitPrefixedExtends(bs: seq<byte>, x: seq<byte>)
    requires SplitPrefixed(bs).Got?
    ensures SplitPrefixed(bs + x) == Extend(SplitPrefixed(bs), x)
  {
    hide DecodeVarint32;
    Varint32Extends(bs, x);
    var Got(size, rest) := DecodeVarint32(bs);
    assert (rest + x)[..size] == rest[..size] && (rest + x)[size..] == rest[size..] + x;
  }

  lemma ScalarExtends(f: Field, bs: seq<byte>, x: seq<byte>)
    requires DecScalar(f, bs).Got?
    ensures DecScalar(f, bs + x) == Extend(DecScalar(f, bs), x)
  {
    hide DecodeVarint64, DecodeFixed, ToInt32, Trunc32, ZigzagDecode, FitsSigned, FitsUnsigned;
    if f.ltype == Fixed32T {
      FixedExtends(bs, 4, x);
    } else if f.ltype == Fixed64T {
      FixedExtends(bs, 8, x);
    } else {
      Varint64Extends(bs, x);
    }
  }

  lemma ValueExtends(f: Field, prior: Value, bs: seq<byte>, x: seq<byte>)
    requires DecValue(f, prior, bs).Got?
    ensures DecValue(f, prior, bs + x) == Extend(DecValue(f, prior, bs), x)
  {
    hide DecScalar, SplitPrefixed, StrnLen, SubmessageBase, DecMessage;
    if f.ltype.Packable() { ScalarExtends(f, bs, x); } else { SplitPrefixedExtends(bs, x); }
  }

  lemma FieldExtends(f: Field, c: Cell, wt: nat, bs: seq<byte>, x: seq<byte>)
    requires DecField(f, c, wt, bs).Got?
    ensures DecField(f, c, wt, bs + x) == Extend(DecField(f, c, wt, bs), x)
  {
    hide DecValue, DecPacked, SplitPrefixed, DefaultOf;
    if f.htype == Repeated && wt == WT_STRING && f.ltype.Packable() {
      SplitPrefixedExtends(bs, x);
    } else {
      var prior := match f.htype
        case Required | Optional => c.v
        case Repeated => VNone
        case Oneof => if f.ltype.SubmessageT? then DefaultOf(f) else VNone;
      ValueExtends(f, prior, bs, x);
    }
  }

  lemma SkipExtends(wt: nat, bs: seq<byte>, x: seq<byte>)
    requires SkipField(wt, bs).Got?
    ensures SkipField(wt, bs + x) == Extend(SkipField(wt, bs), x)
  {
    hide SkipVarint, SplitPrefixed;
    match wt {
      case 0 => Varint64Extends(bs, x);
      case 1 => assert (bs + x)[8..] == bs[8..] + x;
      case 2 => SplitPrefixedExtends(bs, x);
      case 5 => assert (bs + x)[4..] == bs[4..] + x;
      case _ =>
    }
  }

  lemma RecordExtends(d: Desc, m: seq<Cell>, tag: nat, wt: nat, bs: seq<byte>, x: seq<byte>)
    requires DecRecord(d, m, tag, wt, bs).Got?
    ensures DecRecord(d, m, tag, wt, bs + x) == Extend(DecRecord(d, m, tag, wt, bs), x)
  {
    hide SkipField, DecField, Slot, FindTag;
    var i := FindTag(d.fields, tag);
    if i == |d.fields| {
      SkipExtends(wt, bs, x);
    } else {
      FieldExtends(d.fields[i], m[Slot(d.fields, i)], wt, bs, x);
    }
  }

  // ---------- concatenation ----------

  /** Feeding more input to the field loop: after a run that used up its input, the loop goes on
      from the struct it had reached; after a zero tag, what follows is never read. */
  lemma {:induction false} LoopAppend(d: Desc, m: seq<Cell>, seen: set<nat>, a: seq<byte>, b: seq<byte>)
    requires DecLoop(d, m, seen, a).Done?
    ensures var r := DecLoop(d, m, seen, a);
      DecLoop(d, m, seen, a + b) ==
        if r.zero then Done(r.m, r.seen, r.rest + b, true) else DecLoop(d, r.m, r.seen, b)
    decreases |a|
  {
    if a == [] {
      assert a + b == b;
    } else {
      hide DecTag, DecRecord, MarkSeen;
      assert a + b != [];
      TagExtends(a, b);
      match DecTag(a)
      case TagEnd(rest) =>
      case TagOk(tag, wt, rest) =>
        RecordExtends(d, m, tag, wt, rest, b);
        var Got((m', i), rest') := DecRecord(d, m, tag, wt, rest);
        LoopAppend(d, m', if i < |d.fields| then MarkSeen(d, i, seen) else seen, rest', b);
    }
  }

  lemma TagExtends(bs: seq<byte>, x: seq<byte>)
    requires bs != [] && !DecTag(bs).TagBad?
    ensures DecTag(bs + x) == match DecTag(bs)
      case TagBad => TagBad
      case TagEnd(rest) => TagEnd(rest + x)
      case TagOk(tag, wt, rest) => TagOk(tag, wt, rest + x)
  {
    hide DecodeVarint32;
    Varint32Extends(bs, x);
  }

  /** Which required fields were seen before does not influence what is decoded. */
  lemma {:induction false} SeenOnlyAdds(d: Desc, m: seq<Cell>, seen: set<nat>, bs: seq<byte>)
    ensures var r := DecLoop(d, m, {}, bs);
      DecLoop(d, m, seen, bs) == if r.Bad? then Bad else Done(r.m, seen + r.seen, r.rest, r.zero)
    decreases |bs|
  {
    hide DecTag, DecRecord;
    if bs == [] {
      assert seen + {} == seen;
    } else {
      match DecTag(bs)
      case TagBad =>
      case TagEnd(rest) => assert seen + {} == seen;
      case TagOk(tag, wt, rest) =>
        match DecRecord(d, m, tag, wt, rest)
        case Fail =>
        case Got((m', i), rest') =>
          var more := if i < |d.fields| then MarkSeen(d, i, {}) else {};
          assert (if i < |d.fields| then MarkSeen(d, i, seen) else seen) == seen + more;
          SeenOnlyAdds(d, m', seen + more, rest');
          SeenOnlyAdds(d, m', more, rest');
          var r := DecLoop(d, m', {}, rest');
          if r.Done? { assert seen + more + r.seen == seen + (more + r.seen); }
    }
  }

  /** Merging by concatenation. Once A has been accepted, giving m1, A ++ B is accepted exactly when
      the field loop gets through B from m1, and leaves what that leaves; in particular it gives the
      struct that decoding B into m1 gives. If a zero tag ended A, B is not read at all. */
  lemma MergeByConcatenation(d: Desc, m: seq<Cell>, a: seq<byte>, m1: seq<Cell>, rest: seq<byte>, b: seq<byte>)
    requires DecMessage(d, m, a) == Got(m1, rest)
    ensures DecLoop(d, m, {}, a).Done?
    ensures DecLoop(d, m, {}, a).zero ==> DecMessage(d, m, a + b) == Got(m1, rest + b)
    ensures !DecLoop(d, m, {}, a).zero ==>
      DecMessage(d, m, a + b) ==
        (match DecLoop(d, m1, {}, b) case Bad => Fail case Done(m2, _, rest2, _) => Got(m2, rest2))
    ensures !DecLoop(d, m, {}, a).zero && DecMessage(d, m1, b).Got? ==> DecMessage(d, m, a + b) == DecMessage(d, m1, b)
  {
    hide DecLoop;
    LoopAppend(d, m, {}, a, b);
    SeenOnlyAdds(d, m1, DecLoop(d, m, {}, a).seen, b);
  }

  /** A zero byte behind a message ends it, and what follows is not read. */
  lemma ZeroTagEnds(d: Desc, m: seq<Cell>, a: seq<byte>, m1: seq<Cell>, b: seq<byte>)
    requires DecMessage(d, m, a) == Got(m1, []) && !DecLoop(d, m, {}, a).zero
    ensures DecMessage(d, m, a + ([0] + b)) == Got(m1, b)
  {
    hide DecLoop, RequiredSeen;
    var r := DecLoop(d, m, {}, a);
    LoopAppend(d, m, {}, a, [0] + b);
    ZeroStep(d, r.m, r.seen, b);
  }

  lemma ZeroStep(d: Desc, m: seq<Cell>, seen: set<nat>, b: seq<byte>)
    ensures DecLoop(d, m, seen, [0] + b) == Done(m, seen, b, true)
  {
    assert ([0] + b)[1..] == b && [0] + b != [];
  }

  /** Forward compatibility: a record with an unknown tag, put between two records of a message,
      changes neither acceptance nor the struct. */
  lemma UnknownFieldIgnored(d: Desc, m: seq<Cell>, a: seq<byte>, u: seq<byte>, b: seq<byte>,
                            tag: nat, wt: nat, payload: seq<byte>)
    requires DecLoop(d, m, {}, a).Done? && !DecLoop(d, m, {}, a).zero
    requires DecTag(u) == TagOk(tag, wt, payload) && SkipField(wt, payload) == Got((), [])
    requires tag != 0 && FindTag(d.fields, tag) == |d.fields|
    ensures DecMessage(d, m, a + (u + b)) == DecMessage(d, m, a + b)
  {
    var r := DecLoop(d, m, {}, a);
    LoopAppend(d, m, {}, a, u + b);
    LoopAppend(d, m, {}, a, b);
    UnknownStep(d, r.m, r.seen, u, b, tag, wt, payload);
  }

  lemma UnknownStep(d: Desc, m: seq<Cell>, seen: set<nat>, u: seq<byte>, b: seq<byte>,
                    tag: nat, wt: nat, payload: seq<byte>)
    requires DecTag(u) == TagOk(tag, wt, payload) && SkipField(wt, payload) == Got((), [])
    requires tag != 0 && FindTag(d.fields, tag) == |d.fields|
    ensures DecLoop(d, m, seen, u + b) == DecLoop(d, m, seen, b)
  {
    assert u != [] by { assert DecTag([]).TagEnd?; }
    TagExtends(u, b);
    SkipExtends(wt, payload, b);
    hide DecTag, SkipField, FindTag;
    assert [] + b == b;
    assert u + b != [];
  }

  lemma TaggedIsRecord(f: Field, v: Value)
    requires WfField(f) && EncTagged(f, v).Some? && |EncTagged(f, v).value| < TWO_TO_THE_32
    ensures EncValue(f, v).Some?
    ensures DecTag(EncTagged(f, v).value) == TagOk(f.tag, PlainWire(f), EncValue(f, v).value)
    ensures SkipField(PlainWire(f), EncValue(f, v).value) == Got((), [])
  {
    EncTaggedParts(f, v, []);
    var e := EncValue(f, v).value;
    assert EncTagged(f, v).value + [] == EncTagged(f, v).value && e + [] == e;
    WireSmall(f);
    TagRoundTrip(f.tag, PlainWire(f), e);
    PayloadIsSkipped(f, v);
  }

  lemma TaggedIsSkipped(f: Field, v: Value, d: Desc, m: seq<Cell>, seen: set<nat>, b: seq<byte>)
    requires WfField(f) && EncTagged(f, v).Some? && |EncTagged(f, v).value| < TWO_TO_THE_32
    requires FindTag(d.fields, f.tag) == |d.fields|
    ensures DecLoop(d, m, seen, EncTagged(f, v).value + b) == DecLoop(d, m, seen, b)
  {
    assert f.tag != 0;
    hide WfField, EncTagged, EncValue, DecLoop, FindTag, DecTag, SkipField;
    TaggedIsRecord(f, v);
    UnknownStep(d, m, seen, EncTagged(f, v).value, b, f.tag, PlainWire(f), EncValue(f, v).value);
  }

  lemma PackedIsSkipped(f: Field, e: seq<byte>, d: Desc, m: seq<Cell>, seen: set<nat>, b: seq<byte>)
    requires WfField(f) && |e| < TWO_TO_THE_32 && FindTag(d.fields, f.tag) == |d.fields|
    ensures DecLoop(d, m, seen, Tag(WT_STRING, f.tag) + LengthPrefixed(e) + b) == DecLoop(d, m, seen, b)
  {
    assert f.tag != 0 && f.tag < 0x2000_0000;
    hide WfField, DecLoop, FindTag, DecTag, LengthPrefixed, Tag, SplitPrefixed;
    var s := LengthPrefixed(e);
    TagRoundTrip(f.tag, WT_STRING, s);
    SplitPrefixedRoundTrip(e, []);
    assert s + [] == s;
    UnknownStep(d, m, seen, Tag(WT_STRING, f.tag) + s, b, f.tag, WT_STRING, s);
  }

  lemma {:induction false} ItemsAreSkipped(f: Field, items: seq<Value>, d: Desc, m: seq<Cell>, seen: set<nat>,
      b: seq<byte>)
    requires WfField(f) && EncItems(f, items).Some? && |EncItems(f, items).value| < TWO_TO_THE_32
    requires FindTag(d.fields, f.tag) == |d.fields|
    ensures DecLoop(d, m, seen, EncItems(f, items).value + b) == DecLoop(d, m, seen, b)
    decreases |items|
  {
    hide WfField, DecLoop, FindTag, EncTagged;
    if items == [] {
      assert [] + b == b;
    } else {
      var e, es := EncTagged(f, items[0]).value, EncItems(f, items[1..]).value;
      assert EncItems(f, items).value + b == e + (es + b);
      TaggedIsSkipped(f, items[0], d, m, seen, es + b);
      ItemsAreSkipped(f, items[1..], d, m, seen, b);
    }
  }

  /** Whatever the encoder writes for a field that the decoder does not know - nothing, one record, a packed
      run, or one record for every array entry - is passed over. */
  lemma EncodedFieldIsSkipped(f: Field, c: Cell, d: Desc, m: seq<Cell>, seen: set<nat>, b: seq<byte>)
    requires WfField(f) && EncField(f, c).Some? && |EncField(f, c).value| < TWO_TO_THE_32
    requires FindTag(d.fields, f.tag) == |d.fields|
    ensures DecLoop(d, m, seen, EncField(f, c).value + b) == DecLoop(d, m, seen, b)
  {
    hide WfField, DecLoop, FindTag, EncTagged, EncItems, EncScalars, IsDefault, EncodeVarint, Tag;
    if EncField(f, c).value == [] {
      assert [] + b == b;
    } else if f.htype != Repeated {
      TaggedIsSkipped(f, c.v, d, m, seen, b);
    } else if f.ltype.Packable() {
      PackedIsSkipped(f, EncScalars(f, c.items).value, d, m, seen, b);
    } else {
      ItemsAreSkipped(f, c.items, d, m, seen, b);
    }
  }

  lemma PrefixedPayload(f: Field, v: Value) returns (s: seq<byte>)
    requires !f.ltype.Packable() && f.ltype != ExtensionT && EncValue(f, v).Some?
    ensures EncValue(f, v).value == LengthPrefixed(s) && |s| <= |EncValue(f, v).value|
  {
    if f.ltype == StringT {
      s := v.b[..StrnLen(v.b, f.dataSize)];
    } else if f.ltype == SubmessageT {
      s := EncMessage(f.ptr.desc, v.cells).value;
    } else {
      s := v.b;
    }
  }

  lemma PayloadIsSkipped(f: Field, v: Value)
    requires f.ltype != ExtensionT && EncValue(f, v).Some? && |EncValue(f, v).value| < TWO_TO_THE_32
    ensures SkipField(PlainWire(f), EncValue(f, v).value) == Got((), [])
  {
    hide SkipVarint, EncodeVarint, ZigzagEncode, SplitPrefixed, LengthPrefixed, LittleEndian;
    var e := EncValue(f, v).value;
    assert e + [] == e;
    match f.ltype {
      case VarintT => VarintRoundTrip(ToUint64(v.n), []);
      case UVarintT => VarintRoundTrip(v.n, []);
      case SVarintT => VarintRoundTrip(ZigzagEncode(v.n), []);
      case Fixed32T =>
      case Fixed64T =>
      case _ =>
        var s := PrefixedPayload(f, v);
        SplitPrefixedRoundTrip(s, []);
    }
  }

  // ---------- packed and unpacked arrays ----------

  /** One record with its own tag for every encoded scalar. */
  function Unpacked(f: Field, wt: nat, es: seq<seq<byte>>): seq<byte> {
    if es == [] then [] else Tag(wt, f.tag) + es[0] + Unpacked(f, wt, es[1..])
  }

  /** es encode vs, canonically or not. */
  ghost predicate Encodes(f: Field, es: seq<seq<byte>>, vs: seq<Value>) {
    |es| == |vs| && forall k | 0 <= k < |es| :: DecScalar(f, es[k]) == Got(vs[k], [])
  }

  /** The array after appending vs, if it has room. */
  function Appended(f: Field, prior: seq<Value>, vs: seq<Value>): Option<seq<Value>> {
    if vs == [] || |prior| + |vs| <= f.arraySize then Some(prior + vs) else None
  }

  lemma PackedFirst(f: Field, prior: seq<Value>, e: seq<byte>, v: Value, tail: seq<byte>)
    requires DecScalar(f, e) == Got(v, [])
    ensures DecPacked(f, prior, e + tail) == if |prior| >= f.arraySize then None else DecPacked(f, prior + [v], tail)
  {
    ScalarExtends(f, e, tail);
    assert |e| > 0;
    hide DecScalar;
    assert [] + tail == tail;
  }

  lemma {:induction false} PackedAppends(f: Field, prior: seq<Value>, es: seq<seq<byte>>, vs: seq<Value>)
    requires Encodes(f, es, vs)
    ensures DecPacked(f, prior, Flatten(es)) == Appended(f, prior, vs)
    decreases |es|
  {
    if es == [] {
      assert prior + vs == prior;
    } else {
      hide DecPacked, DecScalar, Flatten;
      assert es == [es[0]] + es[1..];
      FlattenFirst(es[0], es[1..]);
      PackedFirst(f, prior, es[0], vs[0], Flatten(es[1..]));
      PackedAppends(f, prior + [vs[0]], es[1..], vs[1..]);
      assert prior + [vs[0]] + vs[1..] == prior + vs;
    }
  }

  lemma RecordFails(d: Desc, m: seq<Cell>, seen: set<nat>, i: nat, wt: nat, bs: seq<byte>)
    requires WfDesc(d) && i < |d.fields| && wt < 8 && Slot(d.fields, i) < |m|
    requires DecField(d.fields[i], m[Slot(d.fields, i)], wt, bs).Fail?
    ensures DecLoop(d, m, seen, Tag(wt, d.fields[i].tag) + bs).Bad?
  {
    hide DecTag, DecField, Tag;
    var f := d.fields[i];
    assert WfField(f);
    TagRoundTrip(f.tag, wt, bs);
    FindTagUnique(d.fields, i);
    assert Tag(wt, f.tag) + bs != [] by { assert |EncodeVarint(f.tag * 8 + wt)| >= 1; }
  }

  lemma PackedRun(d: Desc, cur: seq<Cell>, seen: set<nat>, i: nat, prior: seq<Value>,
                  es: seq<seq<byte>>, vs: seq<Value>, tail: seq<byte>)
    requires WfDesc(d) && i < |d.fields| && Slot(d.fields, i) < |cur|
    requires d.fields[i].htype == Repeated && d.fields[i].ltype.Packable()
    requires cur[Slot(d.fields, i)] == Many(prior)
    requires Encodes(d.fields[i], es, vs) && |Flatten(es)| < TWO_TO_THE_32
    ensures var a := Appended(d.fields[i], prior, vs);
      DecLoop(d, cur, seen, Tag(WT_STRING, d.fields[i].tag) + (LengthPrefixed(Flatten(es)) + tail)) ==
        if a.None? then Bad else DecLoop(d, cur[Slot(d.fields, i) := Many(a.value)], seen, tail)
  {
    hide DecLoop, DecPacked, SplitPrefixed, LengthPrefixed, Tag, Encodes, Appended, WfField;
    var f := d.fields[i];
    var bs := LengthPrefixed(Flatten(es)) + tail;
    SplitPrefixedRoundTrip(Flatten(es), tail);
    PackedAppends(f, prior, es, vs);
    var a := Appended(f, prior, vs);
    if a.None? {
      RecordFails(d, cur, seen, i, WT_STRING, bs);
    } else {
      RecordStep(d, cur, seen, i, WT_STRING, bs, Many(a.value), tail);
    }
  }

  lemma SingleField(f: Field, prior: seq<Value>, wt: nat, e: seq<byte>, v: Value, tail: seq<byte>)
    requires f.htype == Repeated && f.ltype.Packable() && wt != WT_STRING && DecScalar(f, e) == Got(v, [])
    ensures DecField(f, Many(prior), wt, e + tail) ==
      if |prior| >= f.arraySize then Fail else Got(Many(prior + [v]), tail)
  {
    ScalarExtends(f, e, tail);
    hide DecScalar;
    assert [] + tail == tail;
  }

  lemma {:induction false} UnpackedRun(d: Desc, cur: seq<Cell>, seen: set<nat>, i: nat, prior: seq<Value>, wt: nat,
                                       es: seq<seq<byte>>, vs: seq<Value>, tail: seq<byte>)
    requires WfDesc(d) && i < |d.fields| && Slot(d.fields, i) < |cur| && wt < 8 && wt != WT_STRING
    requires d.fields[i].htype == Repeated && d.fields[i].ltype.Packable()
    requires cur[Slot(d.fields, i)] == Many(prior)
    requires Encodes(d.fields[i], es, vs)
    ensures var a := Appended(d.fields[i], prior, vs);
      DecLoop(d, cur, seen, Unpacked(d.fields[i], wt, es) + tail) ==
        if a.None? then Bad else DecLoop(d, cur[Slot(d.fields, i) := Many(a.value)], seen, tail)
    decreases |es|
  {
    hide DecLoop, DecField, DecScalar, Tag, WfField;
    var f, s := d.fields[i], Slot(d.fields, i);
    if es == [] {
      assert [] + tail == tail && prior + vs == prior && cur[s := Many(prior)] == cur;
    } else {
      var bs := es[0] + (Unpacked(f, wt, es[1..]) + tail);
      assert Unpacked(f, wt, es) + tail == Tag(wt, f.tag) + bs;
      SingleField(f, prior, wt, es[0], vs[0], Unpacked(f, wt, es[1..]) + tail);
      if |prior| >= f.arraySize {
        RecordFails(d, cur, seen, i, wt, bs);
      } else {
        var next := cur[s := Many(prior + [vs[0]])];
        RecordStep(d, cur, seen, i, wt, bs, Many(prior + [vs[0]]), Unpacked(f, wt, es[1..]) + tail);
        UnpackedRun(d, next, seen, i, prior + [vs[0]], wt, es[1..], vs[1..], tail);
        assert prior + [vs[0]] + vs[1..] == prior + vs;
        assert next[s := Many(prior + vs)] == cur[s := Many(prior + vs)];
      }
    }
  }

  /** A packed run of scalars and the same scalars in single-value records are both accepted exactly
      when the array has room for them (or there are none), and leave the same struct. */
  lemma PackedEqualsUnpacked(d: Desc, cur: seq<Cell>, seen: set<nat>, i: nat, prior: seq<Value>, wt: nat,
                             es: seq<seq<byte>>, vs: seq<Value>, tail: seq<byte>)
    requires WfDesc(d) && i < |d.fields| && Slot(d.fields, i) < |cur| && wt < 8 && wt != WT_STRING
    requires d.fields[i].htype == Repeated && d.fields[i].ltype.Packable()
    requires cur[Slot(d.fields, i)] == Many(prior)
    requires Encodes(d.fields[i], es, vs) && |Flatten(es)| < TWO_TO_THE_32
    ensures var room := vs == [] || |prior| + |vs| <= d.fields[i].arraySize;
      var both := if room then DecLoop(d, cur[Slot(d.fields, i) := Many(prior + vs)], seen, tail) else Bad;
      && DecLoop(d, cur, seen, Tag(WT_STRING, d.fields[i].tag) + (LengthPrefixed(Flatten(es)) + tail)) == both
      && DecLoop(d, cur, seen, Unpacked(d.fields[i], wt, es) + tail) == both
  {
    PackedRun(d, cur, seen, i, prior, es, vs, tail);
    UnpackedRun(d, cur, seen, i, prior, wt, es, vs, tail);
  }
}
