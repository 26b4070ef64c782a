/** The encoder's methods. Each is proved to write, or in a sizing pass to count, exactly the bytes
    of its specification in PbEncodeSpec. */
module PbEncoder {
  import opened Bits
  import opened Wrappers
  import opened Varint
  import opened PbTypes
  import opened PbEncodeSpec
  import opened PbRoundTrip

  // ---------- what writing does to a stream ----------

  /** The fields of an output stream and the contents of its buffer. */
  datatype OState = OState(state: nat, maxSize: nat, bytesWritten: nat, bytes: seq<byte>) {
    /** A buffer stream has room for what it may still write. */
    predicate Valid(sizing: bool) {
      sizing || (bytesWritten <= maxSize && state + (maxSize - bytesWritten) <= |bytes|)
    }

    predicate Fits(sizing: bool, e: Option<seq<byte>>) {
      e.Some? && (sizing || bytesWritten + |e.value| <= maxSize)
    }
  }

  /** b with e written at position `at`. */
  function Splice(b: seq<byte>, at: nat, e: seq<byte>): seq<byte>
    requires at + |e| <= |b|
  {
    b[..at] + e + b[at + |e|..]
  }

  /** The outcome of writing e from state a to state b. It succeeds exactly when there is something
      to write and it fits. Success counts the bytes and, on a buffer stream, puts them into the
      buffer and nothing else. Failure touches nothing outside the stream's room. */
  ghost predicate Wrote(sizing: bool, a: OState, b: OState, e: Option<seq<byte>>, ok: bool) {
    && a.Valid(sizing) && b.Valid(sizing) && b.maxSize == a.maxSize && |b.bytes| == |a.bytes|
    && ok == a.Fits(sizing, e)
    && (ok ==> b.bytesWritten == a.bytesWritten + |e.value|)
    && (sizing ==> b.bytes == a.bytes)
    && (!sizing ==> a.bytesWritten <= b.bytesWritten && b.state - b.bytesWritten == a.state - a.bytesWritten)
    && (!sizing && ok ==> b.bytes == Splice(a.bytes, a.state, e.value))
    && (!sizing ==> SameOutside(a.bytes, b.bytes, a.state, a.state + (a.maxSize - a.bytesWritten)))
  }

  ghost predicate SameOutside(a: seq<byte>, b: seq<byte>, lo: nat, hi: nat) {
    |a| == |b| && lo <= hi <= |a| && a[..lo] == b[..lo] && a[hi..] == b[hi..]
  }

  lemma WroteNothing(sizing: bool, a: OState)
    requires a.Valid(sizing)
    ensures Wrote(sizing, a, a, Some([]), true)
  {
  }

  lemma WroteThen(sizing: bool, a: OState, b: OState, c: OState, e1: Option<seq<byte>>, e2: Option<seq<byte>>, ok: bool)
    requires Wrote(sizing, a, b, e1, true) && Wrote(sizing, b, c, e2, ok)
    ensures Wrote(sizing, a, c, Append(e1, e2), ok)
  {
    if !sizing {
      var lo, hi := b.state, b.state + (b.maxSize - b.bytesWritten);
      assert c.bytes[..a.state] == c.bytes[..lo][..a.state] == b.bytes[..lo][..a.state] == b.bytes[..a.state];
      if ok { SpliceTwice(a.bytes, a.state, e1.value, e2.value); }
    }
  }

  lemma SpliceTwice(b: seq<byte>, at: nat, e1: seq<byte>, e2: seq<byte>)
    requires at + |e1| + |e2| <= |b|
    ensures Splice(Splice(b, at, e1), at + |e1|, e2) == Splice(b, at, e1 + e2)
  {
  }

  lemma FailedFirst(sizing: bool, a: OState, b: OState, e1: Option<seq<byte>>, e2: Option<seq<byte>>)
    requires Wrote(sizing, a, b, e1, false)
    ensures Wrote(sizing, a, b, Append(e1, e2), false)
  {
  }

  /** pb_ostream_t: a sizing stream (no callback) or a stream over a buffer (buf_write). */
  class OStream {
    const sizing: bool
    const buf: array<byte>
    var state: nat
    var maxSize: nat
    var bytesWritten: nat

    ghost function Snap(): OState
      reads this, buf
    {
      OState(state, maxSize, bytesWritten, buf[..])
    }

    ghost predicate Valid()
      reads this, buf
    {
      Snap().Valid(sizing)
    }

    /** PB_OSTREAM_SIZING */
    constructor Sizing()
      ensures Valid() && sizing && fresh(buf) && bytesWritten == 0
    {
      sizing := true;
      buf := new byte[0];
      state := 0;
      maxSize := 0;
      bytesWritten := 0;
    }

    /** pb_ostream_from_buffer */
    constructor (buf: array<byte>, state: nat, maxSize: nat)
      requires state + maxSize <= buf.Length
      ensures Valid() && !sizing && this.buf == buf
      ensures this.state == state && this.maxSize == maxSize && bytesWritten == 0
    {
      this.sizing := false;
      this.buf := buf;
      this.state := state;
      this.maxSize := maxSize;
      this.bytesWritten := 0;
    }

    /** pb_write. A sizing pass only counts. */
    method Write(data: seq<byte>) returns (ok: bool)
      requires Valid()
      modifies this, buf
      ensures Valid() && Wrote(sizing, old(Snap()), Snap(), Some(data), ok)
    {
      if !sizing {
        if bytesWritten + |data| > maxSize {
          return false;
        }
        BufWrite(data);
      }
      bytesWritten := bytesWritten + |data|;
      return true;
    }

    /** pb_write(stream, NULL, size) on a sizing stream, for bytes that are only counted. */
    method Count(size: nat, ghost data: seq<byte>) returns (ok: bool)
      requires Valid() && sizing && size == |data|
      modifies this
      ensures Valid() && Wrote(sizing, old(Snap()), Snap(), Some(data), ok)
    {
      bytesWritten := bytesWritten + size;
      return true;
    }

    /** buf_write */
    method BufWrite(data: seq<byte>)
      requires state + |data| <= buf.Length
      modifies this`state, buf
      ensures state == old(state) + |data| && buf[..] == Splice(old(buf[..]), old(state), data)
    {
      var dest := state;
      state := dest + |data|;
      var i := 0;
      while i < |data|
        invariant 0 <= i <= |data| && state == old(state) + |data|
        invariant forall k | 0 <= k < buf.Length :: buf[k] == if dest <= k < dest + i then data[k - dest]
          else old(buf[k])
      {
        buf[dest + i] := data[i];
        i := i + 1;
      }
    }
  }

  // ---------- scalars ----------

  /** pb_encode_varint, with its ten-byte buffer. */
  method WriteVarint(s: OStream, value: nat) returns (ok: bool)
    requires s.Valid() && value < TWO_TO_THE_64
    modifies s, s.buf
    ensures s.Valid() && Wrote(s.sizing, old(s.Snap()), s.Snap(), Some(EncodeVarint(value)), ok)
  {
    hide Wrote, OState.Valid, EncodeVarint;
    if value <= 0x7F {
      SmallVarint(value);
      ok := s.Write([value]);
      return;
    }
    VarintTenBytes(value);
    var buffer := new byte[10];
    var i, v := 0, value;
    while v > 0
      invariant 0 <= i <= 10 && 0 <= v && s.Valid() && s.Snap() == old(s.Snap())
      invariant v > 0 ==> i + |EncodeVarint(v)| <= 10 && EncodeVarint(value) == buffer[..i] + EncodeVarint(v)
      invariant v == 0 ==>
        i > 0 && buffer[i - 1] >= 128
        && EncodeVarint(value) == buffer[..i - 1] + [buffer[i - 1] - 128]
      decreases v
    {
      ghost var done := buffer[..i];
      VarintGroup(v);
      buffer[i] := v % 128 + 128;
      v := v / 128;
      i := i + 1;
      assert buffer[..i - 1] == done && buffer[..i] == done + [buffer[i - 1]];
    }
    ghost var done := buffer[..i - 1];
    buffer[i - 1] := buffer[i - 1] - 128;
    assert buffer[..i] == done + [buffer[i - 1]];
    ok := s.Write(buffer[..i]);
  }

  lemma SmallVarint(v: nat)
    requires v < 128
    ensures EncodeVarint(v) == [v]
  {
  }

  lemma VarintGroup(v: nat)
    ensures EncodeVarint(v) == if v < 128 then [v % 128] else [v % 128 + 128] + EncodeVarint(v / 128)
  {
  }

  /** pb_encode_tag */
  method WriteTag(s: OStream, wireType: nat, tag: nat) returns (ok: bool)
    requires s.Valid() && wireType < 8 && tag < TWO_TO_THE_32
    modifies s, s.buf
    ensures s.Valid() && Wrote(s.sizing, old(s.Snap()), s.Snap(), Some(Tag(wireType, tag)), ok)
  {
    hide Wrote, EncodeVarint, Or;
    assert Pow2(3) == 8;
    OrDisjoint(wireType, tag, 3);
    ok := WriteVarint(s, Or(wireType, tag * 8));
  }

  /** pb_encode_fixed32 and pb_encode_fixed64 */
  method WriteFixed(s: OStream, value: nat, n: nat) returns (ok: bool)
    requires s.Valid()
    modifies s, s.buf
    ensures s.Valid() && Wrote(s.sizing, old(s.Snap()), s.Snap(), Some(LittleEndian(value, n)), ok)
  {
    hide Wrote;
    var bytes := new byte[n];
    var i, v := 0, value;
    while i < n
      invariant 0 <= i <= n && s.Valid() && s.Snap() == old(s.Snap())
      invariant LittleEndian(value, n) == bytes[..i] + LittleEndian(v, n - i)
    {
      ghost var done := bytes[..i];
      bytes[i] := v % 256;
      assert bytes[..i + 1] == done + [v % 256];
      v := v / 256;
      i := i + 1;
    }
    assert bytes[..n] == bytes[..n] + LittleEndian(v, 0);
    ok := s.Write(bytes[..n]);
  }

  /** pb_encode_string */
  method WriteString(s: OStream, data: seq<byte>) returns (ok: bool)
    requires s.Valid() && |data| < TWO_TO_THE_64
    modifies s, s.buf
    ensures s.Valid() && Wrote(s.sizing, old(s.Snap()), s.Snap(), Some(LengthPrefixed(data)), ok)
  {
    hide Wrote, EncodeVarint;
    ghost var a := s.Snap();
    ok := WriteVarint(s, |data|);
    ghost var b := s.Snap();
    if !ok {
      FailedFirst(s.sizing, a, b, Some(EncodeVarint(|data|)), Some(data));
      return;
    }
    ok := s.Write(data);
    WroteThen(s.sizing, a, b, s.Snap(), Some(EncodeVarint(|data|)), Some(data), ok);
  }

  // ---------- structs the encoder can be given ----------

  /** What a struct member of the field's type can hold, whether or not its data_size is valid. */
  ghost predicate Storable(f: Field, v: Value)
    decreases f, 0
  {
    match f.ltype
    case VarintT | SVarintT => v.VInt? && (f.dataSize in {1, 2, 4, 8} ==> FitsSigned(f.dataSize, v.n))
    case UVarintT => v.VInt? && (f.dataSize in {1, 2, 4, 8} ==> FitsUnsigned(f.dataSize, v.n))
    case Fixed32T => v.VInt? && FitsUnsigned(4, v.n)
    case Fixed64T => v.VInt? && FitsUnsigned(8, v.n)
    case BytesT => v.VBytes? && |v.b| <= PB_SIZE_MAX
    case StringT => v.VBytes? && |v.b| <= f.dataSize <= PB_SIZE_MAX && 0 !in v.b
    case FixedLengthBytesT => v.VBytes? && |v.b| == f.dataSize <= PB_SIZE_MAX
    case SubmessageT => v.VMsg? && (f.ptr.SubFields? ==> StorableMessage(f.ptr.desc, v.cells))
    case ExtensionT => true
  }

  ghost predicate StorableCell(f: Field, c: Cell)
    decreases f, 1
  {
    match f.htype
    case Required => c.Plain? && Storable(f, c.v)
    case Optional => if f.sizeOffset != 0 then c.Has? && Storable(f, c.v) else c.Plain? && Storable(f, c.v)
    case Repeated => c.Many? && |c.items| <= PB_SIZE_MAX && forall k | 0 <= k < |c.items| :: Storable(f, c.items[k])
    case Oneof => c.Union? && (c.which == f.tag ==> Storable(f, c.v))
  }

  /** The struct has the members its descriptor says, and its encoded size is a size_t. */
  ghost predicate StorableMessage(d: Desc, m: seq<Cell>)
    decreases d, 1
  {
    StorableCells(d, m) && (EncMessage(d, m).Some? ==> |EncMessage(d, m).value| < TWO_TO_THE_64)
  }

  ghost predicate StorableCells(d: Desc, m: seq<Cell>)
    decreases d, 0
  {
    && |m| == Slots(d.fields)
    && forall i | 0 <= i < |d.fields| :: Slot(d.fields, i) < |m| && StorableCell(d.fields[i], m[Slot(d.fields, i)])
  }

  lemma MemberStorable(d: Desc, m: seq<Cell>, i: nat)
    requires StorableCells(d, m) && i < |d.fields|
    ensures Slot(d.fields, i) < |m| && StorableCell(d.fields[i], m[Slot(d.fields, i)])
  {
    hide StorableCell;
  }

  // ---------- values ----------

  /** pb_enc_varint, pb_enc_uvarint, pb_enc_svarint, pb_enc_fixed32, pb_enc_fixed64 */
  method WriteScalar(s: OStream, f: Field, v: Value) returns (ok: bool)
    requires s.Valid() && f.ltype.Packable() && Storable(f, v)
    modifies s, s.buf
    ensures s.Valid() && Wrote(s.sizing, old(s.Snap()), s.Snap(), EncScalar(f, v), ok)
  {
    hide Wrote, EncodeVarint, LittleEndian, ZigzagEncode;
    if (f.ltype == VarintT || f.ltype == UVarintT || f.ltype == SVarintT) && f.dataSize !in {1, 2, 4, 8} {
      Fails(s.sizing, s.Snap());
      return false;
    }
    if f.ltype == VarintT {
      ok := WriteVarint(s, ToUint64(v.n));
    } else if f.ltype == UVarintT {
      ok := WriteVarint(s, v.n);
    } else if f.ltype == SVarintT {
      ok := WriteVarint(s, ZigzagEncode(v.n));
    } else if f.ltype == Fixed32T {
      ok := WriteFixed(s, v.n, 4);
    } else {
      ok := WriteFixed(s, v.n, 8);
    }
  }

  lemma Fails(sizing: bool, a: OState)
    requires a.Valid(sizing)
    ensures Wrote(sizing, a, a, None, false)
  {
  }

  /** A call that fails after having written something. */
  lemma FailsAfter(sizing: bool, a: OState, b: OState, e: Option<seq<byte>>, ok: bool)
    requires Wrote(sizing, a, b, e, ok)
    ensures Wrote(sizing, a, b, None, false)
  {
  }

  lemma AppendAssoc(a: Option<seq<byte>>, b: Option<seq<byte>>, c: Option<seq<byte>>)
    ensures Append(Append(a, b), c) == Append(a, Append(b, c))
    ensures Append(Some([]), c) == c && Append(c, Some([])) == c
  {
    if a.Some? && b.Some? && c.Some? { assert a.value + b.value + c.value == a.value + (b.value + c.value); }
    if c.Some? { assert [] + c.value == c.value && c.value + [] == c.value; }
  }

  /** One more piece e of a run whose remainder is `rest`, after `done`. */
  lemma Step(sizing: bool, a: OState, b: OState, c: OState,
             done: Option<seq<byte>>, e: Option<seq<byte>>, rest: Option<seq<byte>>, ok: bool)
    requires Wrote(sizing, a, b, done, true) && Wrote(sizing, b, c, e, ok)
    ensures Wrote(sizing, a, c, Append(done, e), ok)
    ensures !ok ==> Wrote(sizing, a, c, Append(done, Append(e, rest)), false)
  {
    hide Wrote, Append;
    WroteThen(sizing, a, b, c, done, e, ok);
    AppendAssoc(done, e, rest);
    if !ok { FailedFirst(sizing, a, c, Append(done, e), rest); }
  }

  /** The entries of a packed array, one after the other. */
  method WriteScalars(s: OStream, f: Field, items: seq<Value>) returns (ok: bool)
    requires s.Valid() && f.ltype.Packable() && forall k | 0 <= k < |items| :: Storable(f, items[k])
    modifies s, s.buf
    ensures s.Valid() && Wrote(s.sizing, old(s.Snap()), s.Snap(), EncScalars(f, items), ok)
  {
    hide Wrote, EncScalar, Append, Storable;
    ghost var a, done := s.Snap(), Some([]);
    WroteNothing(s.sizing, a);
    var i := 0;
    assert items[0..] == items;
    AppendAssoc(None, None, EncScalars(f, items));
    while i < |items|
      invariant 0 <= i <= |items| && s.Valid() && Wrote(s.sizing, a, s.Snap(), done, true)
      invariant Append(done, EncScalars(f, items[i..])) == EncScalars(f, items)
    {
      ghost var b, rest := s.Snap(), EncScalars(f, items[i + 1..]);
      assert items[i..][1..] == items[i + 1..];
      ok := WriteScalar(s, f, items[i]);
      Step(s.sizing, a, b, s.Snap(), done, EncScalar(f, items[i]), rest, ok);
      if !ok {
        return;
      }
      AppendAssoc(done, EncScalar(f, items[i]), rest);
      done := Append(done, EncScalar(f, items[i]));
      i := i + 1;
    }
    AppendAssoc(None, None, done);
    ok := true;
  }

  /** The loop of pb_enc_string. Past the end of b the array holds NULs. */
  method StringLength(b: seq<byte>, maxSize: nat) returns (size: nat)
    ensures size == StrnLen(b, maxSize)
  {
    size := 0;
    assert b[0..] == b;
    while size < maxSize && size < |b| && b[size] != 0
      invariant size <= maxSize && size <= |b| && StrnLen(b, maxSize) == size + StrnLen(b[size..], maxSize - size)
    {
      assert b[size..][1..] == b[size + 1..];
      size := size + 1;
    }
  }

  /** The encoder functions, called through PB_ENCODERS. */
  method WriteValue(s: OStream, f: Field, v: Value) returns (ok: bool)
    requires s.Valid() && WfField(f) && Storable(f, v)
    modifies s, s.buf
    ensures s.Valid() && Wrote(s.sizing, old(s.Snap()), s.Snap(), EncValue(f, v), ok)
    decreases f, 0
  {
    hide Wrote, EncScalar, EncMessage, LengthPrefixed;
    if f.ltype.Packable() {
      ok := WriteScalar(s, f, v);
    } else if f.ltype == BytesT {
      if |v.b| + PB_BYTES_HEADER > f.dataSize {
        Fails(s.sizing, s.Snap());
        return false;
      }
      ok := WriteString(s, v.b);
    } else if f.ltype == StringT {
      var size := StringLength(v.b, f.dataSize);
      ok := WriteString(s, v.b[..size]);
    } else if f.ltype == FixedLengthBytesT {
      ok := WriteString(s, v.b);
    } else {
      ok := EncodeSubmessage(s, f.ptr.desc, v.cells);
    }
  }

  /** A value behind its tag. */
  method WriteTagged(s: OStream, f: Field, v: Value) returns (ok: bool)
    requires s.Valid() && WfField(f) && Storable(f, v)
    modifies s, s.buf
    ensures s.Valid() && Wrote(s.sizing, old(s.Snap()), s.Snap(), EncTagged(f, v), ok)
    decreases f, 1
  {
    hide Wrote, EncValue, Tag;
    ghost var a := s.Snap();
    WireSmall(f);
    ok := WriteTag(s, PlainWire(f), f.tag);
    ghost var b := s.Snap();
    if !ok {
      FailedFirst(s.sizing, a, b, Some(Tag(PlainWire(f), f.tag)), EncValue(f, v));
      return;
    }
    ok := WriteValue(s, f, v);
    WroteThen(s.sizing, a, b, s.Snap(), Some(Tag(PlainWire(f), f.tag)), EncValue(f, v), ok);
  }

  /** The entries of an unpacked array, each behind its own tag. */
  method WriteItems(s: OStream, f: Field, items: seq<Value>) returns (ok: bool)
    requires s.Valid() && WfField(f) && forall k | 0 <= k < |items| :: Storable(f, items[k])
    modifies s, s.buf
    ensures s.Valid() && Wrote(s.sizing, old(s.Snap()), s.Snap(), EncItems(f, items), ok)
    decreases f, 2
  {
    hide Wrote, EncTagged, Append, Storable, WfField;
    ghost var a, done := s.Snap(), Some([]);
    WroteNothing(s.sizing, a);
    var i := 0;
    assert items[0..] == items;
    AppendAssoc(None, None, EncItems(f, items));
    while i < |items|
      invariant 0 <= i <= |items| && s.Valid() && Wrote(s.sizing, a, s.Snap(), done, true)
      invariant Append(done, EncItems(f, items[i..])) == EncItems(f, items)
    {
      ghost var b, rest := s.Snap(), EncItems(f, items[i + 1..]);
      assert items[i..][1..] == items[i + 1..];
      ok := WriteTagged(s, f, items[i]);
      Step(s.sizing, a, b, s.Snap(), done, EncTagged(f, items[i]), rest, ok);
      if !ok {
        return;
      }
      AppendAssoc(done, EncTagged(f, items[i]), rest);
      done := Append(done, EncTagged(f, items[i]));
      i := i + 1;
    }
    AppendAssoc(None, None, done);
    ok := true;
  }

  /** The size of a packed run, by arithmetic or by a sizing pass; fails when an entry does. */
  method PackedSize(f: Field, items: seq<Value>) returns (ok: bool, size: nat)
    requires f.ltype.Packable() && forall k | 0 <= k < |items| :: Storable(f, items[k])
    ensures ok == EncScalars(f, items).Some?
    ensures ok ==> size == |EncScalars(f, items).value|
  {
    hide EncScalars;
    if f.ltype == Fixed32T {
      FixedRunSize(f, items, 4);
      return true, 4 * |items|;
    } else if f.ltype == Fixed64T {
      FixedRunSize(f, items, 8);
      return true, 8 * |items|;
    }
    var sizeStream := new OStream.Sizing();
    ok := WriteScalars(sizeStream, f, items);
    size := sizeStream.bytesWritten;
  }

  lemma {:induction false} FixedRunSize(f: Field, items: seq<Value>, n: nat)
    requires (f.ltype == Fixed32T && n == 4) || (f.ltype == Fixed64T && n == 8)
    requires forall k | 0 <= k < |items| :: Storable(f, items[k])
    ensures EncScalars(f, items).Some? && |EncScalars(f, items).value| == n * |items|
  {
    if items != [] {
      assert Storable(f, items[0]);
      FixedRunSize(f, items[1..], n);
    }
  }

  /** encode_array */
  method WriteArray(s: OStream, f: Field, items: seq<Value>) returns (ok: bool)
    requires s.Valid() && WfField(f) && f.htype == Repeated && |items| <= PB_SIZE_MAX
    requires forall k | 0 <= k < |items| :: Storable(f, items[k])
    modifies s, s.buf
    ensures s.Valid() && Wrote(s.sizing, old(s.Snap()), s.Snap(), EncArray(f, items), ok)
    decreases f, 3
  {
    hide Wrote, EncScalars, EncItems, Storable, WfField;
    ghost var a := s.Snap();
    if items == [] {
      WroteNothing(s.sizing, a);
      return true;
    }
    if |items| > f.arraySize {
      Fails(s.sizing, a);
      return false;
    }
    if f.ltype.Packable() {
      ok := WritePacked(s, f, items);
    } else {
      ok := WriteItems(s, f, items);
    }
  }

  lemma {:induction false} ScalarsBound(f: Field, items: seq<Value>)
    requires EncScalars(f, items).Some?
    ensures |EncScalars(f, items).value| <= 10 * |items|
  {
    hide EncodeVarint, ZigzagEncode, LittleEndian;
    if items != [] {
      ScalarBound(f, items[0]);
      ScalarsBound(f, items[1..]);
    }
  }

  lemma ScalarBound(f: Field, v: Value)
    requires EncScalar(f, v).Some?
    ensures |EncScalar(f, v).value| <= 10
  {
    hide EncodeVarint, ZigzagEncode, LittleEndian;
    if f.ltype == VarintT {
      VarintTenBytes(ToUint64(v.n));
    } else if f.ltype == UVarintT {
      VarintTenBytes(v.n);
    } else if f.ltype == SVarintT {
      VarintTenBytes(ZigzagEncode(v.n));
    }
  }

  /** The packed branch of encode_array: tag, size and, unless only sizing, the entries. */
  method WritePacked(s: OStream, f: Field, items: seq<Value>) returns (ok: bool)
    requires s.Valid() && WfField(f) && f.ltype.Packable() && 0 < |items| <= f.arraySize && |items| <= PB_SIZE_MAX
    requires forall k | 0 <= k < |items| :: Storable(f, items[k])
    modifies s, s.buf
    ensures s.Valid() && Wrote(s.sizing, old(s.Snap()), s.Snap(), EncArray(f, items), ok)
  {
    hide Wrote, EncScalars, Storable, WfField, Tag, EncodeVarint, Append;
    ghost var a, tag, run := s.Snap(), Some(Tag(WT_STRING, f.tag)), EncScalars(f, items);
    assert f.tag < TWO_TO_THE_32 by { TagInRange(f); }
    PackedParts(f, items);
    ok := WriteTag(s, WT_STRING, f.tag);
    ghost var b := s.Snap();
    if !ok {
      if run.None? { FailsAfter(s.sizing, a, b, tag, false); }
      else { FailedFirst(s.sizing, a, b, tag, Some(LengthPrefixed(run.value))); }
      return;
    }
    var size;
    ok, size := PackedSize(f, items);
    if !ok {
      FailsAfter(s.sizing, a, b, tag, true);
      return;
    }
    ScalarsBound(f, items);
    ok := WriteVarint(s, size);
    ghost var c := s.Snap();
    Step(s.sizing, a, b, c, tag, Some(EncodeVarint(size)), run, ok);
    if !ok {
      return;
    }
    if s.sizing {
      ok := s.Count(size, run.value);
    } else {
      ok := WriteScalars(s, f, items);
    }
    WroteThen(s.sizing, a, c, s.Snap(), Append(tag, Some(EncodeVarint(size))), run, ok);
    AppendAssoc(tag, Some(EncodeVarint(size)), run);
  }

  lemma TagInRange(f: Field)
    requires WfField(f)
    ensures f.tag < TWO_TO_THE_32
  {
  }

  lemma PackedParts(f: Field, items: seq<Value>)
    requires f.ltype.Packable() && 0 < |items| <= f.arraySize
    ensures var run := EncScalars(f, items);
      EncArray(f, items) ==
        if run.None? then None
        else Append(Some(Tag(WT_STRING, f.tag)), Append(Some(EncodeVarint(|run.value|)), run))
    ensures var run := EncScalars(f, items);
      run.Some? ==> EncArray(f, items) == Append(Some(Tag(WT_STRING, f.tag)), Some(LengthPrefixed(run.value)))
  {
    hide EncScalars, Tag, EncodeVarint;
  }

  // ---------- proto3 defaults ----------

  /** pb_check_proto3_default_value */
  method CheckDefault(f: Field, c: Cell) returns (isDefault: bool)
    requires WfField(f) && StorableCell(f, c)
    ensures isDefault == IsDefault(f, c)
    decreases f, 1
  {
    hide WfField, Storable;
    match f.htype {
      case Required => isDefault := false;
      case Repeated => isDefault := c.items == [];
      case Oneof => isDefault := c.which == 0;
      case Optional =>
        if f.sizeOffset != 0 {
          isDefault := !c.has;
        } else {
          isDefault := CheckZero(f, c.v);
        }
    }
  }

  /** The part about proto3 singular fields; a submessage is zero when all its fields are. */
  method CheckZero(f: Field, v: Value) returns (isZero: bool)
    requires WfField(f) && Storable(f, v)
    ensures isZero == IsZero(f, v)
    decreases f, 0
  {
    hide IsDefault, StorableCell, FitsSigned, FitsUnsigned;
    if f.ltype == BytesT {
      isZero := v.b == [];
    } else if f.ltype == StringT {
      isZero := v.b == [] || v.b[0] == 0;
    } else if f.ltype == FixedLengthBytesT {
      isZero := f.dataSize == 0;
    } else if f.ltype == SubmessageT {
      isZero := CheckAllDefault(f.ptr.desc, v.cells);
    } else {
      isZero := v.n == 0;
    }
  }

  lemma DefaultSteps(d: Desc, m: seq<Cell>, n: nat)
    requires n <= |d.fields|
    ensures n == 0 ==> AllDefault(d, m, n)
    ensures n < |d.fields| && Slot(d.fields, n) < |m| ==>
      (AllDefault(d, m, n + 1) <==> AllDefault(d, m, n) && IsDefault(d.fields[n], m[Slot(d.fields, n)]))
    ensures AllDefault(d, m, |d.fields|) ==> forall i | 0 <= i < |d.fields| ::
      Slot(d.fields, i) < |m| && IsDefault(d.fields[i], m[Slot(d.fields, i)])
  {
    hide IsDefault, Slot;
  }

  /** The loop over the fields of a submessage. */
  method CheckAllDefault(d: Desc, m: seq<Cell>) returns (all: bool)
    requires WfDesc(d) && StorableCells(d, m)
    ensures all == AllDefault(d, m, |d.fields|)
    decreases d
  {
    hide AllDefault, IsDefault, StorableCell, StorableCells, WfField, WfDesc;
    DefaultSteps(d, m, 0);
    var it := new FieldIter(d.fields);
    var more := d.fields != [];
    ghost var i := 0;
    while more
      invariant it.Valid() && fresh(it) && it.start == d.fields
      invariant i <= |d.fields| && more == (i < |d.fields|) && (more ==> it.pos == i)
      invariant AllDefault(d, m, i)
      decreases |d.fields| - i
    {
      MemberStorable(d, m, i);
      DefaultSteps(d, m, i);
      DescField(d, i);
      var isDefault := CheckDefault(it.Current(), m[Slot(d.fields, it.pos)]);
      if !isDefault {
        return false;
      }
      more := it.Next();
      i := i + 1;
    }
    return true;
  }

  // ---------- fields and messages ----------

  /** encode_basic_field */
  method WriteField(s: OStream, f: Field, c: Cell) returns (ok: bool)
    requires s.Valid() && WfField(f) && StorableCell(f, c)
    modifies s, s.buf
    ensures s.Valid() && Wrote(s.sizing, old(s.Snap()), s.Snap(), EncField(f, c), ok)
    decreases f, 4
  {
    hide Wrote, EncTagged, EncArray, WfField, Storable, IsDefault;
    WroteNothing(s.sizing, s.Snap());
    ok := true;
    match f.htype {
      case Required =>
        ok := WriteTagged(s, f, c.v);
      case Optional =>
        var has := f.sizeOffset != 0 && c.Has? && c.has;
        if f.sizeOffset == 0 {
          var isDefault := CheckDefault(f, c);
          has := !isDefault;
        }
        if has {
          ok := WriteTagged(s, f, c.v);
        }
      case Repeated =>
        ok := WriteArray(s, f, c.items);
      case Oneof =>
        if c.which == f.tag {
          ok := WriteTagged(s, f, c.v);
        }
    }
  }

  /** pb_encode */
  method Encode(s: OStream, d: Desc, m: seq<Cell>) returns (ok: bool)
    requires s.Valid() && WfDesc(d) && StorableCells(d, m)
    modifies s, s.buf
    ensures s.Valid() && Wrote(s.sizing, old(s.Snap()), s.Snap(), EncMessage(d, m), ok)
    decreases d, 0
  {
    hide Wrote, EncField, Append, StorableCells, WfDesc, StorableCell, WfField;
    ghost var a, done, i := s.Snap(), Some([]), 0;
    WroteNothing(s.sizing, a);
    AppendAssoc(None, None, EncMessage(d, m));
    var it := new FieldIter(d.fields);
    var more := d.fields != [];
    while more
      invariant it.Valid() && fresh(it) && it.start == d.fields
      invariant i <= |d.fields| && more == (i < |d.fields|) && (more ==> it.pos == i)
      invariant s.Valid() && Wrote(s.sizing, a, s.Snap(), done, true)
      invariant Append(done, EncFrom(d, m, i)) == EncMessage(d, m)
      decreases |d.fields| - i
    {
      ghost var b, rest := s.Snap(), EncFrom(d, m, i + 1);
      DescField(d, i);
      MemberStorable(d, m, i);
      var f, c := it.Current(), m[Slot(d.fields, it.pos)];
      ok := WriteField(s, f, c);
      Step(s.sizing, a, b, s.Snap(), done, EncField(f, c), rest, ok);
      if !ok {
        return;
      }
      AppendAssoc(done, EncField(f, c), rest);
      done := Append(done, EncField(f, c));
      more := it.Next();
      i := i + 1;
    }
    AppendAssoc(None, None, done);
    ok := true;
  }

  /** pb_encode_submessage: a sizing pass, the size, and the same bytes again through a substream
      limited to that size. */
  method EncodeSubmessage(s: OStream, d: Desc, m: seq<Cell>) returns (ok: bool)
    requires s.Valid() && WfDesc(d) && StorableMessage(d, m)
    modifies s, s.buf
    ensures s.Valid()
    ensures var e := EncMessage(d, m);
      Wrote(s.sizing, old(s.Snap()), s.Snap(), if e.Some? then Some(LengthPrefixed(e.value)) else None, ok)
    decreases d, 1
  {
    ghost var a, e := s.Snap(), EncMessage(d, m);
    Fails(s.sizing, a);
    hide Wrote, EncMessage, EncodeVarint, WfDesc, StorableCells;
    var sizeStream := new OStream.Sizing();
    ghost var size0 := sizeStream.Snap();
    ok := Encode(sizeStream, d, m);
    Sized(size0, sizeStream.Snap(), e, ok);
    if !ok {
      return;
    }
    var size := sizeStream.bytesWritten;
    ok := WriteVarint(s, size);
    ghost var b := s.Snap();
    if !ok {
      FailedFirst(s.sizing, a, b, Some(EncodeVarint(size)), e);
      return;
    }
    if s.sizing {
      ok := s.Count(size, e.value);
      WroteThen(s.sizing, a, b, s.Snap(), Some(EncodeVarint(size)), e, ok);
      return;
    }
    if s.bytesWritten + size > s.maxSize {
      DoesNotFit(b, e.value);
      WroteThen(s.sizing, a, b, b, Some(EncodeVarint(size)), e, false);
      return false;
    }
    var sub := new OStream(s.buf, s.state, size);
    ghost var sub0 := sub.Snap();
    var status := Encode(sub, d, m);
    SubstreamWrote(b, sub0, sub.Snap(), e.value, status);
    s.bytesWritten := s.bytesWritten + sub.bytesWritten;
    s.state := sub.state;
    assert sub.bytesWritten == size;          // "submsg size changed" cannot happen
    ok := status && sub.bytesWritten == size;
    WroteThen(s.sizing, a, b, s.Snap(), Some(EncodeVarint(size)), e, ok);
  }

  lemma Sized(a: OState, b: OState, e: Option<seq<byte>>, ok: bool)
    requires Wrote(true, a, b, e, ok)
    ensures ok == e.Some? && (ok ==> b.bytesWritten == a.bytesWritten + |e.value|)
  {
  }

  lemma DoesNotFit(a: OState, e: seq<byte>)
    requires a.Valid(false) && a.bytesWritten + |e| > a.maxSize
    ensures Wrote(false, a, a, Some(e), false)
  {
  }

  /** What a substream limited to the size of e wrote, its parent has written. */
  lemma SubstreamWrote(a: OState, sub0: OState, sub1: OState, e: seq<byte>, status: bool)
    requires a.Valid(false) && a.bytesWritten + |e| <= a.maxSize
    requires sub0 == OState(a.state, |e|, 0, a.bytes) && Wrote(false, sub0, sub1, Some(e), status)
    ensures status && sub1.bytesWritten == |e|
    ensures Wrote(false, a, OState(sub1.state, a.maxSize, a.bytesWritten + |e|, sub1.bytes), Some(e), true)
  {
    var hi, hi' := a.state + |e|, a.state + (a.maxSize - a.bytesWritten);
    assert sub1.bytes[hi'..] == sub1.bytes[hi..][hi' - hi..] && a.bytes[hi'..] == a.bytes[hi..][hi' - hi..];
  }

  /** pb_get_encoded_size */
  method EncodedSize(d: Desc, m: seq<Cell>) returns (ok: bool, size: nat)
    requires WfDesc(d) && StorableCells(d, m)
    ensures ok == EncMessage(d, m).Some?
    ensures ok ==> size == |EncMessage(d, m).value|
  {
    hide EncMessage, WfDesc, StorableCells;
    var s := new OStream.Sizing();
    ok := Encode(s, d, m);
    size := s.bytesWritten;
  }

  /** Encoding into a buffer succeeds exactly when the sizing pass does and its size fits. The bytes
      written are then the first bytes of the buffer, as many as counted; the others are unchanged. */
  method EncodeToBuffer(buf: array<byte>, d: Desc, m: seq<Cell>) returns (ok: bool, size: nat)
    requires WfDesc(d) && StorableCells(d, m)
    modifies buf
    ensures ok == (EncMessage(d, m).Some? && |EncMessage(d, m).value| <= buf.Length)
    ensures ok ==> size == |EncMessage(d, m).value| && buf[..] == EncMessage(d, m).value + old(buf[..])[size..]
  {
    hide EncMessage, WfDesc, StorableCells;
    var s := new OStream(buf, 0, buf.Length);
    ok := Encode(s, d, m);
    size := s.bytesWritten;
    assert old(buf[..])[..0] == [];
  }
}
