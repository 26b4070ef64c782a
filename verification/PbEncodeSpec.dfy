/** The nanopb encoder: what bytes a struct is encoded to. */
module PbEncodeSpec {
  import opened Bits
  import opened Wrappers
  import opened Varint
  import opened PbTypes

  const WT_VARINT := 0
  const WT_64BIT := 1
  const WT_STRING := 2
  const WT_32BIT := 5

  function WireType(t: LType): Option<nat> {
    match t
    case VarintT | UVarintT | SVarintT => Some(WT_VARINT)
    case Fixed32T => Some(WT_32BIT)
    case Fixed64T => Some(WT_64BIT)
    case BytesT | StringT | SubmessageT | FixedLengthBytesT => Some(WT_STRING)
    case ExtensionT => None
  }

  /** Numbers that a struct member of this type and size can hold. */
  predicate FitsSigned(size: nat, n: int) {
    match size
    case 1 => -0x80 <= n < 0x80
    case 2 => -0x8000 <= n < 0x8000
    case 4 => -0x8000_0000 <= n < 0x8000_0000
    case 8 => -0x8000_0000_0000_0000 <= n < 0x8000_0000_0000_0000
    case _ => false
  }

  predicate FitsUnsigned(size: nat, n: int) {
    match size
    case 1 => 0 <= n < 0x100
    case 2 => 0 <= n < 0x1_0000
    case 4 => 0 <= n < 0x1_0000_0000
    case 8 => 0 <= n < 0x1_0000_0000_0000_0000
    case _ => false
  }

  function Tag(wireType: nat, tag: nat): seq<byte> { EncodeVarint(tag * 8 + wireType) }

  function LengthPrefixed(s: seq<byte>): seq<byte> { EncodeVarint(|s|) + s }

  function Append(a: Option<seq<byte>>, b: Option<seq<byte>>): Option<seq<byte>> {
    if a.Some? && b.Some? then Some(a.value + b.value) else None
  }

  /** strnlen: bytes before the first NUL, at most max. Past the end of s the array holds NULs. */
  function StrnLen(s: seq<byte>, max: nat): (n: nat)
    ensures n <= |s| && n <= max && (n < |s| && n < max ==> s[n] == 0)
    ensures forall k | 0 <= k < n :: s[k] != 0
  {
    if s == [] || max == 0 || s[0] == 0 then 0 else 1 + StrnLen(s[1..], max - 1)
  }

  /** None for an invalid data_size. */
  function EncScalar(f: Field, v: Value): Option<seq<byte>> {
    if !v.VInt? then None
    else match f.ltype
      case VarintT => if FitsSigned(f.dataSize, v.n) then Some(EncodeVarint(ToUint64(v.n))) else None
      case UVarintT => if FitsUnsigned(f.dataSize, v.n) then Some(EncodeVarint(v.n)) else None
      case SVarintT => if FitsSigned(f.dataSize, v.n) then Some(EncodeVarint(ZigzagEncode(v.n))) else None
      case Fixed32T => if FitsUnsigned(4, v.n) then Some(LittleEndian(v.n, 4)) else None
      case Fixed64T => if FitsUnsigned(8, v.n) then Some(LittleEndian(v.n, 8)) else None
      case _ => None
  }

  /** The payload of one value, without its tag. */
  function EncValue(f: Field, v: Value): Option<seq<byte>>
    decreases f, 0
  {
    if f.ltype.Packable() then EncScalar(f, v)
    else match f.ltype
      case BytesT =>
        if v.VBytes? && |v.b| + PB_BYTES_HEADER <= f.dataSize then Some(LengthPrefixed(v.b)) else None
      case StringT =>
        if v.VBytes? then Some(LengthPrefixed(v.b[..StrnLen(v.b, f.dataSize)])) else None
      case FixedLengthBytesT =>
        if v.VBytes? && |v.b| == f.dataSize then Some(LengthPrefixed(v.b)) else None
      case SubmessageT =>
        if v.VMsg? && f.ptr.SubFields? then
          var e := EncMessage(f.ptr.desc, v.cells);
          if e.Some? then Some(LengthPrefixed(e.value)) else None
        else None
      case _ => None
  }

  function EncTagged(f: Field, v: Value): Option<seq<byte>>
    decreases f, 1
  {
    var wt := WireType(f.ltype);
    if wt.None? then None else Append(Some(Tag(wt.value, f.tag)), EncValue(f, v))
  }

  function EncScalars(f: Field, items: seq<Value>): Option<seq<byte>> {
    if items == [] then Some([]) else Append(EncScalar(f, items[0]), EncScalars(f, items[1..]))
  }

  function EncItems(f: Field, items: seq<Value>): Option<seq<byte>>
    decreases f, 2, |items|
  {
    if items == [] then Some([]) else Append(EncTagged(f, items[0]), EncItems(f, items[1..]))
  }

  /** Scalars are always packed into one length-delimited run. */
  function EncArray(f: Field, items: seq<Value>): Option<seq<byte>>
    decreases f, 3
  {
    if items == [] then Some([])
    else if |items| > f.arraySize then None
    else if f.ltype.Packable() then
      var e := EncScalars(f, items);
      if e.Some? then Some(Tag(WT_STRING, f.tag) + LengthPrefixed(e.value)) else None
    else EncItems(f, items)
  }

  /** pb_check_proto3_default_value */
  predicate IsDefault(f: Field, c: Cell)
    decreases f, 1
  {
    match f.htype
    case Required => false
    case Repeated => c.Many? && c.items == []
    case Oneof => c.Union? && c.which == 0
    case Optional => if f.sizeOffset != 0 then c.Has? && !c.has else c.Plain? && IsZero(f, c.v)
  }

  predicate IsZero(f: Field, v: Value)
    decreases f, 0
  {
    match f.ltype
    case BytesT => v.VBytes? && v.b == []
    case StringT => v.VBytes? && (v.b == [] || v.b[0] == 0)
    case FixedLengthBytesT => f.dataSize == 0
    case SubmessageT => f.ptr.SubFields? && v.VMsg? && AllDefault(f.ptr.desc, v.cells, |f.ptr.desc.fields|)
    case _ => v == VInt(0)
  }

  /** Are the first n fields zero? */
  predicate AllDefault(d: Desc, m: seq<Cell>, n: nat)
    requires n <= |d.fields|
    decreases d
  {
    forall i | 0 <= i < n :: Slot(d.fields, i) < |m| && IsDefault(d.fields[i], m[Slot(d.fields, i)])
  }

  function EncField(f: Field, c: Cell): Option<seq<byte>>
    decreases f, 4
  {
    match f.htype
    case Required => if c.Plain? then EncTagged(f, c.v) else None
    case Optional =>
      if f.sizeOffset != 0 then
        if !c.Has? then None else if c.has then EncTagged(f, c.v) else Some([])
      else
        if !c.Plain? then None else if IsDefault(f, c) then Some([]) else EncTagged(f, c.v)
    case Repeated => if c.Many? then EncArray(f, c.items) else None
    case Oneof =>
      if !c.Union? then None else if c.which == f.tag then EncTagged(f, c.v) else Some([])
  }

  /** Fields i and later, in the order of the descriptor. */
  function EncFrom(d: Desc, m: seq<Cell>, i: nat): Option<seq<byte>>
    requires i <= |d.fields|
    decreases d, |d.fields| - i
  {
    if i == |d.fields| then Some([])
    else if Slot(d.fields, i) >= |m| then None
    else Append(EncField(d.fields[i], m[Slot(d.fields, i)]), EncFrom(d, m, i + 1))
  }

  function EncMessage(d: Desc, m: seq<Cell>): Option<seq<byte>>
    decreases d, |d.fields| + 1
  {
    EncFrom(d, m, 0)
  }
}
