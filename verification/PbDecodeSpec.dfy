/** The nanopb decoder: which inputs it accepts, and what struct it leaves behind. */
module PbDecodeSpec {
  import opened Bits
  import opened Wrappers
  import opened Varint
  import opened PbTypes
  import opened PbEncodeSpec

  // ---------- defaults ----------

  function Zeros(n: nat): seq<byte> { seq(n, _ => 0) }

  function DefaultOf(f: Field): Value
    decreases f, 0
  {
    if f.ltype.SubmessageT? then
      if f.ptr.SubFields? then VMsg(DefaultCells(f.ptr.desc)) else VNone
    else if f.ptr.DefaultValue? then f.ptr.v
    else match f.ltype
      case BytesT | StringT => VBytes([])
      case FixedLengthBytesT => VBytes(Zeros(f.dataSize))
      case _ => VInt(0)
  }

  /** pb_field_set_to_default */
  function DefaultCell(f: Field): Cell
    decreases f, 1
  {
    match f.htype
    case Required => Plain(DefaultOf(f))
    case Optional => if f.sizeOffset != 0 then Has(false, DefaultOf(f)) else Plain(DefaultOf(f))
    case Repeated => Many([])
    case Oneof => Union(0, VNone)
  }

  /** The members of the first n fields. */
  function DefaultPrefix(d: Desc, n: nat): (m: seq<Cell>)
    requires n <= |d.fields|
    ensures |m| == if n == 0 then 0 else Slot(d.fields, n - 1) + 1
    decreases d, n
  {
    if n == 0 then []
    else if n > 1 && InUnion(d.fields[n - 2], d.fields[n - 1]) then DefaultPrefix(d, n - 1)
    else DefaultPrefix(d, n - 1) + [DefaultCell(d.fields[n - 1])]
  }

  /** pb_message_set_to_defaults */
  function DefaultCells(d: Desc): (m: seq<Cell>)
    ensures |m| == Slots(d.fields)
    decreases d, |d.fields| + 1
  {
    DefaultPrefix(d, |d.fields|)
  }

  // ---------- values ----------

  function ToInt32(v: nat): int
    requires v < TWO_TO_THE_32
  {
    if v < TWO_TO_THE_31 then v else v - TWO_TO_THE_32
  }

  /** Members of 32 bits or less get the low 32 bits of the varint, sign-extended; a number that
      the member cannot hold is an error, and so is an invalid data_size. */
  function DecScalar(f: Field, bs: seq<byte>): (r: Dec<Value>)
    ensures r.Got? ==> |r.rest| < |bs|
  {
    match f.ltype
    case VarintT => (
      match DecodeVarint64(bs)
      case Fail => Fail
      case Got(u, rest) =>
        var n := if f.dataSize == 8 then ToInt64(u) else ToInt32(Trunc32(u));
        if FitsSigned(f.dataSize, n) then Got(VInt(n), rest) else Fail)
    case UVarintT => (
      match DecodeVarint64(bs)
      case Fail => Fail
      case Got(u, rest) => if FitsUnsigned(f.dataSize, u) then Got(VInt(u), rest) else Fail)
    case SVarintT => (
      match DecodeVarint64(bs)
      case Fail => Fail
      case Got(u, rest) =>
        if FitsSigned(f.dataSize, ZigzagDecode(u)) then Got(VInt(ZigzagDecode(u)), rest) else Fail)
    case Fixed32T => (
      match DecodeFixed(bs, 4)
      case Fail => Fail
      case Got(u, rest) => Got(VInt(u), rest))
    case Fixed64T => (
      match DecodeFixed(bs, 8)
      case Fail => Fail
      case Got(u, rest) => Got(VInt(u), rest))
    case _ => Fail
  }

  /** A length prefix and as many bytes. */
  function SplitPrefixed(bs: seq<byte>): (r: Dec<seq<byte>>)
    ensures r.Got? ==> |r.value| + |r.rest| < |bs|
  {
    match DecodeVarint32(bs)
    case Fail => Fail
    case Got(size, rest) => if |rest| < size then Fail else Got(rest[..size], rest[size..])
  }

  /** One value, whatever the wire type says. A submessage is merged into `prior`, except that array
      entries start from the defaults. */
  function DecValue(f: Field, prior: Value, bs: seq<byte>): (r: Dec<Value>)
    ensures r.Got? ==> |r.rest| < |bs|
    decreases f, 0
  {
    if f.ltype.Packable() then DecScalar(f, bs)
    else match SplitPrefixed(bs)
      case Fail => Fail
      case Got(s, rest) =>
        match f.ltype
        case BytesT => if |s| + PB_BYTES_HEADER > f.dataSize then Fail else Got(VBytes(s), rest)
        case StringT => if |s| + 1 > f.dataSize then Fail else Got(VBytes(s[..StrnLen(s, |s|)]), rest)
        case FixedLengthBytesT =>
          if s == [] then Got(VBytes(Zeros(f.dataSize)), rest)
          else if |s| != f.dataSize then Fail
          else Got(VBytes(s), rest)
        case SubmessageT => (
          match SubmessageBase(f, prior)
          case None => Fail
          case Some(base) =>
            match DecMessage(f.ptr.desc, base, s)
            case Fail => Fail
            case Got(m, _) => Got(VMsg(m), rest))
        case _ => Fail
  }

  /** What a submessage is decoded into. */
  function SubmessageBase(f: Field, prior: Value): (r: Option<seq<Cell>>)
    ensures r.Some? ==> f.ptr.SubFields? && |r.value| == Slots(f.ptr.desc.fields)
    decreases f, 0
  {
    if !f.ptr.SubFields? then None
    else if f.htype == Repeated then Some(DefaultCells(f.ptr.desc))
    else if prior.VMsg? && |prior.cells| == Slots(f.ptr.desc.fields) then Some(prior.cells)
    else None
  }

  /** A packed run must be used up before the array is full. */
  function DecPacked(f: Field, items: seq<Value>, bs: seq<byte>): (r: Option<seq<Value>>)
    decreases |bs|
  {
    if bs == [] then Some(items)
    else if |items| >= f.arraySize then None
    else match DecScalar(f, bs)
      case Fail => None
      case Got(v, rest) => DecPacked(f, items + [v], rest)
  }

  /** decode_static_field */
  function DecField(f: Field, c: Cell, wireType: nat, bs: seq<byte>): (r: Dec<Cell>)
    ensures r.Got? ==> |r.rest| < |bs|
    decreases f, 1
  {
    match f.htype
    case Required => (
      if !c.Plain? then Fail else
      match DecValue(f, c.v, bs)
      case Fail => Fail
      case Got(v, rest) => Got(Plain(v), rest))
    case Optional => (
      if (if f.sizeOffset != 0 then !c.Has? else !c.Plain?) then Fail else
      match DecValue(f, c.v, bs)
      case Fail => Fail
      case Got(v, rest) => Got(if f.sizeOffset != 0 then Has(true, v) else Plain(v), rest))
    case Repeated => (
      if !c.Many? then Fail
      else if wireType == WT_STRING && f.ltype.Packable() then
        match SplitPrefixed(bs)
        case Fail => Fail
        case Got(s, rest) =>
          match DecPacked(f, c.items, s)
          case None => Fail
          case Some(items) => Got(Many(items), rest)
      else if |c.items| >= f.arraySize then Fail
      else
        match DecValue(f, VNone, bs)
        case Fail => Fail
        case Got(v, rest) => Got(Many(c.items + [v]), rest))
    case Oneof => (
      if !c.Union? then Fail else
      match DecValue(f, if f.ltype.SubmessageT? then DefaultOf(f) else VNone, bs)
      case Fail => Fail
      case Got(v, rest) => Got(Union(f.tag, v), rest))
  }

  // ---------- messages ----------

  /** pb_release_union_field, as far as static fields go: another tag in a union must name a field. */
  predicate UnionTagOk(d: Desc, f: Field, c: Cell) {
    f.htype == Oneof && c.Union? && c.which != 0 && c.which != f.tag ==> FindTag(d.fields, c.which) < |d.fields|
  }

  datatype TagResult = TagBad | TagEnd(rest: seq<byte>) | TagOk(tag: nat, wireType: nat, rest: seq<byte>)

  /** pb_decode_tag. A zero byte ends a message. */
  function DecTag(bs: seq<byte>): (r: TagResult)
    ensures r.TagOk? ==> |r.rest| < |bs|
  {
    match DecodeVarint32(bs)
    case Fail => if bs == [] then TagEnd([]) else TagBad
    case Got(t, rest) => if t == 0 then TagEnd(rest) else TagOk(t / 8, t % 8, rest)
  }

  /** pb_skip_field */
  function SkipField(wireType: nat, bs: seq<byte>): (r: Dec<()>)
    ensures r.Got? ==> |r.rest| < |bs|
  {
    match wireType
    case 0 => SkipVarint(bs)
    case 1 => if |bs| < 8 then Fail else Got((), bs[8..])
    case 2 => (
      match SplitPrefixed(bs)
      case Fail => Fail
      case Got(_, rest) => Got((), rest))
    case 5 => if |bs| < 4 then Fail else Got((), bs[4..])
    case _ => Fail
  }

  /** The required fields seen so far, by required index; indices from 64 on are not tracked. */
  function MarkSeen(d: Desc, i: nat, seen: set<nat>): set<nat>
    requires i < |d.fields|
  {
    if d.fields[i].htype == Required && Requireds(d.fields, i) < PB_MAX_REQUIRED_FIELDS
    then seen + {Requireds(d.fields, i)} else seen
  }

  predicate RequiredSeen(d: Desc, seen: set<nat>) {
    forall k: nat | k < Requireds(d.fields, |d.fields|) && k < PB_MAX_REQUIRED_FIELDS :: k in seen
  }

  /** The outcome of a run of the field loop: the struct, the required fields seen, the unread
      input, and whether a zero tag ended it. */
  datatype Loop = Bad | Done(m: seq<Cell>, seen: set<nat>, rest: seq<byte>, zero: bool)

  function DecLoop(d: Desc, m: seq<Cell>, seen: set<nat>, bs: seq<byte>): (r: Loop)
    ensures r.Done? ==> |r.rest| <= |bs| && (!r.zero ==> r.rest == [])
    decreases d, |bs|, 0
  {
    if bs == [] then Done(m, seen, [], false)
    else match DecTag(bs)
      case TagBad => Bad
      case TagEnd(rest) => Done(m, seen, rest, true)
      case TagOk(tag, wt, rest) =>
        match DecRecord(d, m, tag, wt, rest)
        case Fail => Bad
        case Got((m', i), rest') => DecLoop(d, m', if i < |d.fields| then MarkSeen(d, i, seen) else seen, rest')
  }

  /** One record after its tag: the changed struct and the field, |d.fields| for an unknown one. In
      a message type without fields tag 0 finds the terminator, whose data_size 0 is invalid. */
  function DecRecord(d: Desc, m: seq<Cell>, tag: nat, wt: nat, bs: seq<byte>): (r: Dec<(seq<Cell>, nat)>)
    ensures r.Got? ==> |r.rest| < |bs|
    decreases d, |bs|, 1
  {
    var i := FindTag(d.fields, tag);
    if i == |d.fields| then
      if d.fields == [] && tag == 0 then Fail
      else match SkipField(wt, bs)
        case Fail => Fail
        case Got(_, rest) => Got((m, i), rest)
    else
      var s := Slot(d.fields, i);
      if s >= |m| || !UnionTagOk(d, d.fields[i], m[s]) then Fail
      else match DecField(d.fields[i], m[s], wt, bs)
        case Fail => Fail
        case Got(c, rest) => Got((m[s := c], i), rest)
  }

  /** pb_decode_noinit */
  function DecMessage(d: Desc, m: seq<Cell>, bs: seq<byte>): (r: Dec<seq<Cell>>)
    ensures r.Got? ==> |r.rest| <= |bs|
    decreases d, |bs|, 1
  {
    match DecLoop(d, m, {}, bs)
    case Bad => Fail
    case Done(m', seen, rest, _) => if RequiredSeen(d, seen) then Got(m', rest) else Fail
  }

  /** pb_decode */
  function DecodeFresh(d: Desc, bs: seq<byte>): Dec<seq<Cell>> {
    DecMessage(d, DefaultCells(d), bs)
  }

  /** pb_decode_delimited_noinit */
  function DecDelimited(d: Desc, m: seq<Cell>, bs: seq<byte>): Dec<seq<Cell>> {
    match SplitPrefixed(bs)
    case Fail => Fail
    case Got(s, rest) =>
      match DecMessage(d, m, s)
      case Fail => Fail
      case Got(m', _) => Got(m', rest)
  }
}
