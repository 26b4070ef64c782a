/** Message descriptors and message structs of nanopb, and the field iterator.

    A descriptor is the array of pb_field_t that describes a struct, without its terminator. A struct
    is the sequence of its members; a member is read through the C types (a bool, a count, a
    which_ tag, a NUL-terminated string), so bytes the library never looks at are not represented. */
module PbTypes {
  import opened Bits

  const PB_SIZE_MAX: int := 0xFFFF_FFFF        // pb_size_t is a uint32_t (PB_FIELD_32BIT)
  const PB_BYTES_HEADER: int := 4              // offsetof(pb_bytes_array_t, bytes)
  const PB_MAX_REQUIRED_FIELDS: int := 64

  datatype LType =
    | VarintT | UVarintT | SVarintT | Fixed32T | Fixed64T   // the packable types
    | BytesT | StringT | SubmessageT | ExtensionT | FixedLengthBytesT
  {
    predicate Packable() { VarintT? || UVarintT? || SVarintT? || Fixed32T? || Fixed64T? }
  }

  datatype HType = Required | Optional | Repeated | Oneof

  /** The `ptr` member of a field: nothing, the fields of a submessage, or a default value. */
  datatype Ptr = NullPtr | SubFields(desc: Desc) | DefaultValue(v: Value)

  datatype Field = Field(
    tag: nat, htype: HType, ltype: LType,
    dataOffset: nat, sizeOffset: int, dataSize: nat, arraySize: nat, ptr: Ptr)

  datatype Desc = Desc(fields: seq<Field>)

  /** PB_LAST_FIELD, the terminator of every field array. */
  const LAST_FIELD: Field := Field(0, Required, VarintT, 0, 0, 0, 0, NullPtr)

  /** An integer or float as its number, a bytes array or a string as its contents, a submessage. */
  datatype Value = VInt(n: int) | VBytes(b: seq<byte>) | VMsg(cells: seq<Cell>) | VNone

  /** A struct member: plain, with a has_ flag, an array with its count, a union with its which_. */
  datatype Cell =
    | Plain(v: Value)
    | Has(has: bool, v: Value)
    | Many(items: seq<Value>)
    | Union(which: nat, v: Value)

  // ---------- struct layout ----------

  /** Members of one oneof share their storage. */
  predicate InUnion(prev: Field, cur: Field) {
    prev.htype == Oneof && cur.htype == Oneof && cur.dataOffset == PB_SIZE_MAX
  }

  /** Index of the struct member that holds field i. */
  function Slot(fs: seq<Field>, i: nat): (s: nat)
    requires i < |fs|
    ensures s <= i
  {
    if i == 0 then 0
    else if InUnion(fs[i - 1], fs[i]) then Slot(fs, i - 1)
    else Slot(fs, i - 1) + 1
  }

  function Slots(fs: seq<Field>): nat {
    if fs == [] then 0 else Slot(fs, |fs| - 1) + 1
  }

  /** Bytes a field takes in the struct. */
  function MemberSize(f: Field): nat {
    if f.htype == Repeated then f.dataSize * f.arraySize else f.dataSize
  }

  /** Byte offset of field i in the struct, by a fresh scan from the start. */
  function DataOffset(fs: seq<Field>, i: nat): nat
    requires i < |fs|
  {
    if i == 0 then fs[0].dataOffset
    else if InUnion(fs[i - 1], fs[i]) then DataOffset(fs, i - 1)
    else DataOffset(fs, i - 1) + MemberSize(fs[i - 1]) + fs[i].dataOffset
  }

  /** Byte offset of the has_ flag, count or which_ tag of field i, by a fresh scan from the start:
      inside a union it stays that of the union's first member. */
  function SizeOffset(fs: seq<Field>, i: nat): int
    requires i < |fs|
  {
    if i > 0 && InUnion(fs[i - 1], fs[i]) then SizeOffset(fs, i - 1)
    else DataOffset(fs, i) + fs[i].sizeOffset
  }

  /** When the members of a oneof agree on where their which_ tag is, so do the iterator's size
      pointer and the offset the encoder computes from the field alone. */
  lemma {:induction false} SizeOffsetOfField(fs: seq<Field>, i: nat)
    requires i < |fs|
    requires forall k | 0 < k < |fs| :: InUnion(fs[k - 1], fs[k]) ==> fs[k].sizeOffset == fs[k - 1].sizeOffset
    ensures SizeOffset(fs, i) == DataOffset(fs, i) + fs[i].sizeOffset
  {
    if i > 0 { SizeOffsetOfField(fs, i - 1); }
  }

  /** Number of required fields among the first i. */
  function Requireds(fs: seq<Field>, i: nat): (n: nat)
    requires i <= |fs|
    ensures n <= i
  {
    if i == 0 then 0 else Requireds(fs, i - 1) + (if fs[i - 1].htype == Required then 1 else 0)
  }

  lemma {:induction false} SlotMonotone(fs: seq<Field>, i: nat, j: nat)
    requires i <= j < |fs|
    ensures Slot(fs, i) <= Slot(fs, j)
    decreases j
  {
    if i < j { SlotMonotone(fs, i, j - 1); }
  }

  /** Fields in the same member are consecutive members of one oneof. */
  lemma {:induction false} SameSlotIsOneof(fs: seq<Field>, i: nat, j: nat)
    requires i < j < |fs| && Slot(fs, i) == Slot(fs, j)
    ensures fs[i].htype == Oneof && fs[j].htype == Oneof
    decreases j
  {
    SlotMonotone(fs, i, j - 1);
    if i < j - 1 { SameSlotIsOneof(fs, i, j - 1); }
  }

  lemma {:induction false} RequiredsMonotone(fs: seq<Field>, i: nat, j: nat)
    requires i <= j <= |fs|
    ensures Requireds(fs, i) <= Requireds(fs, j)
    decreases j
  {
    if i < j { RequiredsMonotone(fs, i, j - 1); }
  }

  /** The iterator's data pointer tells struct members apart: two fields have the same offset
      exactly when they are members of the same oneof. */
  lemma {:induction false} OffsetIdentifiesSlot(fs: seq<Field>, i: nat, j: nat)
    requires i <= j < |fs|
    requires forall k | 0 <= k < |fs| :: MemberSize(fs[k]) > 0
    ensures DataOffset(fs, i) <= DataOffset(fs, j)
    ensures DataOffset(fs, i) == DataOffset(fs, j) <==> Slot(fs, i) == Slot(fs, j)
    decreases j
  {
    if i < j {
      OffsetIdentifiesSlot(fs, i, j - 1);
      SlotMonotone(fs, i, j - 1);
      assert MemberSize(fs[j - 1]) > 0;
    }
  }

  // ---------- field lookup ----------

  /** A search for a tag passes over extension placeholders. */
  predicate Matches(f: Field, tag: nat) {
    f.tag == tag && f.ltype != ExtensionT
  }

  /** The field with a given tag, |fs| if there is none. */
  function FindTag(fs: seq<Field>, tag: nat): (i: nat)
    ensures i <= |fs|
    ensures i < |fs| ==> Matches(fs[i], tag)
    ensures forall k | 0 <= k < i :: !Matches(fs[k], tag)
  {
    FindTagFrom(fs, tag, 0)
  }

  function FindTagFrom(fs: seq<Field>, tag: nat, j: nat): (i: nat)
    requires j <= |fs|
    ensures j <= i <= |fs|
    ensures i < |fs| ==> Matches(fs[i], tag)
    ensures forall k | j <= k < i :: !Matches(fs[k], tag)
    decreases |fs| - j
  {
    if j == |fs| || Matches(fs[j], tag) then j else FindTagFrom(fs, tag, j + 1)
  }

  predicate DistinctTags(fs: seq<Field>) {
    forall i, j | 0 <= i < j < |fs| :: fs[i].tag != fs[j].tag
  }

  /** pb_field_iter_t. Offsets are relative to the struct. */
  class FieldIter {
    const start: seq<Field>
    var pos: nat
    var requiredFieldIndex: nat
    var pData: int
    var pSize: int

    /** The field under the iterator; an empty message type has only the terminator. */
    function Current(): Field
      reads this
    {
      if pos < |start| then start[pos] else LAST_FIELD
    }

    /** The pointers and the required index are those of a fresh scan to pos. */
    ghost predicate Valid()
      reads this
    {
      && (if start == [] then pos == 0 && pData == 0 && requiredFieldIndex == 0
          else pos < |start| && pData == DataOffset(start, pos) && requiredFieldIndex == Requireds(start, pos))
      && pSize == (if start == [] then 0 else SizeOffset(start, pos))
    }

    constructor (fields: seq<Field>)
      ensures Valid() && start == fields && pos == 0
    {
      start := fields;
      pos := 0;
      requiredFieldIndex := 0;
      pData := if fields == [] then 0 else fields[0].dataOffset;
      pSize := (if fields == [] then 0 else fields[0].dataOffset)
             + (if fields == [] then 0 else fields[0].sizeOffset);
    }

    /** Back to the first field. */
    method Begin() returns (nonEmpty: bool)
      modifies this
      ensures Valid() && pos == 0 && nonEmpty == (start != [])
    {
      pos := 0;
      requiredFieldIndex := 0;
      pData := Current().dataOffset;
      pSize := pData + Current().sizeOffset;
      nonEmpty := start != [];
    }

    /** One field forward; false when the iterator wraps back to the first. */
    method Next() returns (more: bool)
      requires Valid()
      modifies this
      ensures Valid()
      ensures more == (old(pos) + 1 < |start|)
      ensures pos == if more then old(pos) + 1 else 0
    {
      if start == [] {
        return false;
      }
      var prev := Current();
      pos := pos + 1;
      if pos == |start| {
        var _ := Begin();
        return false;
      }
      var prevSize := prev.dataSize;
      if prev.htype == Oneof && Current().htype == Oneof && Current().dataOffset == PB_SIZE_MAX {
        return true;
      } else if prev.htype == Repeated {
        prevSize := prevSize * prev.arraySize;
      }
      if prev.htype == Required {
        requiredFieldIndex := requiredFieldIndex + 1;
      }
      pData := pData + prevSize + Current().dataOffset;
      pSize := pData + Current().sizeOffset;
      return true;
    }

    /** Cyclic search for a field from the current position. It stops at the first match; a failed
        search has visited every field and is back where it started. */
    method Find(tag: nat) returns (found: bool)
      requires Valid()
      modifies this
      ensures Valid()
      ensures found ==> Matches(Current(), tag)
      ensures found <==> (exists k :: 0 <= k < |start| && Matches(start[k], tag)) || (start == [] && tag == 0)
      ensures found ==> forall k | 0 <= k < |start| && Visited(old(pos), pos, k) :: !Matches(start[k], tag)
      ensures !found ==> pos == old(pos)
    {
      var startPos := pos;
      while true
        invariant Valid()
        invariant start != [] ==> startPos < |start|
        invariant forall k | 0 <= k < |start| && Visited(startPos, pos, k) :: !Matches(start[k], tag)
        decreases if pos >= startPos then |start| - pos + startPos else startPos - pos
      {
        if Matches(Current(), tag) {
          return true;
        }
        var _ := Next();
        if pos == startPos {
          return false;
        }
      }
    }
  }

  /** Does a cyclic walk from `from` to `to` pass over k? */
  predicate Visited(from: nat, to: nat, k: nat) {
    if from <= to then from <= k < to else k >= from || k < to
  }
}
