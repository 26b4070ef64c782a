/** The bytes that Protocol Buffers prescribes for a field. */
module PbWireFormat {
  import opened Bits
  import opened Wrappers
  import opened Varint
  import opened PbTypes
  import opened PbEncodeSpec
  import opened Sequences
  import opened TlsWire

  /** A varint has the groups of seven bits of the number, least significant first, in as few bytes as they take,
      all but the last with the continuation bit. */
  lemma {:induction false} VarintBytes(v: nat, k: nat)
    requires k < |EncodeVarint(v)|
    ensures var e := EncodeVarint(v);
      && e[k] == v / Pow2(7 * k) % 128 + (if k < |e| - 1 then 128 else 0)
      && v < Pow2(7 * |e|) && (|e| > 1 ==> Pow2(7 * (|e| - 1)) <= v)
    decreases v
  {
    hide Pow2;
    Pow2Values();
    PowZero();
    if v >= 128 {
      var e := EncodeVarint(v / 128);
      VarintBytes(v / 128, if k == 0 then 0 else k - 1);
      Pow2Add(7, 7 * |e|);
      if |e| > 1 { Pow2Add(7, 7 * (|e| - 1)); }
      if k > 0 {
        Pow2Add(7, 7 * (k - 1));
        DivTwice(v, 128, Pow2(7 * (k - 1)));
      }
    }
  }

  lemma PowZero()
    ensures Pow2(0) == 1
  {
  }

  /** The least significant byte comes first. */
  lemma {:induction false} FixedBytes(v: nat, n: nat, k: nat)
    requires k < n
    ensures LittleEndian(v, n)[k] == v / Pow2(8 * k) % 256
    decreases n
  {
    hide Pow2;
    PowZero();
    if k > 0 {
      FixedBytes(v / 256, n - 1, k - 1);
      Pow2Add(8, 8 * (k - 1));
      Pow2Values();
      DivTwice(v, 256, Pow2(8 * (k - 1)));
    }
  }

  /** A field is its number and wire type as one varint, then the value: numbers as varints, negative ones as
      64-bit two's complement or zigzag, or as four or eight bytes; everything else behind its length. */
  lemma FieldBytes(f: Field, v: Value)
    requires EncTagged(f, v).Some?
    ensures if v.VInt? then f.ltype.Packable() && -TWO_TO_THE_63 <= v.n else !f.ltype.Packable()
    ensures v.VInt? && f.ltype != VarintT && f.ltype != SVarintT ==> v.n >= 0
    ensures if v.VMsg? then f.ptr.SubFields? && EncMessage(f.ptr.desc, v.cells).Some? else v.VInt? || v.VBytes?
    ensures var key := (wire: nat) => EncodeVarint(8 * f.tag + wire);
      EncTagged(f, v).value ==
        if f.ltype == VarintT then key(0) + EncodeVarint(if v.n < 0 then TWO_TO_THE_64 + v.n else v.n)
        else if f.ltype == UVarintT then key(0) + EncodeVarint(v.n)
        else if f.ltype == SVarintT then key(0) + EncodeVarint(if v.n < 0 then -2 * v.n - 1 else 2 * v.n)
        else if f.ltype == Fixed64T then key(1) + LittleEndian(v.n, 8)
        else if f.ltype == Fixed32T then key(5) + LittleEndian(v.n, 4)
        else
          var s := if v.VMsg? then EncMessage(f.ptr.desc, v.cells).value
                   else if f.ltype == StringT then v.b[..StrnLen(v.b, f.dataSize)] else v.b;
          key(2) + EncodeVarint(|s|) + s
  {
    hide EncodeVarint, LittleEndian, EncMessage, StrnLen, ZigzagEncode;
    if f.ltype == SVarintT { ZigzagRoundTrip(v.n); }
  }

  /** An array of numbers is one record with the values after one another, without keys; any other array has a
      record for every entry. */
  lemma {:induction false} ArrayBytes(f: Field, items: seq<Value>, es: seq<seq<byte>>)
    requires items != [] && |items| <= f.arraySize && |es| == |items| && f.ltype != ExtensionT
    requires forall k | 0 <= k < |items| :: EncValue(f, items[k]) == Some(es[k])
    ensures var run := Flatten(es);
      EncArray(f, items) == Some(
        if f.ltype.Packable() then EncodeVarint(8 * f.tag + 2) + EncodeVarint(|run|) + run else Keyed(f, es))
  {
    hide EncodeVarint, EncTagged, EncScalars, EncItems, EncValue, Keyed, Flatten;
    if f.ltype.Packable() {
      RunBytes(f, items, es);
      assert Tag(2, f.tag) + (EncodeVarint(|Flatten(es)|) + Flatten(es))
          == EncodeVarint(8 * f.tag + 2) + EncodeVarint(|Flatten(es)|) + Flatten(es);
    } else {
      EntryBytes(f, items, es);
    }
  }

  /** A record for every payload. */
  function Keyed(f: Field, es: seq<seq<byte>>): seq<byte> {
    var wire := match f.ltype
      case VarintT | UVarintT | SVarintT => 0
      case Fixed64T => 1
      case Fixed32T => 5
      case _ => 2;
    if es == [] then [] else EncodeVarint(8 * f.tag + wire) + es[0] + Keyed(f, es[1..])
  }

  lemma {:induction false} RunBytes(f: Field, items: seq<Value>, es: seq<seq<byte>>)
    requires |es| == |items| && f.ltype.Packable()
    requires forall k | 0 <= k < |items| :: EncValue(f, items[k]) == Some(es[k])
    ensures EncScalars(f, items) == Some(Flatten(es))
  {
    hide EncScalar, Flatten;
    FlattenNothing<byte>();
    if items != [] {
      assert EncScalar(f, items[0]) == EncValue(f, items[0]) == Some(es[0]);
      RunBytes(f, items[1..], es[1..]);
      assert es == [es[0]] + es[1..];
      FlattenFirst(es[0], es[1..]);
    }
  }

  lemma {:induction false} EntryBytes(f: Field, items: seq<Value>, es: seq<seq<byte>>)
    requires |es| == |items| && f.ltype != ExtensionT
    requires forall k | 0 <= k < |items| :: EncValue(f, items[k]) == Some(es[k])
    ensures EncItems(f, items) == Some(Keyed(f, es))
  {
    hide EncValue, EncodeVarint;
    if items != [] { EntryBytes(f, items[1..], es[1..]); }
  }
}
