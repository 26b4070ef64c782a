/** The records of an encoded message, by their tags and lengths, and what must be among them. */
module PbRecords {
  import opened Bits
  import opened Wrappers
  import opened Varint
  import opened PbTypes
  import opened PbEncodeSpec
  import opened PbDecodeSpec
  import opened PbRoundTrip

  // ---------- where records end ----------

  /** How the length of a payload is found: by the type of a known field, except that a packable array takes
      the wire type 2 for a packed run; by the wire type otherwise. */
  function LengthKind(d: Desc, tag: nat, wt: nat): Option<nat> {
    var i := FindTag(d.fields, tag);
    if i == |d.fields| then if wt in {0, 1, 2, 5} then Some(wt) else None
    else
      var f := d.fields[i];
      if f.htype == Repeated && f.ltype.Packable() && wt == 2 then Some(2)
      else match f.ltype
        case VarintT | UVarintT | SVarintT => Some(0)
        case Fixed32T => Some(5)
        case Fixed64T => Some(1)
        case BytesT | StringT | SubmessageT | FixedLengthBytesT => Some(2)
        case ExtensionT => None
  }

  /** What follows a payload. */
  function Behind(kind: nat, bs: seq<byte>): (r: Option<seq<byte>>)
    ensures r.Some? ==> |r.value| < |bs|
  {
    match kind
    case 0 => if FirstStop(bs) < |bs| then Some(bs[FirstStop(bs) + 1..]) else None
    case 1 => if |bs| >= 8 then Some(bs[8..]) else None
    case 5 => if |bs| >= 4 then Some(bs[4..]) else None
    case 2 => (
      match DecodeVarint32(bs)
      case Fail => None
      case Got(n, rest) => if |rest| >= n then Some(rest[n..]) else None)
    case _ => None
  }

  /** The tags of the records of a message, up to a zero tag or to what is not a record. */
  function TagsRead(d: Desc, bs: seq<byte>): set<nat>
    decreases |bs|
  {
    if bs == [] then {}
    else match DecTag(bs)
      case TagBad | TagEnd(_) => {}
      case TagOk(tag, wt, payload) =>
        var kind := LengthKind(d, tag, wt);
        var rest := if kind.Some? then Behind(kind.value, payload) else None;
        if rest.Some? then {tag} + TagsRead(d, rest.value) else {}
  }

  lemma VarintEnds(bs: seq<byte>)
    ensures DecodeVarint64(bs).Got? ==> Behind(0, bs) == Some(DecodeVarint64(bs).rest)
    ensures SkipVarint(bs) == if Behind(0, bs).Some? then Got((), Behind(0, bs).value) else Fail
  {
    hide FirstStop, GroupsValue, Trunc64;
  }

  lemma PrefixedEnds(bs: seq<byte>)
    ensures SplitPrefixed(bs).Got? <==> Behind(2, bs).Some?
    ensures SplitPrefixed(bs).Got? ==> Behind(2, bs) == Some(SplitPrefixed(bs).rest)
  {
    hide DecodeVarint32;
  }

  /** An unknown field is skipped exactly when its wire type is valid and its payload is there. */
  lemma SkipExactly(d: Desc, tag: nat, wt: nat, bs: seq<byte>)
    requires FindTag(d.fields, tag) == |d.fields|
    ensures var kind := LengthKind(d, tag, wt);
      SkipField(wt, bs) ==
        if kind.Some? && Behind(kind.value, bs).Some? then Got((), Behind(kind.value, bs).value) else Fail
  {
    hide SkipVarint, SplitPrefixed, FindTag, FirstStop;
    VarintEnds(bs);
    PrefixedEnds(bs);
  }

  lemma ValueEnds(f: Field, prior: Value, bs: seq<byte>)
    requires DecValue(f, prior, bs).Got? && f.ltype != ExtensionT
    ensures Behind(PlainWire(f), bs) == Some(DecValue(f, prior, bs).rest)
  {
    hide DecodeVarint64, SplitPrefixed, DecMessage, SubmessageBase, FirstStop, StrnLen, FitsSigned, FitsUnsigned,
      FromLittleEndian, ZigzagDecode;
    VarintEnds(bs);
    PrefixedEnds(bs);
  }

  lemma FieldEnds(f: Field, c: Cell, wt: nat, bs: seq<byte>)
    requires DecField(f, c, wt, bs).Got? && f.ltype != ExtensionT
    ensures Behind(if f.htype == Repeated && f.ltype.Packable() && wt == WT_STRING then 2 else PlainWire(f), bs)
      == Some(DecField(f, c, wt, bs).rest)
  {
    hide DecValue, Behind, DecPacked, SplitPrefixed, DefaultOf;
    if f.htype == Repeated && wt == WT_STRING && f.ltype.Packable() {
      PrefixedEnds(bs);
    } else {
      var prior := match f.htype
        case Required | Optional => c.v
        case Repeated => VNone
        case Oneof => if f.ltype.SubmessageT? then DefaultOf(f) else VNone;
      ValueEnds(f, prior, bs);
    }
  }

  lemma RecordEnds(d: Desc, m: seq<Cell>, tag: nat, wt: nat, bs: seq<byte>)
    requires WfDesc(d) && DecRecord(d, m, tag, wt, bs).Got?
    ensures var kind := LengthKind(d, tag, wt);
      kind.Some? && Behind(kind.value, bs) == Some(DecRecord(d, m, tag, wt, bs).rest)
    ensures DecRecord(d, m, tag, wt, bs).value.1 == FindTag(d.fields, tag)
  {
    hide DecField, SkipField, Behind, FindTag, WfField, Slot, UnionTagOk;
    var i := FindTag(d.fields, tag);
    if i == |d.fields| {
      SkipExactly(d, tag, wt, bs);
    } else {
      assert d.fields[i].ltype != ExtensionT;
      FieldEnds(d.fields[i], m[Slot(d.fields, i)], wt, bs);
    }
  }

  /** Where the loop stops: at a tag that is no 32-bit varint, at a zero tag, and at an unknown field whose wire
      type is invalid or whose payload is not all there. Tag 0 is an error in a message type without fields. */
  lemma LoopEnds(d: Desc, m: seq<Cell>, seen: set<nat>, bs: seq<byte>)
    requires bs != []
    ensures var t, loop := DecodeVarint32(bs), DecLoop(d, m, seen, bs);
      && (t.Fail? ==> loop == Bad)
      && (t.Got? && t.value == 0 ==> loop == Done(m, seen, t.rest, true))
      && (t.Got? && t.value != 0 && FindTag(d.fields, t.value / 8) == |d.fields| ==>
          var wt := t.value % 8;
          if wt in {0, 1, 2, 5} && Behind(wt, t.rest).Some? && !(d.fields == [] && t.value < 8) then
            loop == DecLoop(d, m, seen, Behind(wt, t.rest).value)
          else loop == Bad)
  {
    hide DecodeVarint32, FindTag, SkipField, Behind;
    var t := DecodeVarint32(bs);
    if t.Got? && FindTag(d.fields, t.value / 8) == |d.fields| { SkipExactly(d, t.value / 8, t.value % 8, t.rest); }
  }

  // ---------- required fields ----------

  /** The seen set of the loop and the tags read say the same. */
  lemma {:induction false} SeenAreTags(d: Desc, m: seq<Cell>, seen: set<nat>, bs: seq<byte>, i: nat)
    requires WfDesc(d) && DecLoop(d, m, seen, bs).Done? && i < |d.fields| && d.fields[i].htype == Required
    requires Requireds(d.fields, i) < PB_MAX_REQUIRED_FIELDS
    ensures Requireds(d.fields, i) in DecLoop(d, m, seen, bs).seen <==>
      Requireds(d.fields, i) in seen || d.fields[i].tag in TagsRead(d, bs)
    decreases |bs|
  {
    hide DecTag, DecRecord, LengthKind, Behind, Requireds, FindTag, WfField;
    if bs != [] && DecTag(bs).TagOk? {
      var TagOk(tag, wt, payload) := DecTag(bs);
      var Got((m', k), rest) := DecRecord(d, m, tag, wt, payload);
      RecordEnds(d, m, tag, wt, payload);
      MarkIsTag(d, k, tag, i, seen);
      SeenAreTags(d, m', if k < |d.fields| then MarkSeen(d, k, seen) else seen, rest, i);
    }
  }

  lemma MarkIsTag(d: Desc, k: nat, tag: nat, i: nat, seen: set<nat>)
    requires WfDesc(d) && k == FindTag(d.fields, tag) && i < |d.fields| && d.fields[i].htype == Required
    requires Requireds(d.fields, i) < PB_MAX_REQUIRED_FIELDS
    ensures var seen' := if k < |d.fields| then MarkSeen(d, k, seen) else seen;
      Requireds(d.fields, i) in seen' <==> Requireds(d.fields, i) in seen || d.fields[i].tag == tag
  {
    hide WfField, FindTag;
    DescField(d, i);
    NotExtension(d.fields[i]);
    FindTagUnique(d.fields, i);
    if k < |d.fields| && k != i {
      if k < i { RequiredsMonotone(d.fields, k + 1, i); } else { RequiredsMonotone(d.fields, i + 1, k); }
    }
  }

  /** Requireds numbers the required fields. */
  lemma {:induction false} RequiredAt(fs: seq<Field>, n: nat, k: nat) returns (i: nat)
    requires n <= |fs| && k < Requireds(fs, n)
    ensures i < n && fs[i].htype == Required && Requireds(fs, i) == k
    decreases n
  {
    if fs[n - 1].htype == Required && k == Requireds(fs, n - 1) {
      i := n - 1;
    } else {
      i := RequiredAt(fs, n - 1, k);
    }
  }

  function RequiredBefore(fs: seq<Field>, i: nat): nat
    requires i <= |fs|
  {
    |set j | 0 <= j < i && fs[j].htype == Required|
  }

  /** The number of a field among the required ones is the number of required fields before it. */
  lemma {:induction false} RequiredsCount(fs: seq<Field>, i: nat)
    requires i <= |fs|
    ensures Requireds(fs, i) == RequiredBefore(fs, i)
    decreases i
  {
    var before := set j | 0 <= j < i && fs[j].htype == Required;
    if i > 0 {
      RequiredsCount(fs, i - 1);
      var s := set j | 0 <= j < i - 1 && fs[j].htype == Required;
      assert before == if fs[i - 1].htype == Required then s + {i - 1} else s;
    } else {
      assert before == {};
    }
  }

  /** A tag of each of the first 64 required fields. */
  ghost predicate HasRequired(d: Desc, tags: set<nat>) {
    forall i | 0 <= i < |d.fields| && d.fields[i].htype == Required && RequiredBefore(d.fields, i) < 64 ::
      d.fields[i].tag in tags
  }

  /** Main theorem. A message is accepted exactly when every record of it is and, for each of the first 64
      required fields, there is a record with its tag. */
  lemma AcceptedExactly(d: Desc, m: seq<Cell>, bs: seq<byte>)
    requires WfDesc(d)
    ensures var r := DecLoop(d, m, {}, bs);
      DecMessage(d, m, bs) ==
        if r.Done? && HasRequired(d, TagsRead(d, bs)) then Got(r.m, r.rest) else Fail
  {
    hide WfDesc, DecLoop, TagsRead, Requireds;
    var r := DecLoop(d, m, {}, bs);
    if r.Done? {
      forall i | 0 <= i < |d.fields| && d.fields[i].htype == Required && Requireds(d.fields, i) < 64
        ensures Requireds(d.fields, i) in r.seen <==> d.fields[i].tag in TagsRead(d, bs)
      {
        SeenAreTags(d, m, {}, bs, i);
      }
      SeenIsRequired(d, r.seen, TagsRead(d, bs));
    }
  }

  lemma SeenIsRequired(d: Desc, seen: set<nat>, tags: set<nat>)
    requires forall i | 0 <= i < |d.fields| && d.fields[i].htype == Required && Requireds(d.fields, i) < 64 ::
      Requireds(d.fields, i) in seen <==> d.fields[i].tag in tags
    ensures RequiredSeen(d, seen) <==> HasRequired(d, tags)
  {
    hide Requireds, RequiredBefore;
    forall i | 0 <= i <= |d.fields| ensures Requireds(d.fields, i) == RequiredBefore(d.fields, i) {
      RequiredsCount(d.fields, i);
    }
    if HasRequired(d, tags) {
      forall k: nat | k < Requireds(d.fields, |d.fields|) && k < PB_MAX_REQUIRED_FIELDS ensures k in seen {
        var i := RequiredAt(d.fields, |d.fields|, k);
      }
    }
    if RequiredSeen(d, seen) {
      forall i | 0 <= i < |d.fields| && d.fields[i].htype == Required && Requireds(d.fields, i) < 64
        ensures d.fields[i].tag in tags
      {
        RequiredBelow(d.fields, i);
      }
    }
  }

  lemma RequiredBelow(fs: seq<Field>, i: nat)
    requires i < |fs| && fs[i].htype == Required
    ensures Requireds(fs, i) < Requireds(fs, |fs|)
  {
    RequiredsMonotone(fs, i + 1, |fs|);
  }
}
