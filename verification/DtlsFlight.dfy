/** A flight of outgoing handshake messages, and the pieces it is cut into. */
module DtlsFlight {
  import opened Bits
  import opened Wrappers
  import opened TlsWire
  import opened DtlsFragment
  import opened DtlsNumbers
  import opened DtlsRecord

  /** DTLS_OUTGOING_MESSAGE: a serialized handshake message, or a ChangeCipherSpec. */
  datatype OutMsg = OutMsg(data: seq<byte>, epoch: nat, isCcs: bool)

  /** A message is serialized as a single fragment. */
  predicate WellFormed(m: OutMsg) {
    m.isCcs ||
    var p := ParseFragment(m.data);
    p.Parsed? && p.hdr.fragOff == 0 && p.hdr.msgLen == |p.body| && p.rest == []
  }

  function HeaderOf(m: OutMsg): Header
    requires WellFormed(m) && !m.isCcs
  {
    ParseFragment(m.data).hdr
  }

  function BodyOf(m: OutMsg): seq<byte> {
    if m.isCcs || !WellFormed(m) then [] else ParseFragment(m.data).body
  }

  // ---------- building a message ----------

  /** What dtls1_init_message and the caller have written when dtls1_finish_message is called: the total
      length is still 0. */
  function Unfinished(typ: nat, seqNo: nat, body: seq<byte>): (r: seq<byte>)
    ensures |r| == HM_HEADER_LENGTH + |body|
  {
    HeaderBytes(Header(typ, 0, seqNo, 0, |body|)) + body
  }

  /** The fragment length copied into the total length. */
  function Finished(out: seq<byte>): seq<byte>
    requires |out| >= HM_HEADER_LENGTH
  {
    out[..1] + out[HM_HEADER_LENGTH - 3..HM_HEADER_LENGTH] + out[4..]
  }

  /** dtls1_finish_message: fixes up the header in place. */
  method FinishMessage(out: array<byte>) returns (ok: bool)
    modifies out
    ensures ok == (out.Length >= HM_HEADER_LENGTH)
    ensures out[..] == if ok then Finished(old(out[..])) else old(out[..])
  {
    if out.Length < HM_HEADER_LENGTH {
      return false;
    }
    for i := 0 to 3
      invariant out[..] == old(out[..1] + out[9..9 + i] + out[1 + i..])
    {
      out[1 + i] := out[9 + i];
    }
    return true;
  }

  /** A finished message is one whole fragment with its own length, type and sequence number. */
  lemma FinishedIsWellFormed(typ: nat, seqNo: nat, body: seq<byte>, epoch: nat)
    requires typ < 0x100 && seqNo < 0x1_0000 && |body| < 0x100_0000
    ensures var m := OutMsg(Finished(Unfinished(typ, seqNo, body)), epoch, false);
      WellFormed(m) && HeaderOf(m) == Header(typ, |body|, seqNo, 0, |body|) && BodyOf(m) == body
  {
    hide BigEndian, ParseFragment;
    var h := Header(typ, |body|, seqNo, 0, |body|);
    var out := Unfinished(typ, seqNo, body);
    assert out[..1] == BigEndian(typ, 1) && out[9..12] == BigEndian(|body|, 3);
    assert out[4..] == BigEndian(seqNo, 2) + BigEndian(0, 3) + BigEndian(|body|, 3) + body;
    assert Finished(out) == HeaderBytes(h) + body + [];
    FragmentRoundTrip(h, body, []);
  }

  lemma ParsedFits(bs: seq<byte>)
    requires ParseFragment(bs).Parsed?
    ensures ParseFragment(bs).hdr.Fits()
  {
    hide FromBigEndian, Pow2;
    Pow2Values();
    Pow2Add(8, 8);
    Pow2Add(16, 8);
    FromBigEndianBound(bs[..1]);
    FromBigEndianBound(bs[1..4]);
    FromBigEndianBound(bs[4..6]);
    FromBigEndianBound(bs[6..9]);
    FromBigEndianBound(bs[9..12]);
  }

  /** outgoing_written and outgoing_offset. */
  datatype Pos = Pos(written: nat, offset: nat)

  /** What one record carries: a ChangeCipherSpec or part of a message. */
  datatype Piece = Ccs(index: nat) | Part(index: nat, off: nat, len: nat)

  /** The piece lies within a message of its kind. */
  predicate InMessage(msgs: seq<OutMsg>, p: Piece) {
    && p.index < |msgs| && (p.Ccs? <==> msgs[p.index].isCcs)
    && (p.Part? ==> WellFormed(msgs[p.index]) && p.off + p.len <= |BodyOf(msgs[p.index])|)
  }

  /** The plaintext of the record for a piece. */
  function PieceBytes(msgs: seq<OutMsg>, p: Piece): seq<byte>
    requires InMessage(msgs, p)
  {
    match p
    case Ccs(_) => [1]
    case Part(i, off, len) =>
      var h := HeaderOf(msgs[i]);
      HeaderBytes(Header(h.typ, h.msgLen, h.seqNo, off, len)) + BodyOf(msgs[i])[off..off + len]
  }

  /** The position after a piece, if the piece is what comes next at pos. */
  function Advance(msgs: seq<OutMsg>, pos: Pos, p: Piece): Option<Pos> {
    if p.index != pos.written || !InMessage(msgs, p) then None
    else match p
      case Ccs(i) => if pos.offset == 0 then Some(Pos(i + 1, 0)) else None
      case Part(i, off, len) =>
        if off != pos.offset then None
        else if off + len == |BodyOf(msgs[i])| then Some(Pos(i + 1, 0))
        else if len == 0 then None
        else Some(Pos(i, off + len))
  }

  function Walk(msgs: seq<OutMsg>, pos: Pos, pieces: seq<Piece>): Option<Pos>
    decreases |pieces|
  {
    if pieces == [] then Some(pos)
    else match Advance(msgs, pos, pieces[0])
      case None => None
      case Some(next) => Walk(msgs, next, pieces[1..])
  }

  lemma {:induction false} WalkAppend(msgs: seq<OutMsg>, pos: Pos, a: seq<Piece>, b: seq<Piece>)
    ensures Walk(msgs, pos, a + b) == if Walk(msgs, pos, a).None? then None else Walk(msgs, Walk(msgs, pos, a).value, b)
    decreases |a|
  {
    hide Advance;
    if a == [] {
      assert a + b == b;
    } else {
      assert (a + b)[1..] == a[1..] + b;
      var next := Advance(msgs, pos, a[0]);
      if next.Some? { WalkAppend(msgs, next.value, a[1..], b); }
    }
  }

  /** Messages added to the flight do not change a walk through those already there. */
  lemma {:induction false} WalkExtends(msgs: seq<OutMsg>, more: seq<OutMsg>, pos: Pos, pieces: seq<Piece>)
    requires forall p | p in pieces :: p.index < |msgs|
    ensures Walk(msgs + more, pos, pieces) == Walk(msgs, pos, pieces)
    decreases |pieces|
  {
    if pieces != [] {
      var next := Advance(msgs, pos, pieces[0]);
      assert Advance(msgs + more, pos, pieces[0]) == next;
      if next.Some? { WalkExtends(msgs, more, next.value, pieces[1..]); }
    }
  }

  /** Messages left, then body bytes left. */
  predicate Before(a: Pos, b: Pos) { a.written < b.written || (a.written == b.written && a.offset < b.offset) }

  lemma {:induction false} WalkProgress(msgs: seq<OutMsg>, pos: Pos, pieces: seq<Piece>)
    requires Walk(msgs, pos, pieces).Some? && pieces != []
    ensures Before(pos, Walk(msgs, pos, pieces).value)
    decreases |pieces|
  {
    var next := Advance(msgs, pos, pieces[0]).value;
    if |pieces| > 1 { WalkProgress(msgs, next, pieces[1..]); }
  }

  /** A position inside a flight: an offset into a message that has more to send. */
  predicate InFlight(msgs: seq<OutMsg>, pos: Pos) {
    pos.written <= |msgs| && (pos.offset > 0 ==> pos.written < |msgs| && pos.offset < |BodyOf(msgs[pos.written])|)
  }

  function BytesFrom(msgs: seq<OutMsg>, i: nat): nat
    requires i <= |msgs|
    decreases |msgs| - i
  {
    if i == |msgs| then 0 else |BodyOf(msgs[i])| + BytesFrom(msgs, i + 1)
  }

  /** Messages left plus body bytes left. */
  function Left(msgs: seq<OutMsg>, pos: Pos): (n: nat)
    requires InFlight(msgs, pos)
    ensures pos.written < |msgs| ==> n >= 1
  {
    if pos.written == |msgs| then 0
    else |msgs| - pos.written + |BodyOf(msgs[pos.written])| - pos.offset + BytesFrom(msgs, pos.written + 1)
  }

  /** Every piece uses up at least one of them. */
  lemma AdvanceLeft(msgs: seq<OutMsg>, pos: Pos, p: Piece)
    requires InFlight(msgs, pos) && Advance(msgs, pos, p).Some?
    ensures InFlight(msgs, Advance(msgs, pos, p).value)
    ensures Left(msgs, Advance(msgs, pos, p).value) < Left(msgs, pos)
  {
    hide WellFormed, BodyOf;
    var next := Advance(msgs, pos, p).value;
    if next.written > pos.written && next.written < |msgs| {
      assert BytesFrom(msgs, next.written) == |BodyOf(msgs[next.written])| + BytesFrom(msgs, next.written + 1);
    }
  }

  lemma {:induction false} WalkLeft(msgs: seq<OutMsg>, pos: Pos, pieces: seq<Piece>)
    requires InFlight(msgs, pos) && Walk(msgs, pos, pieces).Some?
    ensures InFlight(msgs, Walk(msgs, pos, pieces).value)
    ensures Left(msgs, Walk(msgs, pos, pieces).value) + |pieces| <= Left(msgs, pos)
    decreases |pieces|
  {
    hide Advance, Left, InFlight;
    if pieces != [] {
      AdvanceLeft(msgs, pos, pieces[0]);
      WalkLeft(msgs, Advance(msgs, pos, pieces[0]).value, pieces[1..]);
    }
  }

  // ---------- what a walk delivers ----------

  /** The body bytes of message i that a piece carries. */
  function Own(msgs: seq<OutMsg>, p: Piece, i: nat): seq<byte>
    requires i < |msgs|
  {
    if p.Part? && p.index == i && p.off + p.len <= |BodyOf(msgs[i])| then BodyOf(msgs[i])[p.off..p.off + p.len] else []
  }

  /** The body bytes of message i that the pieces carry, in the order of the pieces. */
  function Carried(msgs: seq<OutMsg>, pieces: seq<Piece>, i: nat): seq<byte>
    requires i < |msgs|
    decreases |pieces|
  {
    if pieces == [] then [] else Own(msgs, pieces[0], i) + Carried(msgs, pieces[1..], i)
  }

  /** The number of records that carry message i. */
  function Records(pieces: seq<Piece>, i: nat): nat {
    if pieces == [] then 0 else (if pieces[0].index == i then 1 else 0) + Records(pieces[1..], i)
  }

  /** The body bytes of message i sent before a position. */
  function SentBefore(msgs: seq<OutMsg>, pos: Pos, i: nat): seq<byte>
    requires i < |msgs|
  {
    if i < pos.written then BodyOf(msgs[i])
    else if i == pos.written && pos.offset <= |BodyOf(msgs[i])| then BodyOf(msgs[i])[..pos.offset]
    else []
  }

  /** An offset lies within the body it is an offset into. */
  predicate PosOk(msgs: seq<OutMsg>, pos: Pos)
  {
    pos.offset > 0 ==> pos.written < |msgs| && pos.offset <= |BodyOf(msgs[pos.written])|
  }

  lemma AdvanceCarries(msgs: seq<OutMsg>, pos: Pos, p: Piece, i: nat)
    requires i < |msgs| && Advance(msgs, pos, p).Some? && PosOk(msgs, pos)
    ensures PosOk(msgs, Advance(msgs, pos, p).value)
    ensures SentBefore(msgs, Advance(msgs, pos, p).value, i) == SentBefore(msgs, pos, i) + Own(msgs, p, i)
  {
    var b := BodyOf(msgs[i]);
    assert b[..|b|] == b;
    if p.Part? && p.index == i {
      assert b[..p.off] + b[p.off..p.off + p.len] == b[..p.off + p.len];
    }
  }

  /** The pieces of a walk cut every message body contiguously, in order and exactly once. */
  lemma {:induction false} WalkCarries(msgs: seq<OutMsg>, pos: Pos, pieces: seq<Piece>, i: nat)
    requires i < |msgs| && Walk(msgs, pos, pieces).Some? && PosOk(msgs, pos)
    ensures SentBefore(msgs, Walk(msgs, pos, pieces).value, i) == SentBefore(msgs, pos, i) + Carried(msgs, pieces, i)
    decreases |pieces|
  {
    hide Advance, SentBefore, Own, PosOk;
    if pieces != [] {
      var next := Advance(msgs, pos, pieces[0]).value;
      AdvanceCarries(msgs, pos, pieces[0], i);
      WalkCarries(msgs, next, pieces[1..], i);
    }
  }

  /** A message without a body, such as a ChangeCipherSpec, is carried by one record. */
  lemma {:induction false} WalkRecords(msgs: seq<OutMsg>, pos: Pos, pieces: seq<Piece>, i: nat)
    requires i < |msgs| && Walk(msgs, pos, pieces).Some?
    ensures i < pos.written ==> Records(pieces, i) == 0
    ensures pos.written <= i < Walk(msgs, pos, pieces).value.written ==> Records(pieces, i) >= 1
    ensures pos.written <= i && BodyOf(msgs[i]) == [] ==>
      Records(pieces, i) == if i < Walk(msgs, pos, pieces).value.written then 1 else 0
    ensures pos.written <= Walk(msgs, pos, pieces).value.written
    decreases |pieces|
  {
    if pieces != [] { WalkRecords(msgs, Advance(msgs, pos, pieces[0]).value, pieces[1..], i); }
  }

  lemma {:induction false} CarriedAppend(msgs: seq<OutMsg>, a: seq<Piece>, b: seq<Piece>, i: nat)
    requires i < |msgs|
    ensures Carried(msgs, a + b, i) == Carried(msgs, a, i) + Carried(msgs, b, i)
    ensures Records(a + b, i) == Records(a, i) + Records(b, i)
    decreases |a|
  {
    hide Own;
    if a == [] {
      assert a + b == b;
    } else {
      assert (a + b)[1..] == a[1..] + b;
      CarriedAppend(msgs, a[1..], b, i);
    }
  }

  /** Main theorem about a whole flight: every message's body is carried once, in order, and every
      ChangeCipherSpec by exactly one record. */
  lemma FlightCarriesAll(msgs: seq<OutMsg>, pieces: seq<Piece>, i: nat)
    requires i < |msgs| && Walk(msgs, Pos(0, 0), pieces) == Some(Pos(|msgs|, 0))
    ensures Carried(msgs, pieces, i) == BodyOf(msgs[i])
    ensures Records(pieces, i) >= 1 && (msgs[i].isCcs ==> Records(pieces, i) == 1)
  {
    WalkCarries(msgs, Pos(0, 0), pieces, i);
    WalkRecords(msgs, Pos(0, 0), pieces, i);
    assert SentBefore(msgs, Pos(0, 0), i) == [];
  }

  /** Every position of a message is in some piece. */
  lemma {:induction false} WalkCovers(msgs: seq<OutMsg>, pos: Pos, pieces: seq<Piece>, i: nat, at: nat) returns (k: nat)
    requires i < |msgs| && Walk(msgs, pos, pieces).Some?
    requires pos.written < i || (pos.written == i && pos.offset <= at)
    requires i < Walk(msgs, pos, pieces).value.written && at < |BodyOf(msgs[i])|
    ensures k < |pieces| && pieces[k].Part? && pieces[k].index == i
      && pieces[k].off <= at < pieces[k].off + pieces[k].len
    decreases |pieces|
  {
    var p, next := pieces[0], Advance(msgs, pos, pieces[0]).value;
    if p.Part? && p.index == i && at < p.off + p.len {
      k := 0;
    } else {
      k := WalkCovers(msgs, next, pieces[1..], i, at);
      k := k + 1;
    }
  }
}
