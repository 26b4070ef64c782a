/** Incoming handshake messages of DTLS: what a fragment does to the messages being reassembled. */
module DtlsReceiveSpec {
  import opened Bits
  import opened DtlsFragment

  const SSL_MAX_HANDSHAKE_FLIGHT: int := 7

  /** A message being reassembled: the bytes received so far, by position. */
  datatype Message = Message(typ: nat, msgLen: nat, bytes: map<nat, byte>) {
    predicate Complete() { bytes.Keys == Range(0, msgLen) }

    function Body(): seq<byte>
      requires Complete()
    {
      seq(msgLen, p requires 0 <= p < msgLen => assert p in Range(0, msgLen); bytes[p])
    }
  }

  /** Messages by sequence number, from readSeq on. */
  datatype RState = RState(readSeq: nat, messages: map<nat, Message>)

  datatype Result = Rejected | Accepted(st: RState)

  /** The bytes of a fragment at their positions in the message. */
  function Placed(off: nat, b: seq<byte>): map<nat, byte> {
    var r := Range(off, off + |b|);
    map p | p in r :: b[p - off]
  }

  predicate InWindow(readSeq: nat, seqNo: nat) {
    readSeq <= seqNo < readSeq + SSL_MAX_HANDSHAKE_FLIGHT
  }

  /** A complete message ignores further fragments. */
  function Deliver(m: Message, off: nat, b: seq<byte>): Message {
    if m.Complete() then m else m.(bytes := m.bytes + Placed(off, b))
  }

  /** One fragment of a handshake record. A sequence number just past the window is an error, later
      and earlier ones are ignored. */
  function ReceiveFragment(st: RState, epoch: nat, maxLen: nat, h: Header, b: seq<byte>): Result {
    if h.fragOff > h.msgLen || h.fragOff + h.fragLen > h.msgLen || h.msgLen > maxLen then Rejected
    else if epoch == 1 && h.seqNo != st.readSeq then Rejected
    else if h.seqNo < st.readSeq || h.seqNo > st.readSeq + SSL_MAX_HANDSHAKE_FLIGHT then Accepted(st)
    else if !InWindow(st.readSeq, h.seqNo) then Rejected
    else
      var m := if h.seqNo in st.messages then st.messages[h.seqNo] else Message(h.typ, h.msgLen, map[]);
      if m.typ != h.typ || m.msgLen != h.msgLen then Rejected
      else Accepted(st.(messages := st.messages[h.seqNo := Deliver(m, h.fragOff, b)]))
  }

  /** A fragment of a message of the window that lies within it is accepted exactly when it agrees with the one
      accepted before on type and length, and one that does not lie within it, or is of too long a message,
      never is. */
  lemma FragmentsAgree(st: RState, epoch: nat, maxLen: nat, h1: Header, b1: seq<byte>, h2: Header, b2: seq<byte>)
    requires InWindow(st.readSeq, h1.seqNo) && h2.seqNo == h1.seqNo
    requires ReceiveFragment(st, epoch, maxLen, h1, b1).Accepted?
    ensures var st1 := ReceiveFragment(st, epoch, maxLen, h1, b1).st;
      ReceiveFragment(st1, epoch, maxLen, h2, b2).Accepted? <==>
        h2.fragOff + h2.fragLen <= h2.msgLen <= maxLen && h2.typ == h1.typ && h2.msgLen == h1.msgLen
  {
    hide Deliver;
    var st1 := ReceiveFragment(st, epoch, maxLen, h1, b1).st;
    DeliverKeeps(if h1.seqNo in st.messages then st.messages[h1.seqNo] else Message(h1.typ, h1.msgLen, map[]),
                 h1.fragOff, b1);
  }

  /** The bytes of a fragment replace what was at their positions, unless the message was complete. */
  lemma DeliverKeeps(m: Message, off: nat, b: seq<byte>)
    ensures var m' := Deliver(m, off, b);
      && m'.typ == m.typ && m'.msgLen == m.msgLen && (m.bytes.Keys == Range(0, m.msgLen) ==> m' == m)
      && (m.bytes.Keys != Range(0, m.msgLen) ==>
          && m'.bytes.Keys == m.bytes.Keys + Range(off, off + |b|)
          && forall p | p in m'.bytes :: m'.bytes[p] == if off <= p < off + |b| then b[p - off] else m.bytes[p])
  {
    var placed := Placed(off, b);
    assert placed.Keys == Range(off, off + |b|);
    assert (m.bytes + placed).Keys == m.bytes.Keys + placed.Keys;
  }

  /** The fragments of one handshake record, in order. */
  function ReceiveRecord(st: RState, epoch: nat, maxLen: nat, record: seq<byte>): Result
    decreases |record|
  {
    if record == [] then Accepted(st)
    else match ParseFragment(record)
      case ParseError => Rejected
      case Parsed(h, b, rest) =>
        match ReceiveFragment(st, epoch, maxLen, h, b)
        case Rejected => Rejected
        case Accepted(st') => ReceiveRecord(st', epoch, maxLen, rest)
  }

  /** dtls1_is_current_message_complete */
  predicate Ready(st: RState) {
    st.readSeq in st.messages && st.messages[st.readSeq].Complete()
  }

  /** dtls1_next_message */
  function Next(st: RState): RState { RState(st.readSeq + 1, st.messages - {st.readSeq}) }

  /** The receiving side: the messages, the read epoch, whether the current message has been handed out,
      and whether a ChangeCipherSpec is waiting. */
  datatype Conn = Conn(st: RState, epoch: nat, hasMessage: bool, hasChangeCipherSpec: bool)

  /** dtls_has_unprocessed_handshake_data: something is held besides the message that was handed out. */
  predicate Unprocessed(c: Conn) {
    c.hasChangeCipherSpec || exists q :: q in c.st.messages && !(c.hasMessage && q == c.st.readSeq)
  }

  lemma UnprocessedMeans(c: Conn)
    ensures Unprocessed(c) <==>
      c.hasChangeCipherSpec || !(c.st.messages.Keys <= if c.hasMessage then {c.st.readSeq} else {})
  {
  }
}

/** The ring of reassembly slots, proved to implement DtlsReceiveSpec. */
module DtlsReceiver {
  import opened Bits
  import opened TlsWire
  import opened DtlsFragment
  import opened DtlsReceiveSpec
  import opened DtlsReplay
  import opened DtlsRecord

  /** The bytes of a message that are in place. */
  ghost function BytesAt(data: seq<byte>, got: set<nat>, n: nat): map<nat, byte>
    requires |data| == HM_HEADER_LENGTH + n
  {
    map p | p in got && p < n :: data[HM_HEADER_LENGTH + p]
  }

  lemma BytesAfterCopy(before: seq<byte>, got: set<nat>, n: nat, off: nat, b: seq<byte>)
    requires |before| == HM_HEADER_LENGTH + n && off + |b| <= n
    ensures var after := before[..HM_HEADER_LENGTH + off] + b + before[HM_HEADER_LENGTH + off + |b|..];
      |after| == |before| && BytesAt(after, got + Range(off, off + |b|), n) == BytesAt(before, got, n) + Placed(off, b)
  {
  }

  lemma KeysAt(data: seq<byte>, got: set<nat>, n: nat)
    requires |data| == HM_HEADER_LENGTH + n && got <= Range(0, n)
    ensures BytesAt(data, got, n).Keys == got
  {
  }

  /** hm_fragment: an incoming message. reassembly is null once the message is complete. */
  class HmFragment {
    const typ: nat
    const seqNo: nat
    const msgLen: nat
    const data: array<byte>
    var reassembly: array?<bv8>

    ghost predicate Valid()
      reads this, reassembly
    {
      && data.Length == HM_HEADER_LENGTH + msgLen
      && (reassembly != null ==>
          && msgLen > 0 && reassembly as object != data as object
          && MaskFor(reassembly[..], msgLen) && Positions(reassembly[..], msgLen) != Range(0, msgLen))
    }

    /** The memory an incoming message owns. */
    ghost function Footprint(): set<object>
      reads this
    {
      {this, data} + if reassembly == null then {} else {reassembly}
    }

    ghost function Got(): set<nat>
      reads this, reassembly
    {
      if reassembly == null then Range(0, msgLen) else Positions(reassembly[..], msgLen)
    }

    ghost function View(): Message
      requires Valid()
      reads this, data, reassembly
    {
      Message(typ, msgLen, BytesAt(data[..], Got(), msgLen))
    }

    /** dtls1_hm_fragment_new */
    constructor (h: Header)
      ensures Valid() && fresh(this) && fresh(data) && (reassembly != null ==> fresh(reassembly))
      ensures typ == h.typ && seqNo == h.seqNo && msgLen == h.msgLen
      ensures View() == Message(h.typ, h.msgLen, map[])
      ensures data[..HM_HEADER_LENGTH] == HeaderBytes(Header(h.typ, h.msgLen, h.seqNo, 0, h.msgLen))
    {
      typ := h.typ;
      seqNo := h.seqNo;
      msgLen := h.msgLen;
      var header := HeaderBytes(Header(h.typ, h.msgLen, h.seqNo, 0, h.msgLen));
      data := new byte[HM_HEADER_LENGTH + h.msgLen](i => if 0 <= i < HM_HEADER_LENGTH then header[i] else 0);
      if h.msgLen > 0 {
        reassembly := new bv8[(h.msgLen + 7) / 8](_ => 0);
      } else {
        reassembly := null;
      }
      new;
      if h.msgLen > 0 {
        forall p: nat ensures !Marked(reassembly[..], p) {
          if p / 8 < reassembly.Length { NoBits(p % 8); }
        }
        assert 0 in Range(0, msgLen);
      }
    }

    /** OPENSSL_memcpy of a fragment's body into the message. */
    method CopyIn(off: nat, b: seq<byte>)
      requires data.Length == HM_HEADER_LENGTH + msgLen && off + |b| <= msgLen
      modifies data
      ensures data[..] == old(data[..])[..HM_HEADER_LENGTH + off] + b + old(data[..])[HM_HEADER_LENGTH + off + |b|..]
    {
      var i, at := 0, HM_HEADER_LENGTH + off;
      while i < |b|
        invariant 0 <= i <= |b|
        invariant forall k | 0 <= k < data.Length :: data[k] == if at <= k < at + i then b[k - at] else old(data[k])
      {
        data[at + i] := b[i];
        i := i + 1;
      }
    }

    /** Copies a fragment into the message and marks its bytes. */
    method Insert(off: nat, b: seq<byte>)
      requires Valid() && reassembly != null && off + |b| <= msgLen
      modifies this`reassembly, data, reassembly
      ensures Valid() && (reassembly != null ==> reassembly == old(reassembly))
      ensures View() == Deliver(old(View()), off, b)
      ensures data[..HM_HEADER_LENGTH] == old(data[..HM_HEADER_LENGTH])
    {
      hide MaskFor, Positions, BytesAt, Placed, Range;
      ghost var before, got := data[..], Got();
      KeysAt(before, got, msgLen) by { GotInRange(); }
      BytesAfterCopy(before, got, msgLen, off, b);
      CopyIn(off, b);
      if |b| > 0 {
        var complete := MarkRange(reassembly, msgLen, off, off + |b|);
        if complete {
          reassembly := null;
        }
      } else {
        assert got + Range(off, off) == got by { EmptyRange(off); }
      }
      assert Got() == got + Range(off, off + |b|);
    }

    lemma GotInRange()
      requires Valid()
      ensures Got() <= Range(0, msgLen)
    {
    }
  }

  lemma EmptyRange(a: nat)
    ensures Range(a, a) == {}
  {
  }

  lemma NoBits(k: nat)
    requires k < 8
    ensures !Bit(0, k)
  {
  }

  /** The slot of a sequence number. */
  function Ring(seqNo: nat): (i: nat)
    ensures i < SSL_MAX_HANDSHAKE_FLIGHT
  {
    seqNo % 7
  }

  /** The slots of a window are distinct. */
  lemma RingInjective(readSeq: nat, a: nat, b: nat)
    requires InWindow(readSeq, a) && InWindow(readSeq, b) && Ring(a) == Ring(b)
    ensures a == b
  {
  }

  /** The message a fragment belongs to, new if it is its first. */
  function Found(st: RState, h: Header): Message {
    if h.seqNo in st.messages then st.messages[h.seqNo] else Message(h.typ, h.msgLen, map[])
  }

  /** What a slot holds. */
  datatype Cell = Empty | Holds(seqNo: nat, m: Message)

  /** The ring as a map from sequence numbers. */
  ghost function Collect(readSeq: nat, cells: seq<Cell>): RState
    requires |cells| == SSL_MAX_HANDSHAKE_FLIGHT
  {
    var window := Range(readSeq, readSeq + SSL_MAX_HANDSHAKE_FLIGHT);
    RState(readSeq, map q | q in window && cells[Ring(q)].Holds? && cells[Ring(q)].seqNo == q :: cells[Ring(q)].m)
  }

  lemma CollectUpdate(readSeq: nat, cells: seq<Cell>, q: nat, m: Message)
    requires |cells| == SSL_MAX_HANDSHAKE_FLIGHT && InWindow(readSeq, q)
    ensures var c := Collect(readSeq, cells);
      Collect(readSeq, cells[Ring(q) := Holds(q, m)]) == c.(messages := c.messages[q := m])
  {
    forall p | InWindow(readSeq, p) && p != q ensures Ring(p) != Ring(q) {
      if Ring(p) == Ring(q) { RingInjective(readSeq, p, q); }
    }
  }

  /** The receiving side of DTLS1_STATE. */
  class Receiver {
    const incoming: array<HmFragment?>
    const maxLen: nat
    var readSeq: nat
    var epoch: nat
    var hasMessage: bool
    var hasChangeCipherSpec: bool
    ghost var Repr: set<object>

    /** A slot is empty or holds a valid message of the window whose number maps to it. */
    ghost predicate SlotOk(i: nat)
      requires i < incoming.Length
      reads `readSeq, `Repr, Repr, incoming
    {
      var f := incoming[i];
      f != null ==>
        && f in Repr && f.Footprint() <= Repr
        && f.Valid() && InWindow(readSeq, f.seqNo) && Ring(f.seqNo) == i
    }

    ghost predicate Valid()
      reads `readSeq, `Repr, Repr, incoming
    {
      && this !in Repr && incoming !in Repr && incoming.Length == SSL_MAX_HANDSHAKE_FLIGHT
      && (forall i: nat | i < incoming.Length :: SlotOk(i))
      && (forall i: nat, j: nat | i < j < incoming.Length :: SlotOk(i) && SlotOk(j) && Apart(i, j))
    }

    ghost predicate Apart(i: nat, j: nat)
      requires i < incoming.Length && j < incoming.Length
      reads incoming, incoming[i], incoming[j]
    {
      incoming[i] != null && incoming[j] != null ==> incoming[i].Footprint() !! incoming[j].Footprint()
    }

    ghost function CellAt(i: nat): Cell
      requires i < incoming.Length && SlotOk(i)
      reads `readSeq, `Repr, Repr, incoming
    {
      if incoming[i] == null then Empty else Holds(incoming[i].seqNo, incoming[i].View())
    }

    ghost function CellsTo(n: nat): (c: seq<Cell>)
      requires Valid() && n <= incoming.Length
      reads `readSeq, `Repr, Repr, incoming
      ensures |c| == n && forall i: nat | i < n :: SlotOk(i) && c[i] == CellAt(i)
    {
      if n == 0 then [] else
        assert SlotOk(n - 1);
        CellsTo(n - 1) + [CellAt(n - 1)]
    }

    ghost function Cells(): (c: seq<Cell>)
      requires Valid()
      reads `readSeq, `Repr, Repr, incoming
      ensures |c| == incoming.Length && forall i: nat | i < |c| :: SlotOk(i) && c[i] == CellAt(i)
    {
      CellsTo(incoming.Length)
    }

    /** The messages in the slots, by sequence number. */
    ghost function View(): RState
      requires Valid()
      reads `readSeq, `Repr, Repr, incoming
    {
      Collect(readSeq, Cells())
    }

    ghost function State(): Conn
      requires Valid()
      reads this, Repr, incoming
    {
      Conn(View(), epoch, hasMessage, hasChangeCipherSpec)
    }

    constructor (maxLen: nat)
      ensures Valid() && fresh(incoming) && fresh(Repr) && this.maxLen == maxLen && epoch == 0 && !hasMessage
        && !hasChangeCipherSpec
      ensures View() == RState(0, map[])
    {
      incoming := new HmFragment?[7](_ => null);
      this.maxLen := maxLen;
      readSeq, epoch, hasMessage, hasChangeCipherSpec := 0, 0, false, false;
      new;
      Repr := {};
    }

    /** dtls1_get_incoming_message: the slot of the fragment's message, filled if it was empty. */
    method GetIncoming(h: Header) returns (frag: HmFragment?)
      requires Valid() && incoming.Length == SSL_MAX_HANDSHAKE_FLIGHT
      modifies `Repr, incoming, Repr
      ensures Valid() && fresh(Repr - old(Repr))
      ensures frag == null ==> View() == old(View())
      ensures var m := Found(old(View()), h);
        && (frag == null <==> !InWindow(readSeq, h.seqNo) || m.typ != h.typ || m.msgLen != h.msgLen)
        && (frag != null ==>
            && frag == incoming[Ring(h.seqNo)] && frag.seqNo == h.seqNo
            && View() == old(View()).(messages := old(View()).messages[h.seqNo := m]))
    {
      if h.seqNo < readSeq || h.seqNo - readSeq >= SSL_MAX_HANDSHAKE_FLIGHT {
        return null;
      }
      var idx := Ring(h.seqNo);
      frag := incoming[idx];
      assert SlotOk(idx);
      if frag != null {
        RingInjective(readSeq, frag.seqNo, h.seqNo);
        assert frag.seqNo == h.seqNo;
        if frag.typ != h.typ || frag.msgLen != h.msgLen {
          return null;
        }
        return frag;
      }
      CollectUpdate(readSeq, Cells(), h.seqNo, Message(h.typ, h.msgLen, map[]));
      frag := Install(h);
    }

    /** The first fragment of a message fills an empty slot. */
    method Install(h: Header) returns (frag: HmFragment)
      requires Valid() && InWindow(readSeq, h.seqNo) && incoming[Ring(h.seqNo)] == null
      modifies `Repr, incoming
      ensures Valid() && fresh(Repr - old(Repr))
      ensures frag == incoming[Ring(h.seqNo)] && frag.seqNo == h.seqNo
      ensures Cells() == old(Cells())[Ring(h.seqNo) := Holds(h.seqNo, Message(h.typ, h.msgLen, map[]))]
    {
      hide Collect, Cells, CellsTo, HmFragment.View, HmFragment.Valid, HmFragment.Got;
      var idx := Ring(h.seqNo);
      frag := new HmFragment(h);
      label installed:
      incoming[idx] := frag;
      Repr := Repr + frag.Footprint();
      forall i: nat | i < incoming.Length ensures SlotOk(i) {
        if i != idx { assert old@installed(SlotOk(i)); }
      }
      forall i: nat, j: nat | i < j < incoming.Length ensures SlotOk(i) && SlotOk(j) && Apart(i, j) {
        assert i != idx ==> old@installed(SlotOk(i));
        assert j != idx ==> old@installed(SlotOk(j));
        assert old@installed(Apart(i, j));
      }
      forall i: nat | i < incoming.Length && i != idx ensures CellAt(i) == old@installed(CellAt(i)) {
        assert old@installed(SlotOk(i));
      }
    }

    /** Puts a fragment's bytes into the incomplete message of a slot. */
    method Fill(idx: nat, off: nat, b: seq<byte>)
      requires Valid() && idx < incoming.Length && incoming[idx] != null && incoming[idx].reassembly != null
      requires off + |b| <= incoming[idx].msgLen
      modifies incoming[idx].Footprint()
      ensures Valid()
      ensures Cells() == old(Cells())[idx := Holds(old(Cells())[idx].seqNo, Deliver(old(Cells())[idx].m, off, b))]
    {
      hide Deliver, HmFragment.View, Cells, CellsTo;
      var frag := incoming[idx];
      assert SlotOk(idx);
      frag.Insert(off, b);
      forall i: nat | i < incoming.Length ensures SlotOk(i) && (i != idx ==> CellAt(i) == old(CellAt(i))) {
        assert old(SlotOk(i));
        if i != idx { assert old(if i < idx then Apart(i, idx) else Apart(idx, i)); }
      }
      forall i: nat, j: nat | i < j < incoming.Length ensures SlotOk(i) && SlotOk(j) && Apart(i, j) {
        assert old(Apart(i, j)) && old(SlotOk(i)) && old(SlotOk(j));
      }
    }

    /** The checks and the reassembly of one fragment in dtls1_open_handshake. */
    method OpenFragment(h: Header, b: seq<byte>) returns (ok: bool)
      requires Valid() && |b| == h.fragLen
      modifies `Repr, incoming, Repr
      ensures Valid() && fresh(Repr - old(Repr))
      ensures match ReceiveFragment(old(View()), old(epoch), maxLen, h, b)
        case Rejected => !ok
        case Accepted(st) => ok && View() == st
    {
      ViewSeq();
      hide *;
      ghost var st := View();
      FragmentCases(st, epoch, maxLen, h, b);
      if h.fragOff > h.msgLen || h.fragOff + h.fragLen > h.msgLen || h.msgLen > maxLen {
        return false;
      }
      if epoch == 1 && h.seqNo != readSeq {
        return false;
      }
      if h.seqNo < readSeq || h.seqNo > readSeq + SSL_MAX_HANDSHAKE_FLIGHT {
        return true;
      }
      var frag := GetIncoming(h);
      if frag == null {
        return false;
      }
      Place(h, frag, b);
      return true;
    }

    /** The branches of ReceiveFragment. */
    lemma FragmentCases(st: RState, epoch: nat, maxLen: nat, h: Header, b: seq<byte>)
      ensures var r := ReceiveFragment(st, epoch, maxLen, h, b);
        if h.fragOff > h.msgLen || h.fragOff + h.fragLen > h.msgLen || h.msgLen > maxLen then r == Rejected
        else if epoch == 1 && h.seqNo != st.readSeq then r == Rejected
        else if h.seqNo < st.readSeq || h.seqNo > st.readSeq + SSL_MAX_HANDSHAKE_FLIGHT then r == Accepted(st)
        else
          var m := Found(st, h);
          if !InWindow(st.readSeq, h.seqNo) || m.typ != h.typ || m.msgLen != h.msgLen then r == Rejected
          else
            var st' := st.(messages := st.messages[h.seqNo := m]);
            && st'.messages[h.seqNo] == m
            && r == Accepted(st'.(messages := st'.messages[h.seqNo := Deliver(m, h.fragOff, b)]))
    {
      hide Deliver;
      var m := Found(st, h);
      assert st.messages[h.seqNo := m][h.seqNo := Deliver(m, h.fragOff, b)]
          == st.messages[h.seqNo := Deliver(m, h.fragOff, b)];
    }

    lemma ViewSeq()
      requires Valid()
      ensures View().readSeq == readSeq && incoming.Length == SSL_MAX_HANDSHAKE_FLIGHT
    {
    }

    /** The fragment's bytes go into its message, unless that is already assembled. */
    method Place(h: Header, frag: HmFragment, b: seq<byte>)
      requires Valid() && InWindow(readSeq, h.seqNo) && frag == incoming[Ring(h.seqNo)] && frag.seqNo == h.seqNo
      requires h.seqNo in View().messages && h.fragOff + |b| <= View().messages[h.seqNo].msgLen
      modifies `Repr, incoming, Repr
      ensures Valid() && Repr == old(Repr)
      ensures var st, q := old(View()), h.seqNo;
        View() == st.(messages := st.messages[q := Deliver(st.messages[q], h.fragOff, b)])
    {
      ghost var st := View();
      hide Collect, Deliver, MaskFor, Positions;
      assert SlotOk(Ring(h.seqNo));
      SlotView(h.seqNo);
      if frag.reassembly == null {
        assert Deliver(st.messages[h.seqNo], h.fragOff, b)
            == st.messages[h.seqNo] by { CompleteIgnores(frag, h.fragOff, b); }
        return;
      }
      CollectUpdate(readSeq, Cells(), h.seqNo, Deliver(st.messages[h.seqNo], h.fragOff, b));
      Fill(Ring(h.seqNo), h.fragOff, b);
    }

    /** What the view says about an occupied slot. */
    lemma SlotView(q: nat)
      requires Valid() && incoming[Ring(q)] != null && incoming[Ring(q)].seqNo == q
      ensures SlotOk(Ring(q)) && Cells()[Ring(q)] == Holds(q, incoming[Ring(q)].View())
      ensures q in View().messages && View().messages[q] == incoming[Ring(q)].View()
    {
      hide HmFragment.View;
      assert SlotOk(Ring(q));
      assert q in Range(readSeq, readSeq + SSL_MAX_HANDSHAKE_FLIGHT);
    }

    lemma CompleteIgnores(frag: HmFragment, off: nat, b: seq<byte>)
      requires frag.Valid() && frag.reassembly == null
      ensures Deliver(frag.View(), off, b) == frag.View()
    {
      KeysAt(frag.data[..], Range(0, frag.msgLen), frag.msgLen);
    }

    /** The loop of dtls1_open_handshake over the fragments of a record. */
    method OpenRecord(record: seq<byte>) returns (ok: bool)
      requires Valid()
      modifies `Repr, incoming, Repr
      ensures Valid() && fresh(Repr - old(Repr))
      ensures match ReceiveRecord(old(View()), old(epoch), maxLen, record)
        case Rejected => !ok
        case Accepted(st) => ok && View() == st
    {
      hide ReceiveFragment, Collect, ParseFragment;
      ghost var spec := ReceiveRecord(View(), epoch, maxLen, record);
      var cbs := record;
      while cbs != []
        invariant Valid() && fresh(Repr - old(Repr))
        invariant spec == ReceiveRecord(View(), epoch, maxLen, cbs)
        decreases |cbs|
      {
        match ParseFragment(cbs)
        case ParseError => return false;
        case Parsed(h, b, rest) =>
          ok := OpenFragment(h, b);
          if !ok {
            return false;
          }
          cbs := rest;
      }
      return true;
    }

    /** dtls1_open_handshake on an opened record of the given content type: handshake fragments, or
        a ChangeCipherSpec, which is only legal unencrypted. Application data that is encrypted may
        arrive early and is dropped. */
    method OpenHandshake(contentType: nat, nullCipher: bool, record: seq<byte>) returns (r: OpenResult)
      requires Valid()
      modifies `Repr, `hasChangeCipherSpec, incoming, Repr
      ensures Valid() && fresh(Repr - old(Repr))
      ensures contentType == RT_HANDSHAKE ==> match ReceiveRecord(old(View()), old(epoch), maxLen, record)
        case Rejected => r == OpenError
        case Accepted(st) => r == OpenSuccess && View() == st && hasChangeCipherSpec == old(hasChangeCipherSpec)
      ensures contentType != RT_HANDSHAKE ==> View() == old(View())
      ensures contentType == RT_CHANGE_CIPHER_SPEC ==>
        r == (if nullCipher && record == [1] then OpenSuccess else OpenError)
        && hasChangeCipherSpec == (old(hasChangeCipherSpec) || r == OpenSuccess)
      ensures contentType == RT_APPLICATION_DATA ==> r == if nullCipher then OpenError else OpenDiscard
      ensures contentType !in {RT_HANDSHAKE, RT_CHANGE_CIPHER_SPEC, RT_APPLICATION_DATA} ==> r == OpenError
      ensures contentType != RT_CHANGE_CIPHER_SPEC ==> hasChangeCipherSpec == old(hasChangeCipherSpec)
    {
      if contentType == RT_APPLICATION_DATA {
        return if nullCipher then OpenError else OpenDiscard;
      } else if contentType == RT_CHANGE_CIPHER_SPEC {
        if !nullCipher || record != [1] {
          return OpenError;
        }
        hasChangeCipherSpec := true;
        return OpenSuccess;
      } else if contentType != RT_HANDSHAKE {
        return OpenError;
      }
      var ok := OpenRecord(record);
      return if ok then OpenSuccess else OpenError;
    }

    /** dtls1_open_change_cipher_spec: takes a ChangeCipherSpec that is waiting; if there is none the record
        is opened first. */
    method OpenChangeCipherSpec(contentType: nat, nullCipher: bool, record: seq<byte>) returns (r: OpenResult)
      requires Valid()
      modifies `Repr, `hasChangeCipherSpec, incoming, Repr
      ensures Valid() && fresh(Repr - old(Repr)) && !hasChangeCipherSpec
      ensures old(hasChangeCipherSpec) ==> r == OpenSuccess && View() == old(View())
      ensures !old(hasChangeCipherSpec) ==>
        (r == OpenSuccess <==> contentType == RT_CHANGE_CIPHER_SPEC && nullCipher && record == [1])
        && (contentType == RT_CHANGE_CIPHER_SPEC && r != OpenSuccess ==> r == OpenError)
      ensures !old(hasChangeCipherSpec) && contentType == RT_HANDSHAKE ==>
        match ReceiveRecord(old(View()), old(epoch), maxLen, record)
        case Rejected => r == OpenError
        case Accepted(st) => r == OpenDiscard && View() == st
      ensures contentType != RT_HANDSHAKE ==> View() == old(View())
      ensures !old(hasChangeCipherSpec) && contentType !in {RT_HANDSHAKE, RT_CHANGE_CIPHER_SPEC} ==>
        r == if contentType == RT_APPLICATION_DATA && !nullCipher then OpenDiscard else OpenError
    {
      if !hasChangeCipherSpec {
        r := OpenHandshake(contentType, nullCipher, record);
        if r != OpenSuccess {
          return;
        }
      }
      if hasChangeCipherSpec {
        hasChangeCipherSpec := false;
        return OpenSuccess;
      }
      return OpenDiscard;
    }

    /** dtls_has_unprocessed_handshake_data */
    method HasUnprocessed() returns (more: bool)
      requires Valid()
      ensures more <==> hasChangeCipherSpec || !(View().messages.Keys <= if hasMessage then {readSeq} else {})
    {
      hide Collect, Cells, CellsTo, HmFragment.View, HmFragment.Valid;
      ViewSeq();
      if hasChangeCipherSpec {
        return true;
      }
      var current := Ring(readSeq);
      for i := 0 to SSL_MAX_HANDSHAKE_FLIGHT
        invariant forall j | 0 <= j < i :: incoming[j] == null || (hasMessage && j == current)
      {
        if !(hasMessage && i == current) && incoming[i] != null {
          assert SlotOk(i);
          SlotView(incoming[i].seqNo);
          return true;
        }
      }
      forall q | q in View().messages ensures hasMessage && q == readSeq {
        ViewSlot(q);
        RingInjective(readSeq, q, readSeq);
      }
      return false;
    }

    /** A message of the view is in its slot. */
    lemma ViewSlot(q: nat)
      requires Valid() && q in View().messages
      ensures InWindow(readSeq, q) && incoming[Ring(q)] != null
    {
      hide HmFragment.View;
      assert SlotOk(Ring(q));
    }

    /** dtls1_set_read_state: a cipher change is refused while handshake data is left over. */
    method SetReadState(reader: RecordReader, next: Aead) returns (ok: bool)
      requires Valid() && reader.Valid() && reader.epoch == epoch
      requires reader as object !in Repr && reader.window as object !in Repr
      modifies `epoch, reader, reader.window
      ensures Valid() && reader.Valid() && reader.epoch == epoch && View() == old(View())
      ensures ok <==>
        !old(hasChangeCipherSpec) && old(View()).messages.Keys <= if old(hasMessage) then {old(readSeq)} else {}
      ensures ok ==> !hasChangeCipherSpec && epoch == (old(epoch) + 1) % 0x1_0000 && reader.aead == next
                     && reader.reading == Read(old(reader.reading), NewReadEpoch)
      ensures !ok ==> epoch == old(epoch) && reader.reading == old(reader.reading) && reader.aead == old(reader.aead)
    {
      hide Collect, Cells, CellsTo;
      var more := HasUnprocessed();
      if more {
        return false;
      }
      epoch := (epoch + 1) % 0x1_0000;
      reader.SetReadState(next);
      return true;
    }

    /** dtls1_get_message: the type and the body of the current message. */
    method GetMessage() returns (ok: bool, typ: nat, body: seq<byte>)
      requires Valid()
      modifies `hasMessage
      ensures Valid() && View() == old(View()) && ok == Ready(View())
      ensures ok ==> typ == View().messages[readSeq].typ && body == View().messages[readSeq].Body() && hasMessage
      ensures !ok ==> hasMessage == old(hasMessage)
    {
      var frag := incoming[Ring(readSeq)];
      assert SlotOk(Ring(readSeq));
      if frag != null { RingInjective(readSeq, frag.seqNo, readSeq); SlotView(readSeq); FragmentComplete(frag); }
      if frag == null || frag.reassembly != null {
        return false, 0, [];
      }
      hasMessage := true;
      return true, frag.typ, frag.data[HM_HEADER_LENGTH..];
    }

    lemma FragmentComplete(frag: HmFragment)
      requires frag.Valid()
      ensures frag.reassembly == null <==> frag.View().Complete()
      ensures frag.reassembly == null ==> frag.View().Body() == frag.data[HM_HEADER_LENGTH..]
    {
      frag.GotInRange();
      KeysAt(frag.data[..], frag.Got(), frag.msgLen);
    }

    /** dtls1_next_message: frees the slot of the message that was read, and no other. */
    method NextMessage()
      requires Valid() && Ready(View()) && hasMessage
      modifies `readSeq, `hasMessage, incoming
      ensures Valid() && View() == Next(old(View())) && !hasMessage
    {
      hide Collect, Cells, CellsTo, HmFragment.View, HmFragment.Valid;
      var idx := Ring(readSeq);
      CollectNext(readSeq, Cells());
      incoming[idx] := null;
      readSeq := readSeq + 1;
      hasMessage := false;
      forall i: nat | i < incoming.Length
        ensures SlotOk(i) && CellAt(i) == old(Cells())[i := if i == idx then Empty else old(Cells())[i]][i]
      {
        assert old(SlotOk(i));
        if i != idx && incoming[i] != null && incoming[i].seqNo == readSeq - 1 { assert false; }
      }
      forall i: nat, j: nat | i < j < incoming.Length ensures SlotOk(i) && SlotOk(j) && Apart(i, j) {
        assert old(Apart(i, j));
      }
      assert Cells() == old(Cells())[idx := Empty];
    }
  }

  /** Emptying the slot of the message that was read moves the window by one. */
  lemma CollectNext(readSeq: nat, cells: seq<Cell>)
    requires |cells| == SSL_MAX_HANDSHAKE_FLIGHT
    requires forall i | 0 <= i < |cells| && cells[i].Holds? ::
      InWindow(readSeq, cells[i].seqNo)
      && Ring(cells[i].seqNo) == i
    ensures Collect(readSeq + 1, cells[Ring(readSeq) := Empty]) == Next(Collect(readSeq, cells))
  {
    assert Ring(readSeq + 7) == Ring(readSeq);
    forall q | InWindow(readSeq, q) && q != readSeq ensures Ring(q) != Ring(readSeq) {
      if Ring(q) == Ring(readSeq) { RingInjective(readSeq, q, readSeq); }
    }
  }

  datatype OpenResult = OpenSuccess | OpenDiscard | OpenError
}
