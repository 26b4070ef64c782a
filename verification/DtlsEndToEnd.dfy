/** A sender's handshake messages, a network that loses, duplicates and reorders their fragments, and
    the receiver that reassembles them. */
module DtlsEndToEnd {
  import opened Bits
  import opened DtlsFragment
  import opened DtlsReceiveSpec

  /** A handshake message; its sequence number is its place in the sender's queue. */
  datatype Sent = Sent(typ: nat, body: seq<byte>)

  /** What can happen: a fragment of a message arrives, of any size, or a ChangeCipherSpec; the handshake
      looks at the current message, takes it, or takes the ChangeCipherSpec; the read epoch changes. */
  datatype Event =
    | Arrive(seqNo: nat, off: nat, len: nat)
    | ArriveChangeCipherSpec(nullCipher: bool)
    | Look
    | Take
    | TakeChangeCipherSpec
    | NewReadEpoch

  /** The receiver, what it has handed out, the positions that have arrived of each message while it was
      in the window, and the read epoch in which the first of them did. */
  datatype System = System(conn: Conn, output: seq<Sent>, arrived: map<nat, set<nat>>, since: map<nat, nat>) {
    function St(): RState { conn.st }
  }

  const START := System(Conn(RState(0, map[]), 0, false, false), [], map[], map[])

  /** The fragment was cut from what the sender queued. */
  predicate FromSender(msgs: seq<Sent>, e: Event) {
    e.Arrive? ==> e.seqNo < |msgs| && e.off + e.len <= |msgs[e.seqNo].body|
  }

  function FragmentHeader(msgs: seq<Sent>, e: Event): Header
    requires e.Arrive? && FromSender(msgs, e)
  {
    Header(msgs[e.seqNo].typ, |msgs[e.seqNo].body|, e.seqNo, e.off, e.len)
  }

  function FragmentBytes(msgs: seq<Sent>, e: Event): seq<byte>
    requires e.Arrive? && FromSender(msgs, e)
  {
    msgs[e.seqNo].body[e.off..e.off + e.len]
  }

  function Get<K, V>(m: map<K, set<V>>, k: K): set<V> { if k in m then m[k] else {} }

  datatype Outcome = Failed | Running(sys: System)

  /** One event. A rejected fragment, an encrypted ChangeCipherSpec and a cipher change while handshake data
      is left over end the connection. Only a message that was looked at is taken. */
  function Step(msgs: seq<Sent>, maxLen: nat, sys: System, e: Event): Outcome
    requires FromSender(msgs, e)
  {
    var c := sys.conn;
    match e
    case Look => Running(sys.(conn := if Ready(c.st) then c.(hasMessage := true) else c))
    case Take =>
      if c.hasMessage && Ready(c.st) then
        var m := c.st.messages[c.st.readSeq];
        Running(sys.(conn := c.(st := Next(c.st), hasMessage := false), output := sys.output + [Sent(m.typ, m.Body())]))
      else Running(sys)
    case ArriveChangeCipherSpec(nullCipher) =>
      if nullCipher then Running(sys.(conn := c.(hasChangeCipherSpec := true))) else Failed
    case TakeChangeCipherSpec => Running(sys.(conn := c.(hasChangeCipherSpec := false)))
    case NewReadEpoch => if Unprocessed(c) then Failed else Running(sys.(conn := c.(epoch := (c.epoch + 1) % 0x1_0000)))
    case Arrive(q, off, len) =>
      match ReceiveFragment(c.st, c.epoch, maxLen, FragmentHeader(msgs, e), FragmentBytes(msgs, e))
      case Rejected => Failed
      case Accepted(st) =>
        var arrived := if InWindow(c.st.readSeq, q)
                       then sys.arrived[q := Get(sys.arrived, q) + Range(off, off + len)] else sys.arrived;
        var since := if InWindow(c.st.readSeq, q) && q !in c.st.messages then sys.since[q := c.epoch] else sys.since;
        Running(sys.(conn := c.(st := st), arrived := arrived, since := since))
  }

  function Run(msgs: seq<Sent>, maxLen: nat, sys: System, events: seq<Event>): Outcome
    requires forall e | e in events :: FromSender(msgs, e)
    decreases |events|
  {
    if events == [] then Running(sys)
    else match Step(msgs, maxLen, sys, events[0])
      case Failed => Failed
      case Running(sys') => Run(msgs, maxLen, sys', events[1..])
  }

  /** The message q is as far along as the arrivals say, and holds the sender's bytes. */
  ghost predicate Faithful(msgs: seq<Sent>, sys: System, q: nat) {
    && (q in sys.St().messages <==> q in sys.arrived)
    && (q in sys.St().messages ==>
        var m := sys.St().messages[q];
        && q < |msgs| && m.typ == msgs[q].typ && m.msgLen == |msgs[q].body|
        && m.bytes.Keys == sys.arrived[q] && sys.arrived[q] <= Range(0, m.msgLen)
        && forall p | p in m.bytes :: p < |msgs[q].body| && m.bytes[p] == msgs[q].body[p])
  }

  ghost predicate Invariant(msgs: seq<Sent>, sys: System) {
    && sys.St().readSeq == |sys.output| <= |msgs| && sys.output == msgs[..|sys.output|]
    && (forall q: nat | q >= sys.St().readSeq :: Faithful(msgs, sys, q))
    && (forall q | q in sys.St().messages :: InWindow(sys.St().readSeq, q))
    && (sys.conn.hasMessage ==> Ready(sys.St()))
    && (forall q | q in sys.St().messages ::
        q in sys.since && (sys.St().messages[q].Complete() || sys.since[q] == sys.conn.epoch))
  }

  lemma ArriveKeeps(msgs: seq<Sent>, maxLen: nat, sys: System, e: Event)
    requires e.Arrive? && FromSender(msgs, e) && Invariant(msgs, sys) && InWindow(sys.St().readSeq, e.seqNo)
    requires Step(msgs, maxLen, sys, e).Running?
    ensures Invariant(msgs, Step(msgs, maxLen, sys, e).sys)
  {
    hide Step, Deliver, Message.Complete, Faithful, FromSender;
    var q := e.seqNo;
    assert Faithful(msgs, sys, q);
    ArriveStep(msgs, maxLen, sys, e);
    forall k: nat | k >= sys.St().readSeq ensures Faithful(msgs, Step(msgs, maxLen, sys, e).sys, k) {
      assert Faithful(msgs, sys, k);
      if k == q { ArriveAt(msgs, maxLen, sys, e); } else { ArriveElsewhere(msgs, maxLen, sys, e, k); }
    }
  }

  lemma ArriveAt(msgs: seq<Sent>, maxLen: nat, sys: System, e: Event)
    requires e.Arrive? && FromSender(msgs, e) && InWindow(sys.St().readSeq, e.seqNo)
    requires Faithful(msgs, sys, e.seqNo) && Step(msgs, maxLen, sys, e).Running?
    ensures Faithful(msgs, Step(msgs, maxLen, sys, e).sys, e.seqNo)
  {
    hide Step, Deliver, Message.Complete, Range;
    var q := e.seqNo;
    ArriveStep(msgs, maxLen, sys, e);
    HeldIsFaithful(msgs, sys, q);
    DeliverFaithful(Held(msgs, sys, q), msgs[q].body, e.off, e.len);
  }

  lemma HeldIsFaithful(msgs: seq<Sent>, sys: System, q: nat)
    requires q < |msgs| && Faithful(msgs, sys, q)
    ensures var m := Held(msgs, sys, q);
      && m.typ == msgs[q].typ && m.msgLen == |msgs[q].body|
      && m.bytes.Keys == Get(sys.arrived, q) && m.bytes.Keys <= Range(0, m.msgLen)
      && forall p | p in m.bytes :: p < |msgs[q].body| && m.bytes[p] == msgs[q].body[p]
  {
    hide Range;
  }

  lemma ArriveElsewhere(msgs: seq<Sent>, maxLen: nat, sys: System, e: Event, k: nat)
    requires e.Arrive? && FromSender(msgs, e) && InWindow(sys.St().readSeq, e.seqNo)
    requires Step(msgs, maxLen, sys, e).Running? && k != e.seqNo
    requires Faithful(msgs, sys, e.seqNo) && Faithful(msgs, sys, k)
    ensures Faithful(msgs, Step(msgs, maxLen, sys, e).sys, k)
  {
    hide Step, Deliver, Message.Complete, Range;
    ArriveStep(msgs, maxLen, sys, e);
  }

  /** What is held of a message of the window. */
  function Held(msgs: seq<Sent>, sys: System, q: nat): Message
    requires q < |msgs|
  {
    if q in sys.St().messages then sys.St().messages[q] else Message(msgs[q].typ, |msgs[q].body|, map[])
  }

  lemma ArriveStep(msgs: seq<Sent>, maxLen: nat, sys: System, e: Event)
    requires e.Arrive? && FromSender(msgs, e) && InWindow(sys.St().readSeq, e.seqNo)
    requires Faithful(msgs, sys, e.seqNo) && Step(msgs, maxLen, sys, e).Running?
    ensures var sys', q := Step(msgs, maxLen, sys, e).sys, e.seqNo;
      var m := Deliver(Held(msgs, sys, q), e.off, msgs[q].body[e.off..e.off + e.len]);
      && sys' == sys.(
           conn := sys.conn.(st := sys.St().(messages := sys.St().messages[q := m])),
           arrived := sys.arrived[q := Get(sys.arrived, q) + Range(e.off, e.off + e.len)],
           since := if q in sys.St().messages then sys.since else sys.since[q := sys.conn.epoch])
      && (Held(msgs, sys, q).Complete() ==> m == Held(msgs, sys, q))
  {
    hide Message.Complete;
  }

  lemma DeliverFaithful(m: Message, body: seq<byte>, off: nat, len: nat)
    requires m.msgLen == |body| && off + len <= |body| && m.bytes.Keys <= Range(0, m.msgLen)
    requires forall p | p in m.bytes :: p < |body| && m.bytes[p] == body[p]
    ensures var m' := Deliver(m, off, body[off..off + len]);
      && m'.typ == m.typ && m'.msgLen == m.msgLen
      && m'.bytes.Keys == m.bytes.Keys + Range(off, off + len) <= Range(0, m.msgLen)
      && forall p | p in m'.bytes :: p < |body| && m'.bytes[p] == body[p]
  {
    var placed := Placed(off, body[off..off + len]);
    assert placed.Keys == Range(off, off + len);
    assert Range(off, off + len) <= Range(0, m.msgLen);
    if !m.Complete() { assert (m.bytes + placed).Keys == m.bytes.Keys + placed.Keys; }
  }

  /** A complete message is the sender's. */
  lemma ReadyIsSent(msgs: seq<Sent>, sys: System)
    requires Invariant(msgs, sys) && Ready(sys.St())
    ensures var q, m := sys.St().readSeq, sys.St().messages[sys.St().readSeq];
      q < |msgs| && Sent(m.typ, m.Body()) == msgs[q]
  {
    var q, m := sys.St().readSeq, sys.St().messages[sys.St().readSeq];
    assert Faithful(msgs, sys, q);
    forall p | 0 <= p < m.msgLen ensures m.Body()[p] == msgs[q].body[p] { assert p in Range(0, m.msgLen); }
    assert m.Body() == msgs[q].body;
  }

  lemma TakeKeeps(msgs: seq<Sent>, maxLen: nat, sys: System)
    requires Invariant(msgs, sys)
    ensures Step(msgs, maxLen, sys, Take).Running? && Invariant(msgs, Step(msgs, maxLen, sys, Take).sys)
  {
    if sys.conn.hasMessage {
      var q := sys.St().readSeq;
      ReadyIsSent(msgs, sys);
      assert msgs[..q + 1] == msgs[..q] + [msgs[q]];
      forall k: nat | k >= q + 1 ensures Faithful(msgs, Step(msgs, maxLen, sys, Take).sys, k) {
        assert Faithful(msgs, sys, k);
      }
    }
  }

  /** The read epoch changes unless a ChangeCipherSpec waits or a message is held that has not been handed
      out. Then no ChangeCipherSpec waits, and only the complete current message may be held. */
  lemma EpochChangeIsClean(msgs: seq<Sent>, maxLen: nat, sys: System)
    requires Invariant(msgs, sys)
    ensures Step(msgs, maxLen, sys, NewReadEpoch).Failed? <==>
      || sys.conn.hasChangeCipherSpec
      || !(sys.St().messages.Keys <= if sys.conn.hasMessage then {sys.St().readSeq} else {})
    ensures Step(msgs, maxLen, sys, NewReadEpoch).Running? ==>
      var sys' := Step(msgs, maxLen, sys, NewReadEpoch).sys;
      && sys' == sys.(conn := sys.conn.(epoch := (sys.conn.epoch + 1) % 0x1_0000)) && !sys'.conn.hasChangeCipherSpec
      && forall q | q in sys'.St().messages :: q == sys'.St().readSeq && sys'.St().messages[q].Complete()
  {
    UnprocessedMeans(sys.conn);
  }

  /** A ChangeCipherSpec is an error when it is encrypted; otherwise it waits, and no read epoch begins, until it
      is taken. */
  lemma ChangeCipherSpecWaits(msgs: seq<Sent>, maxLen: nat, sys: System, e: Event)
    requires FromSender(msgs, e) && Invariant(msgs, sys)
    ensures Step(msgs, maxLen, sys, ArriveChangeCipherSpec(false)).Failed?
    ensures Step(msgs, maxLen, sys, ArriveChangeCipherSpec(true)) ==
      Running(sys.(conn := sys.conn.(hasChangeCipherSpec := true)))
    ensures sys.conn.hasChangeCipherSpec ==>
      match Step(msgs, maxLen, sys, e)
      case Failed => !e.Look? && !e.Take? && !e.TakeChangeCipherSpec?
      case Running(sys') => !e.NewReadEpoch? && (sys'.conn.hasChangeCipherSpec <==> !e.TakeChangeCipherSpec?)
  {
    hide Deliver;
  }

  /** What does not touch the messages keeps what is said about them. */
  lemma OtherKeeps(msgs: seq<Sent>, maxLen: nat, sys: System, e: Event)
    requires FromSender(msgs, e) && !e.Arrive? && !e.Take? && Invariant(msgs, sys)
      && Step(msgs, maxLen, sys, e).Running?
    ensures Invariant(msgs, Step(msgs, maxLen, sys, e).sys)
  {
    if e.NewReadEpoch? { EpochChangeIsClean(msgs, maxLen, sys); }
    forall k: nat | k >= sys.St().readSeq ensures Faithful(msgs, Step(msgs, maxLen, sys, e).sys, k) {
      assert Faithful(msgs, sys, k);
    }
  }

  /** What every event keeps. */
  lemma StepKeeps(msgs: seq<Sent>, maxLen: nat, sys: System, e: Event)
    requires FromSender(msgs, e) && Invariant(msgs, sys) && Step(msgs, maxLen, sys, e).Running?
    ensures Invariant(msgs, Step(msgs, maxLen, sys, e).sys)
  {
    if e.Take? {
      TakeKeeps(msgs, maxLen, sys);
    } else if !e.Arrive? {
      OtherKeeps(msgs, maxLen, sys, e);
    } else if InWindow(sys.St().readSeq, e.seqNo) {
      ArriveKeeps(msgs, maxLen, sys, e);
    } else {
      IgnoredKeeps(msgs, maxLen, sys, e);
    }
  }

  lemma IgnoredKeeps(msgs: seq<Sent>, maxLen: nat, sys: System, e: Event)
    requires e.Arrive? && FromSender(msgs, e) && !InWindow(sys.St().readSeq, e.seqNo)
      && Step(msgs, maxLen, sys, e).Running?
    ensures Step(msgs, maxLen, sys, e).sys == sys
  {
  }

  /** No message is put together from fragments of two read epochs. */
  lemma OneEpochPerMessage(msgs: seq<Sent>, maxLen: nat, sys: System, e: Event, q: nat)
    requires FromSender(msgs, e) && Invariant(msgs, sys) && Step(msgs, maxLen, sys, e).Running?
    requires q in sys.St().messages && q in Step(msgs, maxLen, sys, e).sys.St().messages
    ensures var sys' := Step(msgs, maxLen, sys, e).sys;
      && q in sys.since && q in sys'.since && sys'.since[q] == sys.since[q]
      && (sys'.St().messages[q] != sys.St().messages[q] ==> sys.since[q] == sys.conn.epoch)
  {
  }

  lemma {:induction false} RunKeeps(msgs: seq<Sent>, maxLen: nat, sys: System, events: seq<Event>)
    requires (forall e | e in events :: FromSender(msgs, e)) && Invariant(msgs, sys)
    requires Run(msgs, maxLen, sys, events).Running?
    ensures Invariant(msgs, Run(msgs, maxLen, sys, events).sys)
    decreases |events|
  {
    if events != [] {
      StepKeeps(msgs, maxLen, sys, events[0]);
      RunKeeps(msgs, maxLen, Step(msgs, maxLen, sys, events[0]).sys, events[1..]);
    }
  }

  /** Main theorem. Over any run with fragments of any sizes, lost, duplicated and reordered, with
      ChangeCipherSpecs and read-epoch changes anywhere, the messages handed out are the sender's, each
      once and in order; the next message is ready exactly when something of it has arrived in the window
      and the arrivals cover it; and what is then handed out is the sender's next message. */
  lemma MessagesArrive(msgs: seq<Sent>, maxLen: nat, events: seq<Event>)
    requires forall e | e in events :: FromSender(msgs, e)
    requires Run(msgs, maxLen, START, events).Running?
    ensures var sys := Run(msgs, maxLen, START, events).sys;
      var q := sys.St().readSeq;
      && q <= |msgs| && sys.output == msgs[..q]
      && (Ready(sys.St()) <==> q < |msgs| && q in sys.arrived && sys.arrived[q] == Range(0, |msgs[q].body|))
      && (Ready(sys.St()) ==> Sent(sys.St().messages[q].typ, sys.St().messages[q].Body()) == msgs[q])
      && (sys.conn.hasMessage ==> Ready(sys.St()))
  {
    hide Step;
    RunKeeps(msgs, maxLen, START, events);
    var sys := Run(msgs, maxLen, START, events).sys;
    assert Faithful(msgs, sys, sys.St().readSeq);
    if Ready(sys.St()) { ReadyIsSent(msgs, sys); }
  }

  /** A genuine fragment ends the connection exactly when it is longer than the limit, comes from
      just behind the window, or is not of the next message in the first encrypted epoch. */
  lemma WhenRejected(msgs: seq<Sent>, maxLen: nat, sys: System, e: Event)
    requires e.Arrive? && FromSender(msgs, e) && Invariant(msgs, sys)
    ensures Step(msgs, maxLen, sys, e).Failed? <==>
      || |msgs[e.seqNo].body| > maxLen
      || (sys.conn.epoch == 1 && e.seqNo != sys.St().readSeq)
      || e.seqNo == sys.St().readSeq + SSL_MAX_HANDSHAKE_FLIGHT
  {
    if e.seqNo >= sys.St().readSeq { assert Faithful(msgs, sys, e.seqNo); }
  }

  /** Events that a receiver in its present state can take whatever their order: short enough messages of
      one flight from the next one on; in the first encrypted epoch only the next message. */
  predicate Harmless(msgs: seq<Sent>, maxLen: nat, sys: System, e: Event) {
    match e
    case Arrive(q, _, _) =>
      && q < |msgs| && |msgs[q].body| <= maxLen
      && (if sys.conn.epoch == 1 then q == sys.St().readSeq else q < sys.St().readSeq + SSL_MAX_HANDSHAKE_FLIGHT)
    case ArriveChangeCipherSpec(nullCipher) => nullCipher
    case Take => sys.conn.epoch != 1
    case NewReadEpoch => false
    case Look | TakeChangeCipherSpec => true
  }

  lemma HarmlessStep(msgs: seq<Sent>, maxLen: nat, sys: System, e: Event)
    requires FromSender(msgs, e) && Invariant(msgs, sys) && Harmless(msgs, maxLen, sys, e)
    ensures var next := Step(msgs, maxLen, sys, e);
      && next.Running?
      && forall e' | Harmless(msgs, maxLen, sys, e') :: Harmless(msgs, maxLen, next.sys, e')
  {
    if e.Arrive? { WhenRejected(msgs, maxLen, sys, e); }
  }

  /** A run of such events succeeds, whatever their order and however often they occur. */
  lemma {:induction false} RunSucceeds(msgs: seq<Sent>, maxLen: nat, sys: System, events: seq<Event>)
    requires Invariant(msgs, sys) && forall e | e in events :: FromSender(msgs, e) && Harmless(msgs, maxLen, sys, e)
    ensures Run(msgs, maxLen, sys, events).Running? && Invariant(msgs, Run(msgs, maxLen, sys, events).sys)
    decreases |events|
  {
    hide Step, Harmless, FromSender, Invariant;
    if events != [] {
      assert events == [events[0]] + events[1..];
      HarmlessStep(msgs, maxLen, sys, events[0]);
      StepKeeps(msgs, maxLen, sys, events[0]);
      RunSucceeds(msgs, maxLen, Step(msgs, maxLen, sys, events[0]).sys, events[1..]);
    }
  }
}
