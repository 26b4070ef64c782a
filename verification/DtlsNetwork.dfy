/** Datagrams on their way from the record writer of one side to the messages handed out by the other. */
module DtlsNetwork {
  import opened Bits
  import opened Wrappers
  import opened Sequences
  import opened TlsWire
  import opened DtlsFragment
  import opened DtlsReceiveSpec
  import opened DtlsReplay
  import opened DtlsRecord
  import opened DtlsReceiver
  import opened DtlsFlight
  import opened DtlsSendSpec
  import opened DtlsDelivery
  import E = DtlsEndToEnd

  // ---------- opening a record and handling it ----------

  /** What an opened record does: it is an error, it is dropped, or the receiver goes on. */
  datatype Handled = Bad | Dropped | Good(conn: Conn)

  /** The part of dtls1_open_handshake behind dtls_open_record. */
  function Handle(c: Conn, maxLen: nat, nullCipher: bool, typ: nat, plaintext: seq<byte>): Handled {
    if typ == RT_APPLICATION_DATA then if nullCipher then Bad else Dropped
    else if typ == RT_CHANGE_CIPHER_SPEC then
      if nullCipher && plaintext == [1] then Good(c.(hasChangeCipherSpec := true)) else Bad
    else if typ == RT_HANDSHAKE then
      match ReceiveRecord(c.st, c.epoch, maxLen, plaintext)
      case Rejected => Bad
      case Accepted(st) => Good(c.(st := st))
    else Bad
  }

  /** dtls1_open_handshake: opens the record at the front of the input and handles it. */
  method OpenNextRecord(reader: RecordReader, receiver: Receiver, input: seq<byte>)
    returns (r: OpenedRecord, handled: OpenResult, consumed: nat)
    requires reader.Valid() && receiver.Valid()
    requires reader as object !in receiver.Repr && reader.window as object !in receiver.Repr
    modifies reader`reading, reader.window
    modifies receiver`Repr, receiver`hasChangeCipherSpec, receiver.incoming, receiver.Repr
    ensures reader.Valid() && receiver.Valid() && fresh(receiver.Repr - old(receiver.Repr))
    ensures (r, consumed as int, reader.reading) == Opening(reader.closed, reader.aead, old(reader.reading), input)
    ensures !r.Opened? ==> receiver.State() == old(receiver.State())
    ensures r.Opened? ==>
      match Handle(old(receiver.State()), receiver.maxLen, reader.aead.nullCipher, r.typ, r.plaintext)
      case Bad => handled == OpenError
      case Dropped => handled == OpenDiscard && receiver.State() == old(receiver.State())
      case Good(c) => handled == OpenSuccess && receiver.State() == c
  {
    hide Opening, ReceiveRecord, Collect;
    handled := OpenDiscard;
    r, consumed := reader.OpenRecord(input);
    if r.Opened? {
      handled := receiver.OpenHandshake(r.typ, reader.aead.nullCipher, r.plaintext);
    }
  }

  // ---------- runs ----------

  /** The receiving side: the handshake state, the messages handed out, the record layer, and what is left of
      the datagram last read. */
  datatype Net = Net(conn: Conn, output: seq<E.Sent>, rd: Reading, buf: seq<byte>)

  /** A datagram is read, which happens only when nothing is left of the one before; the next record is opened;
      or something happens that is not an arrival. */
  datatype Act = Datagram(packet: seq<byte>) | OpenNext | Local(e: E.Event)

  predicate IsLocal(e: E.Event) { !e.Arrive? && !e.ArriveChangeCipherSpec? }

  predicate CanAct(a: Act) { a.Local? ==> IsLocal(a.e) }

  datatype NetOutcome = Closed | Up(net: Net)

  /** One step, with the cipher of each read epoch. An alert, an oversized record and a record that is an error
      end the connection. */
  ghost function NetStep(ciphers: nat -> Aead, maxLen: nat, net: Net, a: Act): NetOutcome
    requires CanAct(a)
  {
    match a
    case Datagram(packet) => Up(if net.buf == [] then net.(buf := packet) else net)
    case Local(e) => (
      match E.Step([], maxLen, E.System(net.conn, net.output, map[], map[]), e)
      case Failed => Closed
      case Running(s) =>
        Up(net.(conn := s.conn, output := s.output,
                rd := if e.NewReadEpoch? then Read(net.rd, NewReadEpoch) else net.rd)))
    case OpenNext =>
      var cipher := ciphers(net.rd.epoch);
      var (r, consumed, rd) := Opening(false, cipher, net.rd, net.buf);
      var next := net.(rd := rd, buf := net.buf[consumed..]);
      match r
      case Opened(typ, plaintext) => (
        match Handle(net.conn, maxLen, cipher.nullCipher, typ, plaintext)
        case Bad => Closed
        case Dropped => Up(next)
        case Good(c) => Up(next.(conn := c)))
      case Discard | NeedMore => Up(next)
      case _ => Closed
  }

  ghost function NetRun(ciphers: nat -> Aead, maxLen: nat, net: Net, acts: seq<Act>): NetOutcome
    requires forall a | a in acts :: CanAct(a)
    decreases |acts|
  {
    if acts == [] then Up(net)
    else match NetStep(ciphers, maxLen, net, acts[0])
      case Closed => Closed
      case Up(net') => NetRun(ciphers, maxLen, net', acts[1..])
  }

  /** What the opened record is to the handshake: the arrival of the fragment that its header describes, or of a
      ChangeCipherSpec. */
  function EventsOf(nullCipher: bool, typ: nat, plaintext: seq<byte>): seq<E.Event> {
    if typ == RT_HANDSHAKE then
      match ParseFragment(plaintext)
      case Parsed(h, _, _) => [E.Arrive(h.seqNo, h.fragOff, h.fragLen)]
      case ParseError => []
    else if typ == RT_CHANGE_CIPHER_SPEC then [E.ArriveChangeCipherSpec(nullCipher)]
    else []
  }

  ghost function StepEvents(ciphers: nat -> Aead, net: Net, a: Act): seq<E.Event> {
    match a
    case Datagram(_) => []
    case Local(e) => [e]
    case OpenNext =>
      var cipher := ciphers(net.rd.epoch);
      var r := Opening(false, cipher, net.rd, net.buf).0;
      if r.Opened? then EventsOf(cipher.nullCipher, r.typ, r.plaintext) else []
  }

  /** The events of a run, as far as it gets. */
  ghost function Trace(ciphers: nat -> Aead, maxLen: nat, net: Net, acts: seq<Act>): seq<E.Event>
    requires forall a | a in acts :: CanAct(a)
    decreases |acts|
  {
    if acts == [] then []
    else
      StepEvents(ciphers, net, acts[0]) +
      match NetStep(ciphers, maxLen, net, acts[0])
      case Closed => []
      case Up(net') => Trace(ciphers, maxLen, net', acts[1..])
  }

  // ---------- what the network may do ----------

  /** The plaintext is one fragment of a message that the sender queued. */
  ghost predicate Genuine(queue: seq<E.Sent>, plaintext: seq<byte>) {
    exists e: E.Event :: IsFragment(queue, e, plaintext)
  }

  predicate IsFragment(queue: seq<E.Sent>, e: E.Event, plaintext: seq<byte>) {
    && e.Arrive? && E.FromSender(queue, e) && E.FragmentHeader(queue, e).Fits()
    && plaintext == HeaderBytes(E.FragmentHeader(queue, e)) + E.FragmentBytes(queue, e)
  }

  /** If the cipher of its epoch opens a handshake record, the sender sealed it. */
  ghost predicate AuthenticRecord(queue: seq<E.Sent>, ciphers: nat -> Aead, r: Record) {
    var p := ciphers(EpochOfNumber(r.number)).open(r.typ, r.version, r.number, r.body);
    r.typ == RT_HANDSHAKE && p.Some? ==> Genuine(queue, p.value)
  }

  /** So it is for every record of a datagram. Datagrams of the sender may be lost, repeated, reordered and cut
      off, and others may be added, as long as nobody forges a handshake record. */
  ghost predicate Authentic(queue: seq<E.Sent>, ciphers: nat -> Aead, input: seq<byte>)
    decreases |input|
  {
    var p := ParseRecord(input);
    p.Some? ==> AuthenticRecord(queue, ciphers, p.value.0) && Authentic(queue, ciphers, p.value.1)
  }

  // ---------- the run is one of arrivals ----------

  /** The state of a run of arrivals. */
  ghost predicate Same(net: Net, sys: E.System) {
    net.conn == sys.conn && net.output == sys.output && net.rd.epoch == net.conn.epoch
  }

  lemma FragmentArrives(queue: seq<E.Sent>, e: E.Event, plaintext: seq<byte>, st: RState, epoch: nat, maxLen: nat)
    requires IsFragment(queue, e, plaintext)
    ensures EventsOf(false, RT_HANDSHAKE, plaintext) == EventsOf(true, RT_HANDSHAKE, plaintext) == [e]
    ensures ReceiveRecord(st, epoch, maxLen, plaintext)
         == ReceiveFragment(st, epoch, maxLen, E.FragmentHeader(queue, e), E.FragmentBytes(queue, e))
  {
    hide ParseFragment, HeaderBytes, ReceiveFragment;
    FragmentRoundTrip(E.FragmentHeader(queue, e), E.FragmentBytes(queue, e), []);
    assert plaintext + [] == plaintext;
  }

  /** A record that opens and is not an error is an event, or nothing. */
  lemma HandledIsStep(queue: seq<E.Sent>, maxLen: nat, nullCipher: bool, typ: nat, plaintext: seq<byte>,
      sys: E.System)
    requires typ == RT_HANDSHAKE ==> Genuine(queue, plaintext)
    requires !Handle(sys.conn, maxLen, nullCipher, typ, plaintext).Bad?
    ensures var events, h := EventsOf(nullCipher, typ, plaintext), Handle(sys.conn, maxLen, nullCipher, typ, plaintext);
      && (forall e | e in events :: E.FromSender(queue, e)) && E.Run(queue, maxLen, sys, events).Running?
      && var sys' := E.Run(queue, maxLen, sys, events).sys;
         sys'.conn == (if h.Good? then h.conn else sys.conn) && sys'.output == sys.output
  {
    hide ReceiveRecord, ReceiveFragment, ParseFragment, HeaderBytes;
    if typ == RT_HANDSHAKE {
      var e :| IsFragment(queue, e, plaintext);
      FragmentArrives(queue, e, plaintext, sys.conn.st, sys.conn.epoch, maxLen);
      OneEvent(queue, maxLen, sys, e);
    } else if typ == RT_CHANGE_CIPHER_SPEC {
      OneEvent(queue, maxLen, sys, E.ArriveChangeCipherSpec(nullCipher));
    }
  }

  /** What the receiver does with a record of the flight is the step of its event: a part of a message ends the
      connection or is held as WhenRejected says, a ChangeCipherSpec waits unless it was encrypted. */
  lemma PieceIsHandled(queue: seq<E.Sent>, flight: seq<OutMsg>, p: Piece, maxLen: nat, nullCipher: bool, sys: E.System)
    requires InMessage(flight, p) && (p.Part? ==> Queued(queue, flight, p.index))
    ensures var e := if p.Part? then Arrival(flight, p) else E.ArriveChangeCipherSpec(nullCipher);
      && E.FromSender(queue, e)
      && var h := Handle(sys.conn, maxLen, nullCipher, TypeOf(p), PieceBytes(flight, p));
         match E.Step(queue, maxLen, sys, e)
         case Failed => h.Bad?
         case Running(sys') => h == Good(sys'.conn) && sys'.output == sys.output
  {
    hide ReceiveRecord, ReceiveFragment, HeaderBytes, WellFormed, HeaderOf, BodyOf, Queued;
    if p.Part? { PieceArrives(queue, flight, p, sys.conn.st, sys.conn.epoch, maxLen); }
  }

  /** Application data that was encrypted may arrive early and changes nothing; unencrypted it is an error, like
      any other record that is no part of a handshake. */
  lemma OtherRecords(ciphers: nat -> Aead, maxLen: nat, net: Net, typ: nat, plaintext: seq<byte>)
    requires Opening(false, ciphers(net.rd.epoch), net.rd, net.buf).0 == Opened(typ, plaintext)
    requires typ != RT_HANDSHAKE && typ != RT_CHANGE_CIPHER_SPEC
    ensures match NetStep(ciphers, maxLen, net, OpenNext)
      case Closed => typ != RT_APPLICATION_DATA || ciphers(net.rd.epoch).nullCipher
      case Up(net') => typ == RT_APPLICATION_DATA && !ciphers(net.rd.epoch).nullCipher && net'.conn == net.conn
                       && net'.output == net.output
  {
    hide Opening;
  }

  lemma OneEvent(queue: seq<E.Sent>, maxLen: nat, sys: E.System, e: E.Event)
    requires E.FromSender(queue, e)
    ensures E.Run(queue, maxLen, sys, [e]) == E.Step(queue, maxLen, sys, e)
  {
    hide E.Step;
    assert [e][1..] == [];
  }

  lemma NoEvent(queue: seq<E.Sent>, maxLen: nat, sys: E.System)
    ensures E.Run(queue, maxLen, sys, []) == E.Running(sys)
  {
  }

  /** What opening a record of an authentic datagram gives and leaves. */
  lemma OpenedIsGenuine(queue: seq<E.Sent>, ciphers: nat -> Aead, rd: Reading, buf: seq<byte>)
    requires Authentic(queue, ciphers, buf)
    ensures var (r, consumed, rd') := Opening(false, ciphers(rd.epoch), rd, buf);
      && Authentic(queue, ciphers, buf[consumed..]) && rd'.epoch == rd.epoch
      && (r.Opened? && r.typ == RT_HANDSHAKE ==> Genuine(queue, r.plaintext))
  {
    hide ParseRecord, VersionOk, Discarded, Genuine;
    var consumed := Opening(false, ciphers(rd.epoch), rd, buf).1;
    NothingIsAuthentic(queue, ciphers);
    assert buf[0..] == buf && buf[|buf|..] == [];
    if buf != [] && ParseRecord(buf).Some? { ParsedRest(buf); }
  }

  lemma NothingIsAuthentic(queue: seq<E.Sent>, ciphers: nat -> Aead)
    ensures Authentic(queue, ciphers, [])
  {
  }

  lemma ParsedRest(bs: seq<byte>)
    requires ParseRecord(bs).Some?
    ensures bs[|bs| - |ParseRecord(bs).value.1|..] == ParseRecord(bs).value.1
  {
    hide FromBigEndian;
  }

  /** One step of the network is its events, on what was sent. */
  lemma NetStepRefines(queue: seq<E.Sent>, ciphers: nat -> Aead, maxLen: nat, net: Net, a: Act, sys: E.System)
    requires CanAct(a) && (a.Datagram? ==> Authentic(queue, ciphers, a.packet))
    requires Same(net, sys) && Authentic(queue, ciphers, net.buf) && NetStep(ciphers, maxLen, net, a).Up?
    ensures var net', events := NetStep(ciphers, maxLen, net, a).net, StepEvents(ciphers, net, a);
      && (forall e | e in events :: E.FromSender(queue, e)) && E.Run(queue, maxLen, sys, events).Running?
      && Same(net', E.Run(queue, maxLen, sys, events).sys) && Authentic(queue, ciphers, net'.buf)
  {
    match a {
      case Datagram(_) => NoEvent(queue, maxLen, sys);
      case Local(e) => LocalIsStep(queue, maxLen, sys, e);
      case OpenNext => OpenRefines(queue, ciphers, maxLen, net, sys);
    }
  }

  lemma LocalIsStep(queue: seq<E.Sent>, maxLen: nat, sys: E.System, e: E.Event)
    requires IsLocal(e)
    ensures E.Run(queue, maxLen, sys, [e]) == E.Step(queue, maxLen, sys, e)
    ensures var s := E.Step([], maxLen, E.System(sys.conn, sys.output, map[], map[]), e);
      match E.Step(queue, maxLen, sys, e)
      case Failed => s.Failed?
      case Running(sys') =>
        && s.Running? && s.sys.conn == sys'.conn && s.sys.output == sys'.output
        && sys'.conn.epoch == if e.NewReadEpoch? then (sys.conn.epoch + 1) % 0x1_0000 else sys.conn.epoch
  {
    OneEvent(queue, maxLen, sys, e);
  }

  lemma OpenRefines(queue: seq<E.Sent>, ciphers: nat -> Aead, maxLen: nat, net: Net, sys: E.System)
    requires Same(net, sys) && Authentic(queue, ciphers, net.buf) && NetStep(ciphers, maxLen, net, OpenNext).Up?
    ensures var net', events := NetStep(ciphers, maxLen, net, OpenNext).net, StepEvents(ciphers, net, OpenNext);
      && (forall e | e in events :: E.FromSender(queue, e)) && E.Run(queue, maxLen, sys, events).Running?
      && Same(net', E.Run(queue, maxLen, sys, events).sys) && Authentic(queue, ciphers, net'.buf)
  {
    hide Opening, Authentic, Handle, EventsOf, Genuine, E.Step, E.FromSender, E.Run;
    OpenedIsGenuine(queue, ciphers, net.rd, net.buf);
    var cipher := ciphers(net.rd.epoch);
    var r := Opening(false, cipher, net.rd, net.buf).0;
    NoEvent(queue, maxLen, sys);
    if r.Opened? {
      HandledIsStep(queue, maxLen, cipher.nullCipher, r.typ, r.plaintext, sys);
      HandleKeepsEpoch(sys.conn, maxLen, cipher.nullCipher, r.typ, r.plaintext);
    }
  }

  lemma HandleKeepsEpoch(c: Conn, maxLen: nat, nullCipher: bool, typ: nat, plaintext: seq<byte>)
    ensures var h := Handle(c, maxLen, nullCipher, typ, plaintext);
      h.Good? ==> h.conn.epoch == c.epoch
  {
  }

  lemma {:induction false} RunAppend(queue: seq<E.Sent>, maxLen: nat, sys: E.System, a: seq<E.Event>, b: seq<E.Event>)
    requires (forall e | e in a + b :: E.FromSender(queue, e)) && E.Run(queue, maxLen, sys, a).Running?
    ensures E.Run(queue, maxLen, sys, a + b) == E.Run(queue, maxLen, E.Run(queue, maxLen, sys, a).sys, b)
    decreases |a|
  {
    hide E.Step, E.FromSender;
    if a == [] {
      assert a + b == b;
    } else {
      assert (a + b)[1..] == a[1..] + b;
      RunAppend(queue, maxLen, E.Step(queue, maxLen, sys, a[0]).sys, a[1..], b);
    }
  }

  ghost predicate AllAuthentic(queue: seq<E.Sent>, ciphers: nat -> Aead, acts: seq<Act>) {
    forall a | a in acts :: CanAct(a) && (a.Datagram? ==> Authentic(queue, ciphers, a.packet))
  }

  /** A run over the network is the run of its events. */
  lemma {:induction false} NetRunRefines(queue: seq<E.Sent>, ciphers: nat -> Aead, maxLen: nat, net: Net,
      acts: seq<Act>, sys: E.System)
    requires AllAuthentic(queue, ciphers, acts) && Same(net, sys) && Authentic(queue, ciphers, net.buf)
    requires NetRun(ciphers, maxLen, net, acts).Up?
    ensures var events := Trace(ciphers, maxLen, net, acts);
      && (forall e | e in events :: E.FromSender(queue, e)) && E.Run(queue, maxLen, sys, events).Running?
      && Same(NetRun(ciphers, maxLen, net, acts).net, E.Run(queue, maxLen, sys, events).sys)
    decreases |acts|
  {
    hide NetStep, StepEvents, Same, Authentic, E.Step, E.FromSender;
    if acts != [] {
      NetStepRefines(queue, ciphers, maxLen, net, acts[0], sys);
      var net', events := NetStep(ciphers, maxLen, net, acts[0]).net, StepEvents(ciphers, net, acts[0]);
      var sys' := E.Run(queue, maxLen, sys, events).sys;
      NetRunRefines(queue, ciphers, maxLen, net', acts[1..], sys');
      RunAppend(queue, maxLen, sys, events, Trace(ciphers, maxLen, net', acts[1..]));
    }
  }

  const START_NET := Net(E.START.conn, [], Reading(0, {}, []), [])

  /** Main theorem. Whatever becomes of the sender's datagrams on the way, and whatever else arrives, unless the
      connection ends: the messages handed out are the sender's, each once and in order; the next one is ready
      exactly when the fragments in the records opened so far cover it, and it is the sender's next. */
  lemma NetworkDelivers(queue: seq<E.Sent>, ciphers: nat -> Aead, maxLen: nat, acts: seq<Act>)
    requires AllAuthentic(queue, ciphers, acts) && NetRun(ciphers, maxLen, START_NET, acts).Up?
    ensures var events := Trace(ciphers, maxLen, START_NET, acts);
      && (forall e | e in events :: E.FromSender(queue, e)) && E.Run(queue, maxLen, E.START, events).Running?
      && var c, sys := NetRun(ciphers, maxLen, START_NET, acts).net, E.Run(queue, maxLen, E.START, events).sys;
         var q := c.conn.st.readSeq;
         && q <= |queue| && c.output == queue[..q]
         && (Ready(c.conn.st) <==> q < |queue| && q in sys.arrived && sys.arrived[q] == Range(0, |queue[q].body|))
         && (Ready(c.conn.st) ==> E.Sent(c.conn.st.messages[q].typ, c.conn.st.messages[q].Body()) == queue[q])
  {
    hide NetRun, Trace, Authentic, E.Run, E.FromSender;
    NothingIsAuthentic(queue, ciphers);
    NetRunRefines(queue, ciphers, maxLen, START_NET, acts, E.START);
    E.MessagesArrive(queue, maxLen, Trace(ciphers, maxLen, START_NET, acts));
  }

  // ---------- the sender's datagrams ----------

  /** The receiver's ciphers are those of the sender. */
  ghost predicate SharedKeys(ciphers: nat -> Aead, keys: WriteKeys) {
    && ciphers(keys.epoch) == keys.current && (keys.epoch > 0 ==> ciphers(keys.epoch - 1) == keys.previous)
    && forall e :: ciphers(e).Correct()
  }

  /** All handshake messages of a flight are queued under their numbers. */
  predicate AllQueued(queue: seq<E.Sent>, flight: seq<OutMsg>) {
    forall i | 0 <= i < |flight| :: !flight[i].isCcs && WellFormed(flight[i]) ==> Queued(queue, flight, i)
  }

  lemma CarriedIsAuthentic(queue: seq<E.Sent>, ciphers: nat -> Aead, flight: seq<OutMsg>, keys: WriteKeys, p: Piece,
      r: Record)
    requires Carries(flight, keys, p, r) && SharedKeys(ciphers, keys) && AllQueued(queue, flight)
    ensures AuthenticRecord(queue, ciphers, r)
    ensures ciphers(EpochOfNumber(r.number)) == CipherOf(keys, flight[p.index])
    ensures p.Part? ==> IsFragment(queue, Arrival(flight, p), PieceBytes(flight, p))
  {
    hide HeaderBytes, ParseFragment;
    if p.Part? { ParsedFits(flight[p.index].data); }
    var cipher := CipherOf(keys, flight[p.index]);
    assert cipher.open(r.typ, r.version, r.number, r.body) == Some(PieceBytes(flight, p));
    if p.Part? { assert IsFragment(queue, Arrival(flight, p), PieceBytes(flight, p)); }
  }

  function Bytes(packet: seq<Record>): seq<byte> {
    if packet == [] then [] else packet[0].Bytes() + Bytes(packet[1..])
  }

  /** A record of the flight, short enough for the reader's limit. */
  ghost predicate FlightRecord(flight: seq<OutMsg>, keys: WriteKeys, r: Record) {
    r.Fits() && |r.body| <= RT_MAX_ENCRYPTED_LENGTH && exists p :: Carries(flight, keys, p, r)
  }

  lemma {:induction false} PacketIsAuthentic(queue: seq<E.Sent>, ciphers: nat -> Aead, flight: seq<OutMsg>,
      keys: WriteKeys, packet: seq<Record>)
    requires (forall r | r in packet :: FlightRecord(flight, keys, r)) && SharedKeys(ciphers, keys)
    requires AllQueued(queue, flight)
    ensures Authentic(queue, ciphers, Bytes(packet))
    decreases |packet|
  {
    hide Carries, SharedKeys, AllQueued, Record.Bytes, ParseRecord, AuthenticRecord;
    if packet == [] {
      NothingIsAuthentic(queue, ciphers);
    } else {
      PacketIsAuthentic(queue, ciphers, flight, keys, packet[1..]);
      assert FlightRecord(flight, keys, packet[0]);
      var p :| Carries(flight, keys, p, packet[0]);
      CarriedIsAuthentic(queue, ciphers, flight, keys, p, packet[0]);
      RecordRoundTrip(packet[0], Bytes(packet[1..]));
    }
  }

  /** Every packet that FlightIsNext speaks about is authentic and can be read. */
  lemma SentIsAuthentic(queue: seq<E.Sent>, ciphers: nat -> Aead, flight: seq<OutMsg>, keys: WriteKeys, mtu: nat,
      pieces: seq<Piece>, packets: seq<seq<Record>>, k: nat)
    requires Delivers(flight, keys, mtu, pieces, packets) && k < |packets| && SharedKeys(ciphers, keys)
    requires AllQueued(queue, flight)
    requires keys.epoch < 0x1_0000 && mtu <= DTLS1_RT_HEADER_LENGTH + RT_MAX_ENCRYPTED_LENGTH
    ensures Authentic(queue, ciphers, Bytes(packets[k]))
    ensures forall r | r in packets[k] :: FlightRecord(flight, keys, r)
  {
    hide Carries, SharedKeys, AllQueued, Authentic, Bytes, FlightRecord, Size, Flatten;
    assert keys.current.version < 0x1_0000 by { SharedVersion(ciphers, keys); }
    forall r | r in packets[k] ensures FlightRecord(flight, keys, r) {
      FlattenHas(packets, k, r);
      var j :| 0 <= j < |Flatten(packets)| && Flatten(packets)[j] == r;
      assert Carries(flight, keys, pieces[j], r);
      RecordFits(flight, keys, pieces[j], packets[k], r);
    }
    PacketIsAuthentic(queue, ciphers, flight, keys, packets[k]);
  }

  lemma SharedVersion(ciphers: nat -> Aead, keys: WriteKeys)
    requires SharedKeys(ciphers, keys)
    ensures keys.current.version < 0x1_0000
  {
    assert ciphers(keys.epoch).Correct();
  }

  lemma RecordFits(flight: seq<OutMsg>, keys: WriteKeys, p: Piece, packet: seq<Record>, r: Record)
    requires r in packet && Size(packet) <= DTLS1_RT_HEADER_LENGTH + RT_MAX_ENCRYPTED_LENGTH
    requires Carries(flight, keys, p, r) && keys.epoch < 0x1_0000 && keys.current.version < 0x1_0000
    ensures FlightRecord(flight, keys, r)
  {
    hide Size, PieceBytes, WellFormed, Record.Bytes;
    SizeHas(packet, r);
  }

  lemma {:induction false} SizeHas(packet: seq<Record>, r: Record)
    requires r in packet
    ensures |r.Bytes()| <= Size(packet)
    decreases |packet|
  {
    hide Record.Bytes;
    if packet[0] != r {
      assert packet == [packet[0]] + packet[1..];
      SizeHas(packet[1..], r);
    }
  }

  lemma {:induction false} FlattenHas<T>(parts: seq<seq<T>>, k: nat, x: T)
    requires k < |parts| && x in parts[k]
    ensures x in Flatten(parts)
    decreases |parts|
  {
    if k < |parts| - 1 { FlattenHas(parts[..|parts| - 1], k, x); }
  }

  /** The record of a piece, at the front of what is left of a datagram and in the receiver's epoch, is the
      arrival of that piece, if the version suits and the number is not discarded. */
  lemma RecordArrives(queue: seq<E.Sent>, ciphers: nat -> Aead, flight: seq<OutMsg>, keys: WriteKeys, p: Piece,
      r: Record, rest: seq<byte>, net: Net)
    requires Carries(flight, keys, p, r) && SharedKeys(ciphers, keys) && AllQueued(queue, flight) && p.Part?
    requires r.Fits() && |r.body| <= RT_MAX_ENCRYPTED_LENGTH && |PieceBytes(flight, p)| <= RT_MAX_PLAIN_LENGTH
    requires var cipher, v := CipherOf(keys, flight[p.index]), keys.current.version;
      if cipher.nullCipher then 0xFE00 <= v <= 0xFEFF else v == cipher.version
    requires net.buf == r.Bytes() + rest && flight[p.index].epoch == net.rd.epoch && !Discarded(net.rd, r.number)
    ensures StepEvents(ciphers, net, OpenNext) == [Arrival(flight, p)]
  {
    hide Opening, Discarded, PieceBytes, Record.Bytes, EventsOf, WellFormed, AllQueued, IsFragment;
    CarriedIsAuthentic(queue, ciphers, flight, keys, p, r);
    PieceIsOpened(flight, keys, p, r, rest, net.rd);
    FragmentArrives(queue, Arrival(flight, p), PieceBytes(flight, p), RState(0, map[]), 0, 0);
    assert ciphers(net.rd.epoch) == CipherOf(keys, flight[p.index]);
  }

  /** Step k of the run opens a record of the piece, in the epoch of its message and past the window. */
  ghost predicate OpensAt(ciphers: nat -> Aead, maxLen: nat, net: Net, acts: seq<Act>, flight: seq<OutMsg>, p: Piece,
      keys: WriteKeys, r: Record, rest: seq<byte>, k: nat)
    requires forall a | a in acts :: CanAct(a)
  {
    && k < |acts| && acts[k].OpenNext? && NetRun(ciphers, maxLen, net, acts[..k]).Up?
    && p.Part? && Carries(flight, keys, p, r) && SharedKeys(ciphers, keys)
    && r.Fits() && |r.body| <= RT_MAX_ENCRYPTED_LENGTH && |PieceBytes(flight, p)| <= RT_MAX_PLAIN_LENGTH
    && (var cipher, v := CipherOf(keys, flight[p.index]), keys.current.version;
        if cipher.nullCipher then 0xFE00 <= v <= 0xFEFF else v == cipher.version)
    && var at := NetRun(ciphers, maxLen, net, acts[..k]).net;
       at.buf == r.Bytes() + rest && flight[p.index].epoch == at.rd.epoch && !Discarded(at.rd, r.number)
  }

  ghost predicate IsOpened(ciphers: nat -> Aead, maxLen: nat, net: Net, acts: seq<Act>, flight: seq<OutMsg>, p: Piece)
    requires forall a | a in acts :: CanAct(a)
  {
    exists keys, r, rest, k: nat :: OpensAt(ciphers, maxLen, net, acts, flight, p, keys, r, rest, k)
  }

  /** What happens at some step is in the trace. */
  lemma {:induction false} TraceHas(ciphers: nat -> Aead, maxLen: nat, net: Net, acts: seq<Act>, k: nat, e: E.Event)
    requires (forall a | a in acts :: CanAct(a)) && k < |acts| && NetRun(ciphers, maxLen, net, acts[..k]).Up?
    requires e in StepEvents(ciphers, NetRun(ciphers, maxLen, net, acts[..k]).net, acts[k])
    ensures e in Trace(ciphers, maxLen, net, acts)
    decreases k
  {
    hide NetStep, StepEvents;
    if k > 0 {
      assert acts[..k][1..] == acts[1..][..k - 1];
      TraceHas(ciphers, maxLen, NetStep(ciphers, maxLen, net, acts[0]).net, acts[1..], k - 1, e);
    }
  }

  lemma OpenedArrives(queue: seq<E.Sent>, ciphers: nat -> Aead, maxLen: nat, net: Net, acts: seq<Act>,
      flight: seq<OutMsg>, p: Piece)
    requires AllQueued(queue, flight) && (forall a | a in acts :: CanAct(a))
    requires IsOpened(ciphers, maxLen, net, acts, flight, p)
    ensures p.Part? && InMessage(flight, p) && Arrival(flight, p) in Trace(ciphers, maxLen, net, acts)
  {
    hide NetRun, Trace, AllQueued, SharedKeys, Discarded, StepEvents, PieceBytes, Record.Bytes, WellFormed;
    var keys, r, rest, k: nat :| OpensAt(ciphers, maxLen, net, acts, flight, p, keys, r, rest, k);
    RecordArrives(queue, ciphers, flight, keys, p, r, rest, NetRun(ciphers, maxLen, net, acts[..k]).net);
    TraceHas(ciphers, maxLen, net, acts, k, Arrival(flight, p));
  }

  /** Main theorem. However the sender cut its flight, once a record of every piece of a message has been opened
      while the message was in the window - whatever else was lost, repeated or reordered - the message is
      ready when its turn comes. */
  lemma FlightGetsThrough(queue: seq<E.Sent>, ciphers: nat -> Aead, maxLen: nat, flight: seq<OutMsg>,
      pieces: seq<Piece>, i: nat, before: seq<Act>, acts: seq<Act>, net: Net)
    requires AllQueued(queue, flight) && i < |flight| && !flight[i].isCcs && WellFormed(flight[i])
    requires Walk(flight, Pos(0, 0), pieces) == Some(Pos(|flight|, 0))
    requires AllAuthentic(queue, ciphers, before) && AllAuthentic(queue, ciphers, acts)
    requires NetRun(ciphers, maxLen, START_NET, before) == Up(net) && NetRun(ciphers, maxLen, net, acts).Up?
    requires forall p | p in pieces && p.Part? && p.index == i :: IsOpened(ciphers, maxLen, net, acts, flight, p)
    requires InWindow(net.conn.st.readSeq, HeaderOf(flight[i]).seqNo)
    requires NetRun(ciphers, maxLen, net, acts).net.conn.st.readSeq == HeaderOf(flight[i]).seqNo
    ensures Ready(NetRun(ciphers, maxLen, net, acts).net.conn.st)
  {
    hide NetRun, Trace, Authentic, E.Run, E.FromSender, E.Invariant, Walk, Queued, NetStep, IsOpened, WellFormed;
    NothingIsAuthentic(queue, ciphers);
    NetRunRefines(queue, ciphers, maxLen, START_NET, before, E.START);
    NetRunKeeps(queue, ciphers, maxLen, START_NET, before);
    var sys := E.Run(queue, maxLen, E.START, Trace(ciphers, maxLen, START_NET, before)).sys;
    StartHolds(queue);
    E.RunKeeps(queue, maxLen, E.START, Trace(ciphers, maxLen, START_NET, before));
    NetRunRefines(queue, ciphers, maxLen, net, acts, sys);
    forall p | p in pieces && p.Part? && p.index == i && InMessage(flight, p)
      ensures Arrival(flight, p) in Trace(ciphers, maxLen, net, acts)
    {
      OpenedArrives(queue, ciphers, maxLen, net, acts, flight, p);
    }
    FlightArrives(queue, flight, pieces, i, maxLen, sys, Trace(ciphers, maxLen, net, acts));
  }

  lemma StartHolds(queue: seq<E.Sent>)
    ensures E.Invariant(queue, E.START)
  {
  }

  lemma {:induction false} NetRunKeeps(queue: seq<E.Sent>, ciphers: nat -> Aead, maxLen: nat, net: Net, acts: seq<Act>)
    requires AllAuthentic(queue, ciphers, acts) && Authentic(queue, ciphers, net.buf)
    requires NetRun(ciphers, maxLen, net, acts).Up?
    ensures Authentic(queue, ciphers, NetRun(ciphers, maxLen, net, acts).net.buf)
    decreases |acts|
  {
    hide NetStep, Authentic;
    if acts != [] {
      NetStepKeeps(queue, ciphers, maxLen, net, acts[0]);
      NetRunKeeps(queue, ciphers, maxLen, NetStep(ciphers, maxLen, net, acts[0]).net, acts[1..]);
    }
  }

  lemma NetStepKeeps(queue: seq<E.Sent>, ciphers: nat -> Aead, maxLen: nat, net: Net, a: Act)
    requires CanAct(a) && (a.Datagram? ==> Authentic(queue, ciphers, a.packet)) && Authentic(queue, ciphers, net.buf)
    requires NetStep(ciphers, maxLen, net, a).Up?
    ensures Authentic(queue, ciphers, NetStep(ciphers, maxLen, net, a).net.buf)
  {
    hide Opening, Authentic, Handle, E.Step;
    OpenedIsGenuine(queue, ciphers, net.rd, net.buf);
  }

  /** No record is opened twice, as long as the 16-bit epoch does not wrap. */
  lemma {:induction false} NetOpensOnce(ciphers: nat -> Aead, maxLen: nat, net: Net, acts: seq<Act>)
    requires (forall a | a in acts :: CanAct(a)) && NetRun(ciphers, maxLen, net, acts).Up?
    requires NoReplay(net.rd) && net.rd.epoch + EpochActs(acts) < 0x1_0000
    ensures NoReplay(NetRun(ciphers, maxLen, net, acts).net.rd)
    decreases |acts|
  {
    hide NetStep, NoReplay;
    if acts != [] {
      NetStepOpensOnce(ciphers, maxLen, net, acts[0]);
      NetOpensOnce(ciphers, maxLen, NetStep(ciphers, maxLen, net, acts[0]).net, acts[1..]);
    }
  }

  function EpochActs(acts: seq<Act>): nat {
    if acts == [] then 0 else (if acts[0] == Local(E.NewReadEpoch) then 1 else 0) + EpochActs(acts[1..])
  }

  lemma NetStepOpensOnce(ciphers: nat -> Aead, maxLen: nat, net: Net, a: Act)
    requires CanAct(a) && NetStep(ciphers, maxLen, net, a).Up? && NoReplay(net.rd)
    requires a == Local(E.NewReadEpoch) ==> net.rd.epoch + 1 < 0x1_0000
    ensures var rd' := NetStep(ciphers, maxLen, net, a).net.rd;
      NoReplay(rd') && rd'.epoch == net.rd.epoch + if a == Local(E.NewReadEpoch) then 1 else 0
  {
    hide Opening, Handle, E.Step, NoReplay, Accepts;
    if a == Local(E.NewReadEpoch) { ReadKeeps(net.rd, NewReadEpoch); }
    if a.OpenNext? { OpeningOpensOnce(ciphers(net.rd.epoch), net.rd, net.buf); }
  }

  lemma OpeningOpensOnce(aead: Aead, rd: Reading, input: seq<byte>)
    requires NoReplay(rd)
    ensures NoReplay(Opening(false, aead, rd, input).2) && Opening(false, aead, rd, input).2.epoch == rd.epoch
  {
    hide NoReplay, Accepts, Discarded, ParseRecord, VersionOk;
    var p := ParseRecord(input);
    if p.Some? { ReadKeeps(rd, OpenOp(aead, p.value.0)); }
  }
}
