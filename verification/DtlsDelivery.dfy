/** From a sender's flight, through its records and the network, to the receiver. */
module DtlsDelivery {
  import opened Bits
  import opened Wrappers
  import opened TlsWire
  import opened DtlsFragment
  import opened DtlsRecord
  import opened DtlsFlight
  import opened DtlsReceiveSpec
  import opened DtlsReplay
  import opened DtlsSendSpec
  import DtlsSender
  import E = DtlsEndToEnd

  /** Message i of the flight is what the sender queued under its sequence number. */
  predicate Queued(queue: seq<E.Sent>, flight: seq<OutMsg>, i: nat) {
    && i < |flight| && !flight[i].isCcs && WellFormed(flight[i])
    && var h := HeaderOf(flight[i]);
       h.seqNo < |queue| && queue[h.seqNo] == E.Sent(h.typ, BodyOf(flight[i]))
  }

  /** The arrival of the record that carries a piece. */
  function Arrival(flight: seq<OutMsg>, p: Piece): E.Event
    requires InMessage(flight, p) && p.Part?
  {
    E.Arrive(HeaderOf(flight[p.index]).seqNo, p.off, p.len)
  }

  /** The record made for a piece is received as the fragment of the queued message that it is. */
  lemma PieceArrives(queue: seq<E.Sent>, flight: seq<OutMsg>, p: Piece, st: RState, epoch: nat, maxLen: nat)
    requires InMessage(flight, p) && p.Part? && Queued(queue, flight, p.index)
    ensures var e := Arrival(flight, p);
      && E.FromSender(queue, e)
      && ReceiveRecord(st, epoch, maxLen, PieceBytes(flight, p))
          == ReceiveFragment(st, epoch, maxLen, E.FragmentHeader(queue, e), E.FragmentBytes(queue, e))
  {
    hide ParseFragment, HeaderBytes, ReceiveFragment;
    var h := HeaderOf(flight[p.index]);
    var body := BodyOf(flight[p.index])[p.off..p.off + p.len];
    ParsedFits(flight[p.index].data);
    FragmentRoundTrip(h.(fragOff := p.off, fragLen := p.len), body, []);
    assert PieceBytes(flight, p) + [] == PieceBytes(flight, p);
  }

  /** The record sealed for a piece, first in any packet, is handed out with the piece's plaintext by a
      reader that is in the message's epoch and has its cipher, if the version written suits that and the window
      does not discard the number. */
  lemma PieceIsOpened(flight: seq<OutMsg>, keys: WriteKeys, p: Piece, r: Record, rest: seq<byte>, rd: Reading)
    requires Carries(flight, keys, p, r) && r.Fits() && |r.body| <= RT_MAX_ENCRYPTED_LENGTH
    requires CipherOf(keys, flight[p.index]).Correct() && |PieceBytes(flight, p)| <= RT_MAX_PLAIN_LENGTH
    requires var cipher, v := CipherOf(keys, flight[p.index]), keys.current.version;
      if cipher.nullCipher then 0xFE00 <= v <= 0xFEFF else v == cipher.version
    requires flight[p.index].epoch == rd.epoch && !Discarded(rd, r.number)
    ensures var cipher := CipherOf(keys, flight[p.index]);
      Opening(false, cipher, rd, r.Bytes() + rest) ==
        (Opened(TypeOf(p), PieceBytes(flight, p)), |r.Bytes()|, Read(rd, OpenOp(cipher, r)))
  {
    hide PieceBytes, Opening, Discarded, Record.Bytes, Aead.Correct, WellFormed;
    var cipher := CipherOf(keys, flight[p.index]);
    assert TypeOf(p) != RT_ALERT;
    SealedOpens(cipher, TypeOf(p), keys.current.version, PieceBytes(flight, p), r, rest, rd);
  }

  predicate Holds(sys: E.System, q: nat, r: set<nat>) { q in sys.arrived && r <= sys.arrived[q] }

  lemma StepHolds(queue: seq<E.Sent>, maxLen: nat, sys: E.System, e: E.Event, q: nat, r: set<nat>)
    requires E.FromSender(queue, e) && E.Step(queue, maxLen, sys, e).Running?
    ensures var sys' := E.Step(queue, maxLen, sys, e).sys;
      && sys.St().readSeq <= sys'.St().readSeq
      && (Holds(sys, q, r) ==> Holds(sys', q, r))
      && (e.Arrive? && e.seqNo == q && InWindow(sys.St().readSeq, q) ==> Holds(sys', q, Range(e.off, e.off + e.len)))
  {
  }

  /** What has arrived stays, and an arrival for a message that is in the window until the end counts. */
  lemma {:induction false} RunHolds(queue: seq<E.Sent>, maxLen: nat, sys: E.System, events: seq<E.Event>, q: nat,
      r: set<nat>)
    requires (forall e | e in events :: E.FromSender(queue, e)) && E.Run(queue, maxLen, sys, events).Running?
    ensures var end := E.Run(queue, maxLen, sys, events).sys;
      && sys.St().readSeq <= end.St().readSeq
      && (Holds(sys, q, r) ==> Holds(end, q, r))
      && (q < sys.St().readSeq + SSL_MAX_HANDSHAKE_FLIGHT && end.St().readSeq <= q ==>
          forall e | e in events && e.Arrive? && e.seqNo == q :: Holds(end, q, Range(e.off, e.off + e.len)))
    decreases |events|
  {
    hide E.Step, Holds;
    if events != [] {
      var next := E.Step(queue, maxLen, sys, events[0]).sys;
      StepHolds(queue, maxLen, sys, events[0], q, r);
      RunHolds(queue, maxLen, next, events[1..], q, r);
      var end := E.Run(queue, maxLen, sys, events).sys;
      if q < sys.St().readSeq + SSL_MAX_HANDSHAKE_FLIGHT && end.St().readSeq <= q {
        forall e | e in events && e.Arrive? && e.seqNo == q ensures Holds(end, q, Range(e.off, e.off + e.len)) {
          if e == events[0] {
            StepHolds(queue, maxLen, sys, e, q, {});
            RunHolds(queue, maxLen, next, events[1..], q, Range(e.off, e.off + e.len));
          } else {
            assert e in events[1..];
          }
        }
      }
    }
  }

  /** Main theorem. However the sender cut its flight, once the records of a message have all arrived
      while it was in the receiver's window - in any order, among any other fragments, whatever else was
      lost or repeated - the message is ready when its turn comes. */
  lemma FlightArrives(queue: seq<E.Sent>, flight: seq<OutMsg>, pieces: seq<Piece>, i: nat, maxLen: nat,
                      sys: E.System, events: seq<E.Event>)
    requires Queued(queue, flight, i) && Walk(flight, Pos(0, 0), pieces) == Some(Pos(|flight|, 0))
    requires E.Invariant(queue, sys) && forall e | e in events :: E.FromSender(queue, e)
    requires forall p | p in pieces && p.Part? && p.index == i && InMessage(flight, p) :: Arrival(flight, p) in events
    requires E.Run(queue, maxLen, sys, events).Running?
    requires InWindow(sys.St().readSeq, HeaderOf(flight[i]).seqNo)
    requires E.Run(queue, maxLen, sys, events).sys.St().readSeq == HeaderOf(flight[i]).seqNo
    ensures Ready(E.Run(queue, maxLen, sys, events).sys.St())
  {
    hide E.Run, Walk, WellFormed, HeaderOf, BodyOf;
    var end, q, n := E.Run(queue, maxLen, sys, events).sys, HeaderOf(flight[i]).seqNo, |BodyOf(flight[i])|;
    E.RunKeeps(queue, maxLen, sys, events);
    RunHolds(queue, maxLen, sys, events, q, {});
    DtlsSender.WalkPieces(flight, Pos(0, 0), pieces);
    forall at: nat | at < n ensures q in end.arrived && at in end.arrived[q] {
      var k := WalkCovers(flight, Pos(0, 0), pieces, i, at);
      var e := Arrival(flight, pieces[k]);
      assert Holds(end, q, Range(e.off, e.off + e.len));
    }
    var first := WalkHas(flight, Pos(0, 0), pieces, i);
    var e := Arrival(flight, pieces[first]);
    assert Holds(end, q, Range(e.off, e.off + e.len));
    assert E.Faithful(queue, end, q);
    assert end.arrived[q] == Range(0, n);
  }

  /** Every message a walk passes has a piece, even an empty one. */
  lemma {:induction false} WalkHas(msgs: seq<OutMsg>, pos: Pos, pieces: seq<Piece>, i: nat) returns (k: nat)
    requires Walk(msgs, pos, pieces).Some? && pos.written <= i < Walk(msgs, pos, pieces).value.written
    ensures k < |pieces| && pieces[k].index == i
    decreases |pieces|
  {
    if pieces[0].index == i {
      k := 0;
    } else {
      k := WalkHas(msgs, Advance(msgs, pos, pieces[0]).value, pieces[1..], i);
      k := k + 1;
    }
  }
}
