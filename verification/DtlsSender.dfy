/** Sending a flight: cutting messages into records, records into packets, resuming after a failed
    write, and retransmitting. */
module DtlsSender {
  import opened Bits
  import opened Wrappers
  import opened Sequences
  import opened Transport
  import opened TlsWire
  import opened DtlsFragment
  import opened DtlsNumbers
  import opened DtlsRecord
  import opened DtlsReceiveSpec
  import opened DtlsFlight
  import opened DtlsSendSpec

  datatype SealResult = SealError | NoProgress | Partial | Success

  // ---------- accounting for a flight ----------

  /** Of message i, the bytes sent and the bytes given up are those before the position; a message without
      a body has been in one record once it is passed. */
  ghost predicate Accounted(msgs: seq<OutMsg>, sent: seq<Piece>, lost: seq<Piece>, pos: Pos, i: nat)
    requires i < |msgs|
  {
    && |Carried(msgs, sent, i)| + |Carried(msgs, lost, i)| == |SentBefore(msgs, pos, i)|
    && (BodyOf(msgs[i]) == [] ==> Records(sent, i) + Records(lost, i) == if i < pos.written then 1 else 0)
  }

  /** The pieces sent and given up since the flight was started or rewound account for the position. As
      long as nothing was given up, the pieces sent are the walk to it. */
  ghost predicate Accounts(msgs: seq<OutMsg>, sent: seq<Piece>, lost: seq<Piece>, pos: Pos) {
    && (forall p | p in sent || p in lost :: InMessage(msgs, p) && OneRecord(msgs, p))
    && (forall i | 0 <= i < |msgs| :: Accounted(msgs, sent, lost, pos, i))
    && (lost == [] ==> Walk(msgs, Pos(0, 0), sent) == Some(pos))
  }

  /** A piece without bytes is a whole message. */
  predicate OneRecord(msgs: seq<OutMsg>, p: Piece) {
    p.index < |msgs| && (p.Ccs? || p.len == 0 ==> BodyOf(msgs[p.index]) == [])
  }

  lemma StartAccounts(msgs: seq<OutMsg>)
    ensures Accounts(msgs, [], [], Pos(0, 0)) && InFlight(msgs, Pos(0, 0))
  {
  }

  lemma {:induction false} WalkPieces(msgs: seq<OutMsg>, pos: Pos, pieces: seq<Piece>)
    requires InFlight(msgs, pos) && Walk(msgs, pos, pieces).Some?
    ensures forall p | p in pieces :: InMessage(msgs, p) && OneRecord(msgs, p)
    decreases |pieces|
  {
    if pieces != [] {
      PieceInMessage(msgs, pos, pieces[0]);
      hide InMessage, OneRecord, Advance, InFlight;
      AdvanceLeft(msgs, pos, pieces[0]);
      WalkPieces(msgs, Advance(msgs, pos, pieces[0]).value, pieces[1..]);
      assert pieces == [pieces[0]] + pieces[1..];
    }
  }

  lemma PieceInMessage(msgs: seq<OutMsg>, pos: Pos, p: Piece)
    requires InFlight(msgs, pos) && Advance(msgs, pos, p).Some?
    ensures InMessage(msgs, p) && OneRecord(msgs, p)
  {
    hide WellFormed;
  }

  /** What a walk from the position adds to a message's account. */
  lemma WalkAdds(msgs: seq<OutMsg>, pos: Pos, pieces: seq<Piece>, i: nat)
    requires InFlight(msgs, pos) && Walk(msgs, pos, pieces).Some? && i < |msgs|
    ensures var end := Walk(msgs, pos, pieces).value;
      && |SentBefore(msgs, end, i)| == |SentBefore(msgs, pos, i)| + |Carried(msgs, pieces, i)|
      && (BodyOf(msgs[i]) == [] ==>
          Records(pieces, i) + (if i < pos.written then 1 else 0) == if i < end.written then 1 else 0)
  {
    hide Walk, Carried, Records, SentBefore, BodyOf;
    WalkCarries(msgs, pos, pieces, i);
    WalkRecords(msgs, pos, pieces, i);
  }

  /** Pieces were sent. */
  lemma SentAccounts(msgs: seq<OutMsg>, sent: seq<Piece>, lost: seq<Piece>, pos: Pos, pieces: seq<Piece>)
    requires InFlight(msgs, pos) && Accounts(msgs, sent, lost, pos) && Walk(msgs, pos, pieces).Some?
    ensures Accounts(msgs, sent + pieces, lost, Walk(msgs, pos, pieces).value)
  {
    hide Walk, Carried, Records, SentBefore, BodyOf, InMessage, OneRecord;
    var end := Walk(msgs, pos, pieces).value;
    WalkPieces(msgs, pos, pieces);
    forall i | 0 <= i < |msgs| ensures Accounted(msgs, sent + pieces, lost, end, i) {
      assert Accounted(msgs, sent, lost, pos, i);
      CarriedAppend(msgs, sent, pieces, i);
      WalkAdds(msgs, pos, pieces, i);
    }
    WalkAppend(msgs, Pos(0, 0), sent, pieces);
  }

  /** Pieces were given up. */
  lemma LostAccounts(msgs: seq<OutMsg>, sent: seq<Piece>, lost: seq<Piece>, pos: Pos, pieces: seq<Piece>)
    requires InFlight(msgs, pos) && Accounts(msgs, sent, lost, pos) && Walk(msgs, pos, pieces).Some?
    ensures Accounts(msgs, sent, lost + pieces, Walk(msgs, pos, pieces).value)
  {
    hide Walk, Carried, Records, SentBefore, BodyOf, InMessage, OneRecord;
    var end := Walk(msgs, pos, pieces).value;
    WalkPieces(msgs, pos, pieces);
    forall i | 0 <= i < |msgs| ensures Accounted(msgs, sent, lost + pieces, end, i) {
      assert Accounted(msgs, sent, lost, pos, i);
      CarriedAppend(msgs, lost, pieces, i);
      WalkAdds(msgs, pos, pieces, i);
    }
    NoPieces(msgs, pos);
    assert pieces == [] ==> lost + pieces == lost;
  }

  lemma NoPieces(msgs: seq<OutMsg>, pos: Pos)
    ensures Walk(msgs, pos, []) == Some(pos)
  {
  }

  lemma {:induction false} CarriedExtends(msgs: seq<OutMsg>, m: OutMsg, pieces: seq<Piece>, i: nat)
    requires i <= |msgs| && forall p | p in pieces :: p.index < |msgs|
    ensures Carried(msgs + [m], pieces, i) == if i < |msgs| then Carried(msgs, pieces, i) else []
    ensures i == |msgs| ==> Records(pieces, i) == 0
    decreases |pieces|
  {
    if pieces != [] { CarriedExtends(msgs, m, pieces[1..], i); }
  }

  lemma MessageAccounts(msgs: seq<OutMsg>, m: OutMsg, sent: seq<Piece>, lost: seq<Piece>, pos: Pos, i: nat)
    requires InFlight(msgs, pos) && i <= |msgs| && forall p | p in sent || p in lost :: p.index < |msgs|
    requires i < |msgs| ==> Accounted(msgs, sent, lost, pos, i)
    ensures Accounted(msgs + [m], sent, lost, pos, i)
  {
    hide Carried, Records, WellFormed;
    CarriedExtends(msgs, m, sent, i);
    CarriedExtends(msgs, m, lost, i);
  }

  /** A message was added. */
  lemma AddedAccounts(msgs: seq<OutMsg>, m: OutMsg, sent: seq<Piece>, lost: seq<Piece>, pos: Pos)
    requires InFlight(msgs, pos) && Accounts(msgs, sent, lost, pos)
    ensures InFlight(msgs + [m], pos) && Accounts(msgs + [m], sent, lost, pos)
  {
    hide Walk, Accounted, WellFormed;
    forall i | 0 <= i < |msgs + [m]| ensures Accounted(msgs + [m], sent, lost, pos, i) {
      MessageAccounts(msgs, m, sent, lost, pos, i);
    }
    WalkExtends(msgs, [m], Pos(0, 0), sent);
  }

  // ---------- the sender ----------

  /** The sending side of DTLS1_STATE. */
  class Sender {
    const writer: RecordWriter
    var outgoing: seq<OutMsg>
    var written: nat
    var offset: nat
    var complete: bool
    var writeSeq: nat
    /** Since the flight was started or rewound: the pieces in the packets the transport took, and those in
        packets that were given up. */
    ghost var sent: seq<Piece>
    ghost var lost: seq<Piece>

    ghost predicate Valid()
      reads this, writer, writer.writeSequence, writer.lastWriteSequence
    {
      writer.Valid() && InFlight(outgoing, Position()) && Accounts(outgoing, sent, lost, Position())
    }

    ghost function Position(): Pos
      reads `written, `offset
    {
      Pos(written, offset)
    }

    ghost function Keys(): WriteKeys
      reads writer`epoch, writer`aead, writer`lastAead
    {
      WriteKeys(writer.epoch, writer.aead, writer.lastAead)
    }

    /** What a call to send the flight does from here. */
    ghost function Flight(pos: Pos, mtu: nat, answers: seq<int>): Flown
      requires InFlight(outgoing, pos) && writer.numbers.epoch == writer.epoch
      reads `outgoing, writer`epoch, writer`aead, writer`lastAead, writer`numbers
    {
      Fly(outgoing, Keys(), writer.numbers, pos, mtu, answers)
    }

    /** Everything from the position on can be sealed. */
    ghost predicate HealthyFrom(pos: Pos, mtu: nat)
      requires InFlight(outgoing, pos)
      reads `outgoing, writer`epoch, writer`aead, writer`lastAead, writer`numbers
    {
      Healthy(outgoing, Keys(), writer.numbers, pos, mtu)
    }

    constructor (writer: RecordWriter)
      requires writer.Valid()
      ensures Valid() && this.writer == writer && outgoing == [] && sent == [] && lost == [] && !complete
        && writeSeq == 0
      ensures written == 0 && offset == 0
    {
      this.writer := writer;
      outgoing, written, offset, complete, writeSeq := [], 0, 0, false, 0;
      sent, lost := [], [];
    }

    /** The call of dtls_seal_record for the piece that comes next. */
    method SealPiece(typ: nat, plaintext: seq<byte>, previous: bool, maxOut: nat, ghost p: Piece)
      returns (ok: bool, record: Record)
      requires writer.Valid() && InFlight(outgoing, Position()) && written < |outgoing|
      requires Sendable(Keys(), outgoing[written]) && HasRoom(Keys(), outgoing[written], maxOut)
      requires previous == (outgoing[written].epoch != writer.epoch)
      requires InMessage(outgoing, p) && p == NextPiece(Keys(), outgoing, Position(), maxOut)
      requires typ == TypeOf(p) && plaintext == PieceBytes(outgoing, p)
      modifies writer`numbers, writer`ops, writer.writeSequence, writer.lastWriteSequence
      ensures writer.Valid() && old(writer.ops) <= writer.ops && old(writer.numbers).epoch == writer.epoch
      ensures SealNext(outgoing, Keys(), old(writer.numbers), Position(), maxOut) ==
        if ok then Seals(p, record, Advance(outgoing, Position(), p).value, writer.numbers) else Fails(writer.numbers)
    {
      hide PieceBytes, AttemptFor, DoAll, CanRun, Aead.Correct, Record.Bytes, Advance, WellFormed, BodyOf, AfterSeal,
        NumberOf, SealNext, NextPiece, InMessage, InFlight, HasRoom, Sendable, FromBigEndian;
      WriterEpoch(writer);
      PreviousEpoch(Keys(), outgoing[written]);
      ghost var n, keys := writer.numbers, Keys();
      ghost var attempt;
      ok, record, attempt := writer.SealRecord(typ, plaintext, previous, maxOut);
      SealNextIs(outgoing, keys, n, Position(), maxOut, p, plaintext);
    }

    /** seal_next_message: seals the message at the current position, or as much of it as fits. */
    method SealNextMessage(maxOut: nat) returns (res: SealResult, record: Record, ghost piece: Piece)
      requires writer.Valid() && InFlight(outgoing, Position()) && written < |outgoing|
      modifies `offset, writer`numbers, writer`ops, writer.writeSequence, writer.lastWriteSequence
      ensures writer.Valid() && old(writer.ops) <= writer.ops
      ensures match SealNext(outgoing, Keys(), old(writer.numbers), old(Position()), maxOut)
        case Fails(n) => res.SealError? && writer.numbers == n && offset == old(offset)
        case NoRoom => res.NoProgress? && writer.numbers == old(writer.numbers) && offset == old(offset)
        case Seals(p, r, next, n) =>
          && piece == p && record == r && writer.numbers == n && offset == next.offset
          && res == if next.written == written then Partial else Success
    {
      hide PieceBytes, AttemptFor, DoAll, ParseFragment, HeaderBytes, FromBigEndian, BigEndian, Pow2, CanRun,
        Aead.Correct, Record.Bytes, Advance, WellFormed, BodyOf, AfterSeal, NumberOf, SealNext, NextPiece, InMessage;
      WriterEpoch(writer);
      ghost var n := writer.numbers;
      SealNextNot(outgoing, Keys(), n, Position(), maxOut);
      piece := Ccs(written);
      record := Record(0, 0, 0, []);
      var msg := outgoing[written];
      var previous := false;
      if writer.epoch >= 1 && msg.epoch == writer.epoch - 1 {
        previous := true;
      } else if msg.epoch != writer.epoch {
        return SealError, record, piece;
      }
      NonceInOverhead(writer.WriteAead(previous)) by { WriterCiphers(writer); }
      var overhead := writer.MaxSealOverhead(previous);
      var prefix := writer.SealPrefixLen(previous);
      var ok;
      WellFormedMeans(msg);
      if msg.isCcs {
        if maxOut < 1 + overhead {
          return NoProgress, record, piece;
        }
        CcsNext(outgoing, Keys(), Position(), maxOut);
        ok, record := SealPiece(RT_CHANGE_CIPHER_SPEC, [1], previous, maxOut, piece);
        res := if ok then Success else SealError;
        return;
      }
      var parsed := ParseFragment(msg.data);
      if parsed.ParseError? || parsed.hdr.fragOff != 0 || parsed.hdr.fragLen != |parsed.body|
         || parsed.hdr.msgLen != |parsed.body| || offset > |parsed.body| || parsed.rest != [] {
        return SealError, record, piece;
      }
      if maxOut < HM_HEADER_LENGTH + 1 + overhead || maxOut < prefix {
        return NoProgress, record, piece;
      }
      var left := |parsed.body| - offset;
      var todo := if left > maxOut - HM_HEADER_LENGTH - overhead then maxOut - HM_HEADER_LENGTH - overhead else left;
      var frag := HeaderBytes(Header(parsed.hdr.typ, parsed.hdr.msgLen, parsed.hdr.seqNo, offset, todo))
                + parsed.body[offset..offset + todo];
      assert |frag| <= maxOut - prefix;      // the fixed-size builder never runs out
      piece := Part(written, offset, todo);
      PartNext(outgoing, Keys(), Position(), maxOut, todo, frag);
      ok, record := SealPiece(RT_HANDSHAKE, frag, previous, maxOut, piece);
      if !ok {
        return SealError, record, piece;
      }
      if todo == left {
        offset := 0;
        return Success, record, piece;
      }
      offset := offset + todo;
      return Partial, record, piece;
    }

    /** seal_next_packet: as much of the flight as fits a packet. When it fails, messages already put
        into the packet stay behind the position. */
    method SealNextPacket(mtu: nat) returns (ok: bool, packet: seq<Record>, ghost pieces: seq<Piece>)
      requires writer.Valid() && InFlight(outgoing, Position()) && written < |outgoing|
      modifies `written, `offset, writer`numbers, writer`ops, writer.writeSequence, writer.lastWriteSequence
      ensures writer.Valid() && old(writer.ops) <= writer.ops && old(writer.numbers).epoch == writer.epoch
      ensures var p := SealAll(outgoing, Keys(), old(writer.numbers), old(Position()), mtu);
        && pieces == p.pieces && packet == p.records && Position() == p.pos && writer.numbers == p.n
        && (ok <==> !p.failed && p.pieces != [])
    {
      hide RecordWriter.Valid, InFlight, SealNext, SealAll, Record.Bytes, Advance, Left, Carries, Prepend, Packed.After;
      WriterEpoch(writer);
      packet, pieces := [], [];
      var maxOut: nat := mtu;
      ghost var keys, all := Keys(), SealAll(outgoing, Keys(), writer.numbers, Position(), mtu);
      PrependNothing(all);
      while written < |outgoing|
        invariant writer.Valid() && old(writer.ops) <= writer.ops && InFlight(outgoing, Position())
        invariant Keys() == keys && writer.numbers.epoch == writer.epoch && |packet| == |pieces|
        invariant all == Prepend(pieces, packet, SealAll(outgoing, keys, writer.numbers, Position(), maxOut))
        decreases |outgoing| - written
      {
        ghost var n, pos := writer.numbers, Position();
        SealAllStep(outgoing, keys, n, pos, maxOut);
        var res, record;
        ghost var piece;
        res, record, piece := SealNextMessage(maxOut);
        if res == SealError {
          PrependStop(pieces, packet, Position(), writer.numbers, true);
          return false, packet, pieces;
        }
        if res == NoProgress {
          PrependStop(pieces, packet, Position(), writer.numbers, false);
          return packet != [], packet, pieces;
        }
        SealNextCarries(outgoing, keys, n, pos, maxOut);
        ghost var one := SealNext(outgoing, keys, n, pos, maxOut);
        PrependMore(pieces, packet, piece, record,
          if res == Partial then Packed([], [], one.pos, one.n, false)
          else SealAll(outgoing, keys, one.n, one.pos, maxOut - |record.Bytes()|));
        packet, pieces := packet + [record], pieces + [piece];
        maxOut := maxOut - |record.Bytes()|;
        if res == Partial {
          return true, packet, pieces;
        }
        written := written + 1;
      }
      NothingYet(outgoing, keys, Position());
      SealAllEnd(outgoing, keys, writer.numbers, Position(), maxOut);
      PrependStop(pieces, packet, Position(), writer.numbers, false);
      // An empty packet: the MTU was too small to make any progress.
      ok := packet != [];
    }

    /** send_flight, with the MTU in force for this call. */
    method SendFlight(bio: Bio<seq<Record>>, mtu: nat) returns (ret: int)
      requires Valid()
      modifies `written, `offset, `sent, `lost, writer`numbers, writer`ops, writer.writeSequence,
        writer.lastWriteSequence, bio
      ensures Valid() && old(writer.ops) <= writer.ops
      ensures var f := old(Flight(Position(), mtu, bio.answers));
        && ret == f.stop.Ret() && sent == old(sent) + f.sent && lost == old(lost) + f.gaveUp
        && Position() == f.pos && writer.numbers == f.n && bio.answers == f.answers
            && bio.out == old(bio.out) + f.packets
    {
      hide RecordWriter.Valid, InFlight, Accounts, SealAll, Fly, Left, Walk, Behind, CarriesAll, Size, HasRoom,
        Flown.After;
      WriterEpoch(writer);
      ghost var keys, f, before, taken := Keys(), Flight(Position(), mtu, bio.answers), sent, bio.out;
      BehindNothing(sent, bio.out, f);
      while written < |outgoing|
        invariant Valid() && old(writer.ops) <= writer.ops && Keys() == keys && writer.numbers.epoch == writer.epoch
        invariant lost == old(lost)
        invariant Behind(before, taken, f, sent, bio.out,
          Fly(outgoing, keys, writer.numbers, Position(), mtu, bio.answers))
        decreases Left(outgoing, Position())
      {
        ghost var n, start, answers := writer.numbers, Position(), bio.answers;
        FlyStep(outgoing, keys, n, start, mtu, answers);
        PacketMoves(outgoing, keys, n, start, mtu);
        var oldWritten, oldOffset := written, offset;
        var sealed, packet;
        ghost var pieces;
        sealed, packet, pieces := SealNextPacket(mtu);
        if !sealed {
          LostAccounts(outgoing, sent, lost, start, pieces);
          BehindEnds(before, taken, f, sent, bio.out, Fly(outgoing, keys, n, start, mtu, answers));
          lost := lost + pieces;
          return -1;
        }
        var answer := bio.WriteDatagram(packet);
        if answer <= 0 {
          // Retry this packet the next time around.
          written, offset := oldWritten, oldOffset;
          BehindEnds(before, taken, f, sent, bio.out, Fly(outgoing, keys, n, start, mtu, answers));
          return answer;
        }
        SentAccounts(outgoing, sent, lost, start, pieces);
        BehindMore(before, taken, f, sent, bio.out[..|bio.out| - 1], pieces, packet,
                   Fly(outgoing, keys, writer.numbers, Position(), mtu, bio.answers));
        sent := sent + pieces;
      }
      NothingYet(outgoing, keys, Position());
      FlyEnd(outgoing, keys, writer.numbers, Position(), mtu, bio.answers);
      BehindEnds(before, taken, f, sent, bio.out, Fly(outgoing, keys, writer.numbers, Position(), mtu, bio.answers));
      var flushed := bio.Answer();
      ret := if flushed <= 0 then -1 else 1;
    }

    /** add_outgoing. The first message of a new flight discards the previous flight. */
    method AddOutgoing(isCcs: bool, data: seq<byte>) returns (ok: bool)
      requires Valid() && |data| <= 0xffff_ffff
      modifies this
      ensures Valid()
      ensures var flight := if old(complete) then [] else old(outgoing);
        && ok == (|flight| < SSL_MAX_HANDSHAKE_FLIGHT)
        && outgoing == (if ok then flight + [OutMsg(data, writer.epoch, isCcs)] else flight)
      ensures !complete && writeSeq == if ok && !isCcs then (old(writeSeq) + 1) % 0x1_0000 else old(writeSeq)
      ensures if old(complete) then sent == [] && lost == [] && written == 0 && offset == 0
              else sent == old(sent) && lost == old(lost) && written == old(written) && offset == old(offset)
    {
      hide RecordWriter.Valid, Accounts, InFlight;
      if complete {
        outgoing, written, offset, complete := [], 0, 0, false;
        sent, lost := [], [];
        StartAccounts(outgoing);
      }
      if |outgoing| >= SSL_MAX_HANDSHAKE_FLIGHT {
        return false;
      }
      if !isCcs {
        writeSeq := (writeSeq + 1) % 0x1_0000;
      }
      AddedAccounts(outgoing, OutMsg(data, writer.epoch, isCcs), sent, lost, Position());
      outgoing := outgoing + [OutMsg(data, writer.epoch, isCcs)];
      return true;
    }

    /** dtls1_flush_flight */
    method FlushFlight(bio: Bio<seq<Record>>, mtu: nat) returns (ret: int)
      requires Valid()
      modifies this, writer`numbers, writer`ops, writer.writeSequence, writer.lastWriteSequence, bio
      ensures Valid() && complete && outgoing == old(outgoing) && writeSeq == old(writeSeq)
        && old(writer.ops) <= writer.ops
      ensures old(HealthyFrom(Position(), mtu)) ==> lost == old(lost)
      ensures var f := old(Flight(Position(), mtu, bio.answers));
        && ret == f.stop.Ret() && sent == old(sent) + f.sent && lost == old(lost) + f.gaveUp
        && Position() == f.pos && writer.numbers == f.n && bio.answers == f.answers
            && bio.out == old(bio.out) + f.packets
      ensures old(Drawn(Flatten(bio.out), writer.numbers.sealed)) ==> Drawn(Flatten(bio.out), writer.numbers.sealed)
    {
      hide RecordWriter.Valid, InFlight, Accounts, Fly, Healthy, Drawn, Flatten;
      WriterEpoch(writer);
      if Drawn(Flatten(bio.out), writer.numbers.sealed) {
        FlightNumbers(outgoing, Keys(), writer.numbers, Position(), mtu, bio.answers, bio.out);
      }
      if HealthyFrom(Position(), mtu) {
        HealthyGivesUpNothing(outgoing, Keys(), writer.numbers, Position(), mtu, bio.answers);
      }
      complete := true;
      ret := SendFlight(bio, mtu);
    }

    /** dtls1_retransmit_outgoing_messages: the whole flight again, from its start. */
    method Retransmit(bio: Bio<seq<Record>>, mtu: nat) returns (ret: int)
      requires Valid()
      modifies this, writer`numbers, writer`ops, writer.writeSequence, writer.lastWriteSequence, bio
      ensures Valid() && complete == old(complete) && outgoing == old(outgoing) && writeSeq == old(writeSeq)
      ensures old(writer.ops) <= writer.ops && (old(HealthyFrom(Pos(0, 0), mtu)) ==> lost == [])
      ensures var f := old(Flight(Pos(0, 0), mtu, bio.answers));
        && ret == f.stop.Ret() && sent == f.sent && lost == f.gaveUp
        && Position() == f.pos && writer.numbers == f.n && bio.answers == f.answers
            && bio.out == old(bio.out) + f.packets
      ensures old(Drawn(Flatten(bio.out), writer.numbers.sealed)) ==> Drawn(Flatten(bio.out), writer.numbers.sealed)
    {
      hide RecordWriter.Valid, InFlight, Accounts, Fly, Healthy, Drawn, Flatten;
      WriterEpoch(writer);
      StartAccounts(outgoing);
      if Drawn(Flatten(bio.out), writer.numbers.sealed) {
        FlightNumbers(outgoing, Keys(), writer.numbers, Pos(0, 0), mtu, bio.answers, bio.out);
      }
      if HealthyFrom(Pos(0, 0), mtu) {
        HealthyGivesUpNothing(outgoing, Keys(), writer.numbers, Pos(0, 0), mtu, bio.answers);
      }
      written, offset := 0, 0;
      sent, lost := [], [];
      ret := SendFlight(bio, mtu);
    }
  }

  /** What is left to seal, behind what has been sealed. */
  function Prepend(pieces: seq<Piece>, records: seq<Record>, p: Packed): Packed {
    p.(pieces := pieces + p.pieces, records := records + p.records)
  }

  lemma PrependNothing(p: Packed)
    ensures Prepend([], [], p) == p
  {
  }

  lemma PrependStop(pieces: seq<Piece>, records: seq<Record>, pos: Pos, n: Numbers, failed: bool)
    ensures Prepend(pieces, records, Packed([], [], pos, n, failed)) == Packed(pieces, records, pos, n, failed)
  {
  }

  lemma PrependMore(pieces: seq<Piece>, records: seq<Record>, p: Piece, r: Record, rest: Packed)
    ensures Prepend(pieces, records, rest.After(p, r)) == Prepend(pieces + [p], records + [r], rest)
    ensures rest.pieces == [] && rest.records == [] ==>
      rest.After(p, r) == Packed([p], [r], rest.pos, rest.n, rest.failed)
      && Prepend(pieces + [p], records + [r], rest)
          == Packed(pieces + [p], records + [r], rest.pos, rest.n, rest.failed)
  {
  }

  /** The whole call f, of which the pieces and packets behind the current ones have been dealt with. */
  ghost predicate Behind(before: seq<Piece>, taken: seq<seq<Record>>, f: Flown, sent: seq<Piece>,
      out: seq<seq<Record>>, rest: Flown) {
    && before <= sent && taken <= out
    && f == rest.(sent := sent[|before|..] + rest.sent, packets := out[|taken|..] + rest.packets)
  }

  lemma BehindNothing(sent: seq<Piece>, out: seq<seq<Record>>, f: Flown)
    ensures Behind(sent, out, f, sent, out, f)
  {
  }

  lemma BehindMore(before: seq<Piece>, taken: seq<seq<Record>>, f: Flown, sent: seq<Piece>, out: seq<seq<Record>>,
                   pieces: seq<Piece>, packet: seq<Record>, rest: Flown)
    requires Behind(before, taken, f, sent, out, rest.After(pieces, packet))
    ensures Behind(before, taken, f, sent + pieces, out + [packet], rest)
  {
    assert (sent + pieces)[|before|..] == sent[|before|..] + pieces;
    assert (out + [packet])[|taken|..] == out[|taken|..] + [packet];
    assert sent[|before|..] + (pieces + rest.sent) == (sent[|before|..] + pieces) + rest.sent;
    assert out[|taken|..] + ([packet] + rest.packets) == (out[|taken|..] + [packet]) + rest.packets;
  }

  lemma BehindEnds(before: seq<Piece>, taken: seq<seq<Record>>, f: Flown, sent: seq<Piece>, out: seq<seq<Record>>,
      rest: Flown)
    requires Behind(before, taken, f, sent, out, rest) && rest.sent == [] && rest.packets == []
    ensures f.stop == rest.stop && f.gaveUp == rest.gaveUp && f.pos == rest.pos && f.n == rest.n
      && f.answers == rest.answers
    ensures sent == before + f.sent && out == taken + f.packets
  {
    assert sent == before + sent[|before|..] && out == taken + out[|taken|..];
  }

  lemma WriterEpoch(w: RecordWriter)
    requires w.Valid()
    ensures w.numbers.epoch == w.epoch
  {
  }

  lemma PreviousEpoch(keys: WriteKeys, m: OutMsg)
    requires Sendable(keys, m)
    ensures m.epoch != keys.epoch ==> keys.epoch >= 1
  {
  }

  lemma WriterCiphers(w: RecordWriter)
    requires w.Valid()
    ensures w.aead.Correct() && w.lastAead.Correct()
  {
  }

  lemma NonceInOverhead(cipher: Aead)
    requires cipher.Correct()
    ensures cipher.explicitNonceLen <= cipher.maxOverhead
  {
  }

  lemma WellFormedMeans(m: OutMsg)
    ensures m.isCcs ==> WellFormed(m) && BodyOf(m) == []
    ensures !m.isCcs ==>
      var p := ParseFragment(m.data);
      && (WellFormed(m) <==> p.Parsed? && p.hdr.fragOff == 0 && p.hdr.msgLen == |p.body| && p.rest == [])
      && (!WellFormed(m) ==> BodyOf(m) == [])
      && (WellFormed(m) ==> BodyOf(m) == p.body && p.hdr.fragLen == |p.body|)
  {
    hide FromBigEndian;
  }

  lemma CcsNext(msgs: seq<OutMsg>, keys: WriteKeys, pos: Pos, maxOut: nat)
    requires InFlight(msgs, pos) && pos.written < |msgs| && msgs[pos.written].isCcs && Sendable(keys, msgs[pos.written])
    requires HasRoom(keys, msgs[pos.written], maxOut)
    ensures NextPiece(keys, msgs, pos, maxOut) == Ccs(pos.written) && InMessage(msgs, Ccs(pos.written))
    ensures PieceBytes(msgs, Ccs(pos.written)) == [1]
    ensures Advance(msgs, pos, Ccs(pos.written)) == Some(Pos(pos.written + 1, 0)) && pos.offset == 0
  {
    hide ParseFragment;
  }

  lemma PartNext(msgs: seq<OutMsg>, keys: WriteKeys, pos: Pos, maxOut: nat, todo: nat, frag: seq<byte>)
    requires InFlight(msgs, pos) && pos.written < |msgs| && !msgs[pos.written].isCcs
      && Sendable(keys, msgs[pos.written])
    requires HasRoom(keys, msgs[pos.written], maxOut)
    requires var room, left := BodyRoom(keys, msgs[pos.written], maxOut), |BodyOf(msgs[pos.written])| - pos.offset;
      todo == if left > room then room else left
    requires frag == HeaderBytes(HeaderOf(msgs[pos.written]).(fragOff := pos.offset, fragLen := todo))
                   + BodyOf(msgs[pos.written])[pos.offset..pos.offset + todo]
    ensures var p, end := Part(pos.written, pos.offset, todo), pos.offset + todo;
      && NextPiece(keys, msgs, pos, maxOut) == p && InMessage(msgs, p) && PieceBytes(msgs, p) == frag
      && Advance(msgs, pos, p) ==
           Some(if end == |BodyOf(msgs[pos.written])| then Pos(pos.written + 1, 0) else Pos(pos.written, end))
  {
    hide HeaderBytes, ParseFragment;
  }

  lemma SealNextNot(msgs: seq<OutMsg>, keys: WriteKeys, n: Numbers, pos: Pos, maxOut: nat)
    requires InFlight(msgs, pos) && pos.written < |msgs| && n.epoch == keys.epoch
    ensures !Sendable(keys, msgs[pos.written]) ==> SealNext(msgs, keys, n, pos, maxOut) == Fails(n)
    ensures Sendable(keys, msgs[pos.written]) && !HasRoom(keys, msgs[pos.written], maxOut) ==>
      SealNext(msgs, keys, n, pos, maxOut) == NoRoom
  {
  }

  /** The next seal, in terms of its piece and plaintext. */
  lemma SealNextIs(msgs: seq<OutMsg>, keys: WriteKeys, n: Numbers, pos: Pos, maxOut: nat, p: Piece,
      plaintext: seq<byte>)
    requires InFlight(msgs, pos) && pos.written < |msgs| && n.epoch == keys.epoch
    requires Sendable(keys, msgs[pos.written]) && HasRoom(keys, msgs[pos.written], maxOut)
    requires p == NextPiece(keys, msgs, pos, maxOut) && InMessage(msgs, p) && PieceBytes(msgs, p) == plaintext
    ensures var m := msgs[pos.written];
      var previous := m.epoch != keys.epoch;
      var number: nat := NumberOf(EpochOf(n, previous), Counter(n, previous));
      var a := AttemptFor(CipherOf(keys, m), TypeOf(p), keys.current.version, number, plaintext, maxOut);
      var sealed := CipherOf(keys, m).seal(TypeOf(p), keys.current.version, number, plaintext);
      && (a.Succeeds? ==> sealed.Some?)
      && SealNext(msgs, keys, n, pos, maxOut) ==
           if !a.Succeeds? || Counter(n, previous) + 1 >= COUNTER_LIMIT then Fails(AfterSeal(n, previous, a))
           else Seals(p, Record(TypeOf(p), keys.current.version, number, sealed.value), Advance(msgs, pos, p).value,
                      AfterSeal(n, previous, a))
  {
    hide NextPiece, PieceBytes, WellFormed;
  }

  // ---------- what a flight delivers ----------

  /** A message is delivered: its body once and in order, and in one record if it has none. */
  ghost predicate Delivered(msgs: seq<OutMsg>, sent: seq<Piece>, i: nat)
    requires i < |msgs|
  {
    && Carried(msgs, sent, i) == BodyOf(msgs[i]) && Records(sent, i) >= 1
    && (BodyOf(msgs[i]) == [] ==> Records(sent, i) == 1)
  }

  lemma {:induction false} CarriedHas(msgs: seq<OutMsg>, pieces: seq<Piece>, p: Piece)
    requires p in pieces && InMessage(msgs, p)
    ensures Records(pieces, p.index) >= 1
    ensures p.Part? ==> |Carried(msgs, pieces, p.index)| >= p.len
    decreases |pieces|
  {
    if pieces[0] != p {
      assert pieces == [pieces[0]] + pieces[1..];
      CarriedHas(msgs, pieces[1..], p);
    }
  }

  /** The message of a piece that was given up is not delivered. */
  lemma LostIsMissing(msgs: seq<OutMsg>, sent: seq<Piece>, lost: seq<Piece>, p: Piece)
    requires Accounts(msgs, sent, lost, Pos(|msgs|, 0)) && p in lost
    ensures InMessage(msgs, p) && !Delivered(msgs, sent, p.index)
  {
    hide WellFormed, Carried, Records, Walk;
    CarriedHas(msgs, lost, p);
    assert Accounted(msgs, sent, lost, Pos(|msgs|, 0), p.index);
  }

  /** Main theorem about a flight, for every pattern of failed and resumed writes, every MTU and every
      failure to seal: once it is through, every message has been delivered exactly when nothing was given
      up on the way. */
  lemma FlightSent(s: Sender)
    requires s.Valid() && s.written == |s.outgoing|
    ensures s.lost == [] <==> forall i | 0 <= i < |s.outgoing| :: Delivered(s.outgoing, s.sent, i)
  {
    hide Walk, BodyOf, Carried, Records, Accounted, Delivered;
    assert s.offset == 0;
    if s.lost == [] {
      forall i | 0 <= i < |s.outgoing| ensures Delivered(s.outgoing, s.sent, i) {
        DeliveredAll(s.outgoing, s.sent, i);
      }
    } else {
      LostIsMissing(s.outgoing, s.sent, s.lost, s.lost[0]);
    }
  }

  lemma DeliveredAll(msgs: seq<OutMsg>, sent: seq<Piece>, i: nat)
    requires i < |msgs| && Walk(msgs, Pos(0, 0), sent) == Some(Pos(|msgs|, 0))
    ensures Delivered(msgs, sent, i)
  {
    hide Walk, BodyOf, Carried, Records;
    FlightCarriesAll(msgs, sent, i);
    WalkRecords(msgs, Pos(0, 0), sent, i);
  }

  // ---------- a flight that ends incomplete ----------

  /** kMinMTU: what is left of 256 bytes behind the headers of IP and UDP. */
  const MIN_MTU: nat := 228

  /** A flight of a ChangeCipherSpec and a message of two bytes in the first epoch, with any cipher that seals
      everything up to the MTU and a counter that has one number left. */
  ghost predicate OneNumberLeft(msgs: seq<OutMsg>, keys: WriteKeys, n: Numbers, mtu: nat) {
    && |msgs| == 2 && msgs[0].isCcs && !msgs[1].isCcs && WellFormed(msgs[1]) && |BodyOf(msgs[1])| == 2
    && msgs[0].epoch == msgs[1].epoch == keys.epoch == n.epoch == 0
    && SealsUpTo(keys.current, mtu) && keys.current.maxOverhead <= 64 && mtu >= MIN_MTU
    && n.next == COUNTER_LIMIT - 2
  }

  /** The numbers after one more seal, and after the attempt that uses up the last one. */
  function OneMore(n: Numbers): Numbers { AfterSeal(n, false, Succeeds) }

  /** The ChangeCipherSpec takes the last number. */
  lemma LastNumberTaken(msgs: seq<OutMsg>, keys: WriteKeys, n: Numbers, mtu: nat) returns (r: Record)
    requires OneNumberLeft(msgs, keys, n, mtu)
    ensures SealNext(msgs, keys, n, Pos(0, 0), mtu) == Seals(Ccs(0), r, Pos(1, 0), OneMore(n))
    ensures |r.Bytes()| <= 78
  {
    hide WellFormed, SealNext, PieceBytes, NextPiece, BodyOf;
    assert WellFormed(msgs[0]) by { WellFormedMeans(msgs[0]); }
    CcsNext(msgs, keys, Pos(0, 0), mtu);
    SealNextIs(msgs, keys, n, Pos(0, 0), mtu, Ccs(0), [1]);
    SealBound(keys.current, RT_CHANGE_CIPHER_SPEC, keys.current.version, NumberOf(0, n.next), [1]);
    r := SealNext(msgs, keys, n, Pos(0, 0), mtu).record;
  }

  /** What sealing the message does: it succeeds, unless it would use up the last number. */
  lemma MessageSeals(msgs: seq<OutMsg>, keys: WriteKeys, n: Numbers, mtu: nat, at: Numbers, maxOut: nat)
    returns (r: Record)
    requires OneNumberLeft(msgs, keys, n, mtu) && at.epoch == 0 && at.next < COUNTER_LIMIT && mtu - 78 <= maxOut <= mtu
    ensures SealNext(msgs, keys, at, Pos(1, 0), maxOut) ==
      if at.next + 1 == COUNTER_LIMIT then Fails(OneMore(at)) else Seals(Part(1, 0, 2), r, Pos(2, 0), OneMore(at))
    ensures r.typ == RT_HANDSHAKE && |r.Bytes()| <= maxOut
  {
    hide WellFormed, SealNext, PieceBytes, NextPiece, HeaderBytes, BodyOf;
    r := Record(RT_HANDSHAKE, 0, 0, []);
    var frag := HeaderBytes(HeaderOf(msgs[1]).(fragOff := 0, fragLen := 2)) + BodyOf(msgs[1])[0..2];
    PartNext(msgs, keys, Pos(1, 0), maxOut, 2, frag);
    SealNextIs(msgs, keys, at, Pos(1, 0), maxOut, Part(1, 0, 2), frag);
    SealBound(keys.current, RT_HANDSHAKE, keys.current.version, NumberOf(0, at.next), frag);
    if at.next + 1 < COUNTER_LIMIT {
      r := SealNext(msgs, keys, at, Pos(1, 0), maxOut).record;
    }
  }

  lemma NumbersRunOut(n: Numbers)
    requires n.next == COUNTER_LIMIT - 2
    ensures OneMore(n).next == COUNTER_LIMIT - 1 && OneMore(n).epoch == n.epoch
    ensures OneMore(OneMore(n)).next == 0 && OneMore(OneMore(n)).epoch == n.epoch
  {
  }

  /** The first call fails: the counter runs over when the message is sealed, behind the ChangeCipherSpec. */
  lemma FirstCallFails(msgs: seq<OutMsg>, keys: WriteKeys, n: Numbers, mtu: nat, answers: seq<int>)
    requires OneNumberLeft(msgs, keys, n, mtu)
    ensures Fly(msgs, keys, n, Pos(0, 0), mtu, answers)
         == Flown(SealFailed, [], [], [Ccs(0)], Pos(1, 0), OneMore(OneMore(n)), answers)
  {
    hide SealNext, SealAll, Fly, WellFormed, BodyOf, Record.Bytes, OneMore;
    NumbersRunOut(n);
    var r := LastNumberTaken(msgs, keys, n, mtu);
    var unused := MessageSeals(msgs, keys, n, mtu, OneMore(n), mtu - |r.Bytes()|);
    SealAllStep(msgs, keys, n, Pos(0, 0), mtu);
    SealAllStep(msgs, keys, OneMore(n), Pos(1, 0), mtu - |r.Bytes()|);
    FlyStep(msgs, keys, n, Pos(0, 0), mtu, answers);
  }

  /** The second call sends the message alone, from the counter that is 0 again. */
  lemma SecondCallEnds(msgs: seq<OutMsg>, keys: WriteKeys, n: Numbers, mtu: nat) returns (r: Record)
    requires OneNumberLeft(msgs, keys, n, mtu)
    ensures r.typ == RT_HANDSHAKE
    ensures var f := Fly(msgs, keys, OneMore(OneMore(n)), Pos(1, 0), mtu, [1, 1]);
      && f.stop == Done && f.sent == [Part(1, 0, 2)] && f.packets == [[r]] && f.gaveUp == []
      && f.pos == Pos(2, 0) && f.answers == []
  {
    hide SealNext, SealAll, Fly, WellFormed, BodyOf, Record.Bytes, OneMore;
    NumbersRunOut(n);
    var at := OneMore(OneMore(n));
    r := MessageSeals(msgs, keys, n, mtu, at, mtu);
    SealAllStep(msgs, keys, at, Pos(1, 0), mtu);
    assert OneMore(at).epoch == 0 by { EpochStays(at); }
    SealAllEnd(msgs, keys, OneMore(at), Pos(2, 0), mtu - |r.Bytes()|);
    FlyStep(msgs, keys, at, Pos(1, 0), mtu, [1, 1]);
    FlyEnd(msgs, keys, OneMore(at), Pos(2, 0), mtu, [1]);
    assert [1, 1][1..] == [1] && [r] + [] == [r] && [[r]] + [] == [[r]] && [Part(1, 0, 2)] + [] == [Part(1, 0, 2)];
  }

  lemma EpochStays(n: Numbers)
    ensures OneMore(n).epoch == n.epoch
  {
  }

  lemma TwoBytesMessage()
    ensures var data := Finished(Unfinished(1, 0, [0, 0]));
      |data| == 14 && WellFormed(OutMsg(data, 0, false)) && |BodyOf(OutMsg(data, 0, false))| == 2
  {
    hide HeaderBytes, WellFormed, BodyOf;
    FinishedIsWellFormed(1, 0, [0, 0], 0);
  }

  /** Records sealed one after another, until the counter has one number left. */
  method UseNumbers(writer: RecordWriter, ghost mtu: nat)
    requires writer.Valid() && writer.numbers == START_NUMBERS && SealsUpTo(writer.aead, mtu)
    modifies writer`numbers, writer`ops, writer.writeSequence, writer.lastWriteSequence
    ensures writer.Valid() && writer.numbers.epoch == 0 && writer.numbers.next == COUNTER_LIMIT - 2
  {
    hide RecordWriter.Valid, Record.Bytes;
    WriterEpoch(writer);
    for i := 0 to COUNTER_LIMIT - 2
      invariant writer.Valid() && writer.numbers.epoch == writer.epoch == 0 && writer.numbers.next == i
    {
      var room := 14 + writer.aead.maxOverhead;
      SealBound(writer.aead, RT_HANDSHAKE, writer.aead.version, NumberOf(0, i), []);
      var ok, record, attempt := writer.SealRecord(RT_HANDSHAKE, [], false, room);
      WriterEpoch(writer);
    }
  }

  /** A sender with such a flight and such a counter. */
  method WornSender(cipher: Aead, mtu: nat) returns (s: Sender)
    requires SealsUpTo(cipher, mtu) && cipher.maxOverhead <= 64 && mtu >= MIN_MTU
    ensures fresh(s) && fresh(s.writer) && fresh(s.writer.writeSequence) && fresh(s.writer.lastWriteSequence)
    ensures s.Valid() && OneNumberLeft(s.outgoing, s.Keys(), s.writer.numbers, mtu)
    ensures s.Position() == Pos(0, 0) && s.sent == [] && s.lost == []
  {
    hide ParseFragment, WellFormed, BodyOf, Accounts, RecordWriter.Valid, Finished, Unfinished;
    var writer := new RecordWriter(cipher);
    UseNumbers(writer, mtu);
    WriterEpoch(writer);
    s := new Sender(writer);
    TwoBytesMessage();
    var ok := s.AddOutgoing(true, []);
    ok := s.AddOutgoing(false, Finished(Unfinished(1, 0, [0, 0])));
  }

  /** How a flight can end incomplete, with any cipher and any MTU. The first call puts the ChangeCipherSpec
      into a packet and then fails to seal the message behind it, because the counter runs over; the second
      call goes on behind the ChangeCipherSpec, with the counter at 0 again, and succeeds. The flight is
      through, and the transport, which refused nothing, never got the ChangeCipherSpec. */
  method LosesChangeCipherSpec(cipher: Aead, mtu: nat)
    returns (s: Sender, bio: Bio<seq<Record>>, first: int, second: int)
    requires SealsUpTo(cipher, mtu) && cipher.maxOverhead <= 64 && mtu >= MIN_MTU
    ensures fresh(s) && fresh(bio) && s.Valid() && first == -1 && second == 1 && bio.answers == []
    ensures |s.outgoing| == s.written == 2 && s.outgoing[0].isCcs && !Delivered(s.outgoing, s.sent, 0)
    ensures |bio.out| == 1 && |bio.out[0]| == 1 && bio.out[0][0].typ == RT_HANDSHAKE
  {
    hide ParseFragment, Fly, WellFormed, BodyOf, Accounts, RecordWriter.Valid, OneNumberLeft, Delivered, OneMore;
    s := WornSender(cipher, mtu);
    bio := new Bio([1, 1]);
    ghost var msgs, keys, n := s.outgoing, s.Keys(), s.writer.numbers;
    FirstCallFails(msgs, keys, n, mtu, [1, 1]);
    first := s.FlushFlight(bio, mtu);
    ghost var r := SecondCallEnds(msgs, keys, n, mtu);
    second := s.FlushFlight(bio, mtu);
    assert s.sent == [Part(1, 0, 2)];
    FirstIsLost(msgs, keys, n, mtu);
  }

  lemma FirstIsLost(msgs: seq<OutMsg>, keys: WriteKeys, n: Numbers, mtu: nat)
    requires OneNumberLeft(msgs, keys, n, mtu)
    ensures |msgs| == 2 && msgs[0].isCcs && !Delivered(msgs, [Part(1, 0, 2)], 0)
  {
    hide WellFormed, BodyOf;
  }
}
