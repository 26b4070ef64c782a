/** Sending a flight, as a function of the flight, the keys, the record numbers, the position and what the
    transport answers. */
module DtlsSendSpec {
  import opened Bits
  import opened Wrappers
  import opened Sequences
  import opened TlsWire
  import opened DtlsFragment
  import opened DtlsNumbers
  import opened DtlsReplay
  import opened DtlsRecord
  import opened DtlsFlight

  /** The write epoch and the ciphers of the two live epochs. */
  datatype WriteKeys = WriteKeys(epoch: nat, current: Aead, previous: Aead)

  /** The message belongs to one of the two live epochs and can be parsed. */
  predicate Sendable(keys: WriteKeys, m: OutMsg) {
    (m.epoch == keys.epoch || m.epoch == keys.epoch - 1) && WellFormed(m)
  }

  function CipherOf(keys: WriteKeys, m: OutMsg): Aead {
    if m.epoch == keys.epoch then keys.current else keys.previous
  }

  /** What a buffer leaves for the body of a fragment, which must be at least one byte. */
  function BodyRoom(keys: WriteKeys, m: OutMsg, maxOut: int): int {
    maxOut - HM_HEADER_LENGTH - DTLS1_RT_HEADER_LENGTH - CipherOf(keys, m).maxOverhead
  }

  predicate HasRoom(keys: WriteKeys, m: OutMsg, maxOut: int) {
    if m.isCcs then maxOut >= 1 + DTLS1_RT_HEADER_LENGTH + CipherOf(keys, m).maxOverhead
    else BodyRoom(keys, m, maxOut) >= 1
  }

  /** The piece that comes next: as much of the message as fits. */
  function NextPiece(keys: WriteKeys, msgs: seq<OutMsg>, pos: Pos, maxOut: int): (p: Piece)
    requires InFlight(msgs, pos) && pos.written < |msgs| && Sendable(keys, msgs[pos.written])
    requires HasRoom(keys, msgs[pos.written], maxOut)
    ensures Advance(msgs, pos, p).Some?
  {
    var m := msgs[pos.written];
    if m.isCcs then Ccs(pos.written)
    else
      var left, room := |BodyOf(m)| - pos.offset, BodyRoom(keys, m, maxOut);
      Part(pos.written, pos.offset, if left > room then room else left)
  }

  function TypeOf(p: Piece): nat { if p.Ccs? then RT_CHANGE_CIPHER_SPEC else RT_HANDSHAKE }

  // ---------- one record ----------

  datatype Sealing =
    | Fails(n: Numbers)
    | NoRoom
    | Seals(piece: Piece, record: Record, pos: Pos, n: Numbers)

  /** seal_next_message. Sealing fails for a stale or malformed message, and when the record layer does;
      that may use up a number. */
  function SealNext(msgs: seq<OutMsg>, keys: WriteKeys, n: Numbers, pos: Pos, maxOut: nat): (r: Sealing)
    requires InFlight(msgs, pos) && pos.written < |msgs| && n.epoch == keys.epoch
    ensures r.Seals? ==> Advance(msgs, pos, r.piece) == Some(r.pos)
  {
    var m := msgs[pos.written];
    if !Sendable(keys, m) then Fails(n)
    else if !HasRoom(keys, m, maxOut) then NoRoom
    else
      var p, previous := NextPiece(keys, msgs, pos, maxOut), m.epoch != keys.epoch;
      var number: nat := NumberOf(EpochOf(n, previous), Counter(n, previous));
      var a := AttemptFor(CipherOf(keys, m), TypeOf(p), keys.current.version, number, PieceBytes(msgs, p), maxOut);
      var next := AfterSeal(n, previous, a);
      if !a.Succeeds? || Counter(n, previous) + 1 >= COUNTER_LIMIT then Fails(next)
      else
        var body := CipherOf(keys, m).seal(TypeOf(p), keys.current.version, number, PieceBytes(msgs, p)).value;
        Seals(p, Record(TypeOf(p), keys.current.version, number, body), Advance(msgs, pos, p).value, next)
  }

  /** The record is the piece, sealed in the epoch of its message and under a number of that epoch. */
  predicate Carries(msgs: seq<OutMsg>, keys: WriteKeys, p: Piece, r: Record) {
    && InMessage(msgs, p) && Sendable(keys, msgs[p.index]) && EpochOfNumber(r.number) == msgs[p.index].epoch
    && r.typ == TypeOf(p) && r.version == keys.current.version
    && CipherOf(keys, msgs[p.index]).seal(r.typ, r.version, r.number, PieceBytes(msgs, p)) == Some(r.body)
  }

  lemma SealNextCarries(msgs: seq<OutMsg>, keys: WriteKeys, n: Numbers, pos: Pos, maxOut: nat)
    requires InFlight(msgs, pos) && pos.written < |msgs| && n.epoch == keys.epoch
    requires SealNext(msgs, keys, n, pos, maxOut).Seals?
    ensures var r := SealNext(msgs, keys, n, pos, maxOut);
      && Carries(msgs, keys, r.piece, r.record) && |r.record.Bytes()| <= maxOut
      && InFlight(msgs, r.pos) && pos.written <= r.pos.written <= pos.written + 1 && Left(msgs, r.pos) < Left(msgs, pos)
      && (r.pos.written == pos.written ==> r.pos.offset > 0) && r.n.epoch == n.epoch
  {
    hide NextPiece, PieceBytes, WellFormed;
    AdvanceLeft(msgs, pos, SealNext(msgs, keys, n, pos, maxOut).piece);
  }

  /** What stops a seal before the record layer: a message of an epoch that is not live, or malformed, is an
      error; and there must be room for the two headers, the cipher's overhead and one byte of the message. */
  lemma SealNextStops(msgs: seq<OutMsg>, keys: WriteKeys, n: Numbers, pos: Pos, maxOut: nat)
    requires InFlight(msgs, pos) && pos.written < |msgs| && n.epoch == keys.epoch
    ensures var r, m := SealNext(msgs, keys, n, pos, maxOut), msgs[pos.written];
      var live := (m.epoch == keys.epoch || m.epoch + 1 == keys.epoch) && WellFormed(m);
      var needed := (if m.isCcs then 13 + 1 else 13 + 12 + 1)
        + if m.epoch == keys.epoch then keys.current.maxOverhead else keys.previous.maxOverhead;
      && (!live ==> r == Fails(n)) && (r.NoRoom? <==> live && maxOut < needed)
  {
    hide NextPiece, PieceBytes, WellFormed, AttemptFor;
  }

  /** A message is cut only when the buffer is full. */
  lemma CutIsFull(msgs: seq<OutMsg>, keys: WriteKeys, n: Numbers, pos: Pos, maxOut: nat)
    requires InFlight(msgs, pos) && pos.written < |msgs| && n.epoch == keys.epoch
    requires SealNext(msgs, keys, n, pos, maxOut).Seals?
    ensures var r := SealNext(msgs, keys, n, pos, maxOut);
      var overhead := DTLS1_RT_HEADER_LENGTH + CipherOf(keys, msgs[pos.written]).maxOverhead;
      r.pos.written == pos.written ==>
        InMessage(msgs, r.piece) && |PieceBytes(msgs, r.piece)| + overhead == maxOut
  {
    hide HeaderBytes, WellFormed, AttemptFor;
  }

  // ---------- one packet ----------

  /** The pieces and records sealed, the position and numbers after them, and whether sealing then failed. */
  datatype Packed = Packed(pieces: seq<Piece>, records: seq<Record>, pos: Pos, n: Numbers, failed: bool) {
    function After(p: Piece, r: Record): Packed { this.(pieces := [p] + pieces, records := [r] + records) }
  }

  /** seal_next_packet: records until the flight ends, a message is cut, the next one has no room, or
      sealing fails. */
  function SealAll(msgs: seq<OutMsg>, keys: WriteKeys, n: Numbers, pos: Pos, maxOut: nat): (r: Packed)
    requires InFlight(msgs, pos) && n.epoch == keys.epoch
    ensures InFlight(msgs, r.pos) && r.n.epoch == keys.epoch && |r.pieces| == |r.records|
    decreases Left(msgs, pos)
  {
    if pos.written == |msgs| then Packed([], [], pos, n, false)
    else match SealNext(msgs, keys, n, pos, maxOut)
      case Fails(next) => Packed([], [], pos, next, true)
      case NoRoom => Packed([], [], pos, n, false)
      case Seals(p, r, next, n') =>
        SealNextCarries(msgs, keys, n, pos, maxOut);
        if next.written == pos.written then Packed([p], [r], next, n', false)
        else SealAll(msgs, keys, n', next, maxOut - |r.Bytes()|).After(p, r)
  }

  /** The number of bytes of a packet. */
  function Size(packet: seq<Record>): nat {
    if packet == [] then 0 else |packet[0].Bytes()| + Size(packet[1..])
  }

  predicate CarriesAll(msgs: seq<OutMsg>, keys: WriteKeys, pieces: seq<Piece>, records: seq<Record>) {
    |pieces| == |records| && forall k | 0 <= k < |pieces| :: Carries(msgs, keys, pieces[k], records[k])
  }

  lemma SealAllStep(msgs: seq<OutMsg>, keys: WriteKeys, n: Numbers, pos: Pos, maxOut: nat)
    requires InFlight(msgs, pos) && n.epoch == keys.epoch && pos.written < |msgs|
    ensures var one, all := SealNext(msgs, keys, n, pos, maxOut), SealAll(msgs, keys, n, pos, maxOut);
      && (one.Fails? ==> all == Packed([], [], pos, one.n, true))
      && (one.NoRoom? ==> all == Packed([], [], pos, n, false))
      && (one.Seals? ==>
          && InFlight(msgs, one.pos) && one.n.epoch == keys.epoch && |one.record.Bytes()| <= maxOut
          && all == if one.pos.written == pos.written then Packed([one.piece], [one.record], one.pos, one.n, false)
                    else
                      SealAll(msgs, keys, one.n, one.pos, maxOut - |one.record.Bytes()|).After(one.piece, one.record))
  {
    hide SealNext, Record.Bytes, InFlight, Left, Advance;
    if SealNext(msgs, keys, n, pos, maxOut).Seals? { SealNextCarries(msgs, keys, n, pos, maxOut); }
  }

  lemma SealAllEnd(msgs: seq<OutMsg>, keys: WriteKeys, n: Numbers, pos: Pos, maxOut: nat)
    requires InFlight(msgs, pos) && n.epoch == keys.epoch && pos.written == |msgs|
    ensures SealAll(msgs, keys, n, pos, maxOut) == Packed([], [], pos, n, false)
  {
  }

  lemma CarriesFirst(msgs: seq<OutMsg>, keys: WriteKeys, p: Piece, r: Record, pieces: seq<Piece>, records: seq<Record>)
    requires Carries(msgs, keys, p, r) && CarriesAll(msgs, keys, pieces, records)
    ensures CarriesAll(msgs, keys, [p] + pieces, [r] + records)
  {
    hide Carries;
  }

  lemma SizeFirst(r: Record, records: seq<Record>)
    ensures Size([]) == 0 && Size([r] + records) == |r.Bytes()| + Size(records)
  {
    assert ([r] + records)[1..] == records;
  }

  lemma WalkFirst(msgs: seq<OutMsg>, pos: Pos, p: Piece, pieces: seq<Piece>)
    requires Advance(msgs, pos, p).Some?
    ensures Walk(msgs, pos, [p] + pieces) == Walk(msgs, Advance(msgs, pos, p).value, pieces)
    ensures Walk(msgs, pos, []) == Some(pos)
  {
    hide Advance;
    assert ([p] + pieces)[1..] == pieces;
  }

  /** The records of a packet are consecutive pieces from the position to the new position and fit the
      buffer. A packet that could be sealed ends with the flight, with a message cut, or before a message
      that has no room in what is left. */
  lemma {:induction false} PacketIsNext(msgs: seq<OutMsg>, keys: WriteKeys, n: Numbers, pos: Pos, maxOut: nat)
    requires InFlight(msgs, pos) && n.epoch == keys.epoch
    ensures var r := SealAll(msgs, keys, n, pos, maxOut);
      && Walk(msgs, pos, r.pieces) == Some(r.pos) && CarriesAll(msgs, keys, r.pieces, r.records)
          && Size(r.records) <= maxOut
      && (!r.failed && r.pos.written < |msgs| && (r.pos.offset == 0 || r.pieces == []) ==>
          !HasRoom(keys, msgs[r.pos.written], maxOut - Size(r.records)))
    decreases Left(msgs, pos)
  {
    hide SealAll, SealNext, Walk, Advance, Carries, CarriesAll, Size, Left, InFlight, HasRoom, Record.Bytes;
    var r := SealAll(msgs, keys, n, pos, maxOut);
    NothingYet(msgs, keys, pos);
    if pos.written == |msgs| {
      SealAllEnd(msgs, keys, n, pos, maxOut);
    } else {
      SealAllStep(msgs, keys, n, pos, maxOut);
      var one := SealNext(msgs, keys, n, pos, maxOut);
      if one.NoRoom? { NoRoomMeans(msgs, keys, n, pos, maxOut); }
      if one.Seals? {
        SealNextCarries(msgs, keys, n, pos, maxOut);
        WalkFirst(msgs, pos, one.piece, r.pieces[1..]);
        SizeFirst(one.record, r.records[1..]);
        if one.pos.written == pos.written {
          NothingYet(msgs, keys, one.pos);
          CarriesFirst(msgs, keys, one.piece, one.record, [], []);
          assert [one.piece] + [] == [one.piece] && [one.record] + [] == [one.record];
        } else {
          var rest := SealAll(msgs, keys, one.n, one.pos, maxOut - |one.record.Bytes()|);
          PacketIsNext(msgs, keys, one.n, one.pos, maxOut - |one.record.Bytes()|);
          CarriesFirst(msgs, keys, one.piece, one.record, rest.pieces, rest.records);
          NextIsFresh(msgs, pos, one.piece);
          assert r.pieces[1..] == rest.pieces && r.records[1..] == rest.records;
        }
      }
    }
  }

  lemma NothingYet(msgs: seq<OutMsg>, keys: WriteKeys, pos: Pos)
    requires InFlight(msgs, pos)
    ensures Walk(msgs, pos, []) == Some(pos) && CarriesAll(msgs, keys, [], []) && Size([]) == 0 && pos.written <= |msgs|
  {
  }

  lemma NoRoomMeans(msgs: seq<OutMsg>, keys: WriteKeys, n: Numbers, pos: Pos, maxOut: nat)
    requires InFlight(msgs, pos) && n.epoch == keys.epoch && pos.written < |msgs|
    requires SealNext(msgs, keys, n, pos, maxOut).NoRoom?
    ensures Sendable(keys, msgs[pos.written]) && !HasRoom(keys, msgs[pos.written], maxOut)
  {
  }

  lemma NextIsFresh(msgs: seq<OutMsg>, pos: Pos, p: Piece)
    requires Advance(msgs, pos, p).Some? && Advance(msgs, pos, p).value.written != pos.written
    ensures Advance(msgs, pos, p).value.offset == 0
  {
  }

  // ---------- a flight ----------

  /** How a call ends: all was written and flushed; the transport refused a packet or the flush; sealing
      failed; or even an empty packet had no room for the next message. */
  datatype Stop = Done | Refused(answer: int) | FlushRefused | SealFailed | TooSmall {
    function Ret(): int {
      match this
      case Done => 1
      case Refused(answer) => answer
      case FlushRefused | SealFailed | TooSmall => -1
    }
  }

  /** What a call does: the pieces and packets the transport took, the pieces sealed into a packet that was
      then given up, the position and numbers it leaves, and the answers not yet given. */
  datatype Flown = Flown(stop: Stop, sent: seq<Piece>, packets: seq<seq<Record>>, gaveUp: seq<Piece>,
                         pos: Pos, n: Numbers, answers: seq<int>)
  {
    function After(pieces: seq<Piece>, packet: seq<Record>): Flown {
      this.(sent := pieces + sent, packets := [packet] + packets)
    }
  }

  /** The next answer of the transport; one that has no more to say refuses. */
  function NextAnswer(answers: seq<int>): int { if answers == [] then -1 else answers[0] }

  function OtherAnswers(answers: seq<int>): seq<int> { if answers == [] then [] else answers[1..] }

  /** send_flight. A refused packet is taken back, to be sealed again by the next call; a packet that
      could not be completed is not. */
  function Fly(msgs: seq<OutMsg>, keys: WriteKeys, n: Numbers, pos: Pos, mtu: nat, answers: seq<int>): (r: Flown)
    requires InFlight(msgs, pos) && n.epoch == keys.epoch
    ensures InFlight(msgs, r.pos) && r.n.epoch == keys.epoch
    decreases Left(msgs, pos)
  {
    var answer, others := NextAnswer(answers), OtherAnswers(answers);
    if pos.written == |msgs| then Flown(if answer > 0 then Done else FlushRefused, [], [], [], pos, n, others)
    else
      var p := SealAll(msgs, keys, n, pos, mtu);
      if p.failed || p.pieces == [] then
        Flown(if p.failed then SealFailed else TooSmall, [], [], p.pieces, p.pos, p.n, answers)
      else if answer <= 0 then Flown(Refused(answer), [], [], [], pos, p.n, others)
      else
        PacketMoves(msgs, keys, n, pos, mtu);
        Fly(msgs, keys, p.n, p.pos, mtu, others).After(p.pieces, p.records)
  }

  lemma PacketMoves(msgs: seq<OutMsg>, keys: WriteKeys, n: Numbers, pos: Pos, mtu: nat)
    requires InFlight(msgs, pos) && n.epoch == keys.epoch
    ensures var p := SealAll(msgs, keys, n, pos, mtu);
      Walk(msgs, pos, p.pieces) == Some(p.pos) && Left(msgs, p.pos) + |p.pieces| <= Left(msgs, pos)
  {
    hide SealAll;
    PacketIsNext(msgs, keys, n, pos, mtu);
    WalkLeft(msgs, pos, SealAll(msgs, keys, n, pos, mtu).pieces);
  }

  lemma FlyStep(msgs: seq<OutMsg>, keys: WriteKeys, n: Numbers, pos: Pos, mtu: nat, answers: seq<int>)
    requires InFlight(msgs, pos) && n.epoch == keys.epoch && pos.written < |msgs|
    ensures var p, all := SealAll(msgs, keys, n, pos, mtu), Fly(msgs, keys, n, pos, mtu, answers);
      var answer, others := NextAnswer(answers), OtherAnswers(answers);
      all == if p.failed || p.pieces == [] then
               Flown(if p.failed then SealFailed else TooSmall, [], [], p.pieces, p.pos, p.n, answers)
             else if answer <= 0 then Flown(Refused(answer), [], [], [], pos, p.n, others)
             else Fly(msgs, keys, p.n, p.pos, mtu, others).After(p.pieces, p.records)
  {
    hide SealAll, InFlight, NextAnswer, OtherAnswers;
  }

  lemma FlyEnd(msgs: seq<OutMsg>, keys: WriteKeys, n: Numbers, pos: Pos, mtu: nat, answers: seq<int>)
    requires InFlight(msgs, pos) && n.epoch == keys.epoch && pos.written == |msgs|
    ensures Fly(msgs, keys, n, pos, mtu, answers) ==
      Flown(if NextAnswer(answers) > 0 then Done else FlushRefused, [], [], [], pos, n, OtherAnswers(answers))
  {
    hide SealAll;
  }

  /** The packets carry the pieces sent, one record each and in order, and none is larger than the MTU. */
  predicate Delivers(msgs: seq<OutMsg>, keys: WriteKeys, mtu: nat, pieces: seq<Piece>, packets: seq<seq<Record>>) {
    CarriesAll(msgs, keys, pieces, Flatten(packets)) && forall k | 0 <= k < |packets| :: Size(packets[k]) <= mtu
  }

  lemma DeliversFirst(msgs: seq<OutMsg>, keys: WriteKeys, mtu: nat, a: seq<Piece>, packet: seq<Record>,
                      pieces: seq<Piece>, packets: seq<seq<Record>>)
    requires CarriesAll(msgs, keys, a, packet) && Size(packet) <= mtu && Delivers(msgs, keys, mtu, pieces, packets)
    ensures Delivers(msgs, keys, mtu, a + pieces, [packet] + packets)
  {
    hide Carries, Size, Flatten;
    FlattenFirst(packet, packets);
  }

  lemma DeliversNothing(msgs: seq<OutMsg>, keys: WriteKeys, mtu: nat)
    ensures Delivers(msgs, keys, mtu, [], [])
  {
  }

  /** Whatever the transport answers, the records of the packets it took are the pieces from the position
      on, each once and in order; pieces given up lie between those and the position the call leaves. */
  lemma {:induction false} FlightIsNext(msgs: seq<OutMsg>, keys: WriteKeys, n: Numbers, pos: Pos, mtu: nat,
      answers: seq<int>)
    requires InFlight(msgs, pos) && n.epoch == keys.epoch
    ensures var r := Fly(msgs, keys, n, pos, mtu, answers);
      && Delivers(msgs, keys, mtu, r.sent, r.packets)
      && Walk(msgs, pos, r.sent).Some? && Walk(msgs, Walk(msgs, pos, r.sent).value, r.gaveUp) == Some(r.pos)
      && (r.gaveUp != [] <==> Walk(msgs, pos, r.sent) != Some(r.pos)) && (r.gaveUp != [] ==> r.stop.SealFailed?)
      && (r.stop.Done? ==> r.pos == Pos(|msgs|, 0))
    decreases Left(msgs, pos)
  {
    hide Fly, SealAll, Walk, Advance, CarriesAll, Delivers, Size, Left, HasRoom;
    NothingYet(msgs, keys, pos);
    DeliversNothing(msgs, keys, mtu);
    if pos.written == |msgs| {
      FlyEnd(msgs, keys, n, pos, mtu, answers);
    } else {
      FlyStep(msgs, keys, n, pos, mtu, answers);
      PacketIsNext(msgs, keys, n, pos, mtu);
      var p := SealAll(msgs, keys, n, pos, mtu);
      if p.pieces != [] { WalkProgress(msgs, pos, p.pieces); }
      if !p.failed && p.pieces != [] && NextAnswer(answers) > 0 {
        var rest := Fly(msgs, keys, p.n, p.pos, mtu, OtherAnswers(answers));
        PacketMoves(msgs, keys, n, pos, mtu);
        FlightIsNext(msgs, keys, p.n, p.pos, mtu, OtherAnswers(answers));
        DeliversFirst(msgs, keys, mtu, p.pieces, p.records, rest.sent, rest.packets);
        WalkAppend(msgs, pos, p.pieces, rest.sent);
      }
    }
  }

  /** The answers used are the first ones, and all but the last were acceptances; the last one was too
      unless the call ended with a refusal. */
  ghost predicate Used(answers: seq<int>, r: Flown) {
    && |r.answers| <= |answers| && r.answers == answers[|answers| - |r.answers|..]
    && var used := answers[..|answers| - |r.answers|];
       if r.stop.Refused? || r.stop.FlushRefused? then
         if used == [] || used[|used| - 1] > 0 then
           r.answers == [] && r.stop.Ret() == -1 && forall k | 0 <= k < |used| :: used[k] > 0
         else
           (forall k | 0 <= k < |used| - 1 :: used[k] > 0) && (r.stop.Refused? ==> r.stop.answer == used[|used| - 1])
       else forall k | 0 <= k < |used| :: used[k] > 0
  }

  lemma UsedMore(answers: seq<int>, r: Flown, pieces: seq<Piece>, packet: seq<Record>)
    requires NextAnswer(answers) > 0 && Used(OtherAnswers(answers), r)
    ensures Used(answers, r.After(pieces, packet))
  {
    var others := answers[1..];
    var n := |others| - |r.answers|;
    assert answers[..n + 1] == [answers[0]] + others[..n] && answers[n + 1..] == others[n..];
  }

  /** What the result says: success only if the transport accepted everything and the end was reached; a
      refusal is the transport's; and an MTU is too small only if the next message has no room in it. */
  lemma {:induction false} FlightResult(msgs: seq<OutMsg>, keys: WriteKeys, n: Numbers, pos: Pos, mtu: nat,
      answers: seq<int>)
    requires InFlight(msgs, pos) && n.epoch == keys.epoch
    ensures var r := Fly(msgs, keys, n, pos, mtu, answers);
      && Used(answers, r) && (r.stop.Refused? ==> r.stop.answer <= 0)
      && r.stop.Ret() == (if r.stop.Refused? then r.stop.answer else if r.stop.Done? then 1 else -1)
      && (r.stop.Done? ==> |r.answers| < |answers| && r.pos == Pos(|msgs|, 0))
      && (r.stop.TooSmall? ==> r.pos.written < |msgs| && !HasRoom(keys, msgs[r.pos.written], mtu))
    decreases Left(msgs, pos)
  {
    hide Fly, SealAll, Left, HasRoom, Walk, CarriesAll, Used;
    NothingYet(msgs, keys, pos);
    UsedFirst(answers);
    if pos.written == |msgs| {
      FlyEnd(msgs, keys, n, pos, mtu, answers);
    } else {
      FlyStep(msgs, keys, n, pos, mtu, answers);
      PacketIsNext(msgs, keys, n, pos, mtu);
      var p := SealAll(msgs, keys, n, pos, mtu);
      if !p.failed && p.pieces != [] && NextAnswer(answers) > 0 {
        PacketMoves(msgs, keys, n, pos, mtu);
        FlightResult(msgs, keys, p.n, p.pos, mtu, OtherAnswers(answers));
        UsedMore(answers, Fly(msgs, keys, p.n, p.pos, mtu, OtherAnswers(answers)), p.pieces, p.records);
      }
    }
  }

  lemma UsedFirst(answers: seq<int>)
    ensures forall r: Flown | r.answers == answers && (r.stop.SealFailed? || r.stop.TooSmall?) :: Used(answers, r)
    ensures var answer, others := NextAnswer(answers), OtherAnswers(answers);
      && (answer > 0 ==>
          && |others| < |answers|
          && forall r: Flown | r.answers == others && r.stop.Done? :: Used(answers, r))
      && (answer <= 0 ==>
          forall r: Flown | r.answers == others && (r.stop.FlushRefused? || r.stop == Refused(answer)) ::
            Used(answers, r))
  {
    assert answers[0..] == answers && answers[..0] == [];
    if answers != [] { assert answers[..1] == [answers[0]]; }
  }

  // ---------- when something is given up, and when not ----------

  /** The seal that made a packet fail, with the numbers and the room it met: it was the first of its
      packet exactly when no piece was sealed before. */
  lemma {:induction false} FailedSeal(msgs: seq<OutMsg>, keys: WriteKeys, n: Numbers, pos: Pos, maxOut: nat)
    returns (at: Numbers, room: nat)
    requires InFlight(msgs, pos) && n.epoch == keys.epoch && SealAll(msgs, keys, n, pos, maxOut).failed
    ensures var r := SealAll(msgs, keys, n, pos, maxOut);
      && r.pos.written < |msgs| && at.epoch == keys.epoch && room <= maxOut
      && SealNext(msgs, keys, at, r.pos, room) == Fails(r.n) && (r.pieces == [] <==> room == maxOut)
    decreases Left(msgs, pos)
  {
    hide SealAll, SealNext, Left, InFlight;
    NothingYet(msgs, keys, pos);
    if pos.written == |msgs| { SealAllEnd(msgs, keys, n, pos, maxOut); }
    SealAllStep(msgs, keys, n, pos, maxOut);
    var one := SealNext(msgs, keys, n, pos, maxOut);
    if one.Fails? {
      at, room := n, maxOut;
    } else {
      SealNextCarries(msgs, keys, n, pos, maxOut);
      at, room := FailedSeal(msgs, keys, one.n, one.pos, maxOut - |one.record.Bytes()|);
    }
  }

  /** Exactly when a call gives something up: sealing failed, and not at the first record of a packet. */
  lemma {:induction false} GivesUpExactly(msgs: seq<OutMsg>, keys: WriteKeys, n: Numbers, pos: Pos, mtu: nat,
      answers: seq<int>)
    returns (at: Numbers, room: nat)
    requires InFlight(msgs, pos) && n.epoch == keys.epoch
    ensures var r := Fly(msgs, keys, n, pos, mtu, answers);
      && (r.gaveUp != [] <==> r.stop.SealFailed? && room < mtu)
      && (r.stop.SealFailed? ==>
          && r.pos.written < |msgs| && at.epoch == keys.epoch && room <= mtu
          && SealNext(msgs, keys, at, r.pos, room) == Fails(r.n))
    decreases Left(msgs, pos)
  {
    hide Fly, SealAll, SealNext, Left;
    at, room := n, mtu;
    if pos.written == |msgs| {
      FlyEnd(msgs, keys, n, pos, mtu, answers);
    } else {
      FlyStep(msgs, keys, n, pos, mtu, answers);
      var p := SealAll(msgs, keys, n, pos, mtu);
      if p.failed {
        at, room := FailedSeal(msgs, keys, n, pos, mtu);
      } else if p.pieces != [] && NextAnswer(answers) > 0 {
        PacketMoves(msgs, keys, n, pos, mtu);
        at, room := GivesUpExactly(msgs, keys, p.n, p.pos, mtu, OtherAnswers(answers));
      }
    }
  }

  /** The cipher seals every plaintext up to this size, to something a length field can hold. */
  ghost predicate SealsUpTo(cipher: Aead, size: nat) {
    cipher.Correct() && forall t, v, n, p ::
      |p| <= size ==> cipher.seal(t, v, n, p).Some? && |cipher.seal(t, v, n, p).value| < 0x1_0000
  }

  /** What a caller can check before the call: the ciphers seal, and both counters have room for the
      messages and body bytes left. */
  ghost predicate Able(msgs: seq<OutMsg>, keys: WriteKeys, n: Numbers, pos: Pos, mtu: nat)
    requires InFlight(msgs, pos)
  {
    && n.epoch == keys.epoch && SealsUpTo(keys.current, mtu) && SealsUpTo(keys.previous, mtu)
    && n.next + Left(msgs, pos) < COUNTER_LIMIT && n.last + Left(msgs, pos) < COUNTER_LIMIT
  }

  /** Every message from the position on can be sent, too. */
  ghost predicate Healthy(msgs: seq<OutMsg>, keys: WriteKeys, n: Numbers, pos: Pos, mtu: nat)
    requires InFlight(msgs, pos)
  {
    Able(msgs, keys, n, pos, mtu) && forall i | pos.written <= i < |msgs| :: Sendable(keys, msgs[i])
  }

  lemma AbleSeals(msgs: seq<OutMsg>, keys: WriteKeys, n: Numbers, pos: Pos, mtu: nat, maxOut: nat)
    requires InFlight(msgs, pos) && pos.written < |msgs| && Able(msgs, keys, n, pos, mtu) && maxOut <= mtu
    ensures var r := SealNext(msgs, keys, n, pos, maxOut);
      && n.epoch == keys.epoch && (r.Fails? ==> r.n == n) && (r.Fails? <==> !Sendable(keys, msgs[pos.written]))
      && (r.Seals? ==> InFlight(msgs, r.pos) && Able(msgs, keys, r.n, r.pos, mtu))
  {
    hide WellFormed;
    var m, r := msgs[pos.written], SealNext(msgs, keys, n, pos, maxOut);
    if Sendable(keys, m) && HasRoom(keys, m, maxOut) {
      var p := NextPiece(keys, msgs, pos, maxOut);
      PieceFits(msgs, keys, pos, maxOut);
      var cipher := CipherOf(keys, m);
      assert |PieceBytes(msgs, p)| + DTLS1_RT_HEADER_LENGTH + cipher.maxOverhead <= maxOut;
      var number: nat := NumberOf(EpochOf(n, m.epoch != keys.epoch), Counter(n, m.epoch != keys.epoch));
      SealBound(cipher, TypeOf(p), keys.current.version, number, PieceBytes(msgs, p));
      AdvanceLeft(msgs, pos, p);
    }
  }

  lemma PieceFits(msgs: seq<OutMsg>, keys: WriteKeys, pos: Pos, maxOut: int)
    requires InFlight(msgs, pos) && pos.written < |msgs| && Sendable(keys, msgs[pos.written])
    requires HasRoom(keys, msgs[pos.written], maxOut)
    ensures var p := NextPiece(keys, msgs, pos, maxOut);
      InMessage(msgs, p)
      && |PieceBytes(msgs, p)| + DTLS1_RT_HEADER_LENGTH + CipherOf(keys, msgs[pos.written]).maxOverhead <= maxOut
  {
    hide HeaderBytes, WellFormed;
  }

  /** All messages between two positions can be sent. */
  predicate AllSendable(msgs: seq<OutMsg>, keys: WriteKeys, from: nat, to: nat) {
    forall i | from <= i < to && i < |msgs| :: Sendable(keys, msgs[i])
  }

  /** The message at the position can be sent, but a later one cannot. */
  predicate LaterIsStuck(msgs: seq<OutMsg>, keys: WriteKeys, pos: Pos) {
    && pos.written < |msgs| && Sendable(keys, msgs[pos.written])
    && exists i | pos.written < i < |msgs| :: !Sendable(keys, msgs[i])
  }

  /** With such ciphers and counters a packet gets up to a message that cannot be sent, or ends at one that can. */
  lemma {:induction false} AblePacket(msgs: seq<OutMsg>, keys: WriteKeys, n: Numbers, pos: Pos, mtu: nat, maxOut: nat)
    requires InFlight(msgs, pos) && Able(msgs, keys, n, pos, mtu) && maxOut <= mtu
    ensures n.epoch == keys.epoch
    ensures var r := SealAll(msgs, keys, n, pos, maxOut);
      && Able(msgs, keys, r.n, r.pos, mtu) && pos.written <= r.pos.written
      && AllSendable(msgs, keys, pos.written, if r.failed then r.pos.written else r.pos.written + 1)
      && (r.failed ==>
          && r.pos.written < |msgs| && !Sendable(keys, msgs[r.pos.written])
          && (r.pieces != [] <==> pos.written < r.pos.written))
    decreases Left(msgs, pos)
  {
    hide SealAll, SealNext, Able, Left, HasRoom, Record.Bytes, Advance, InFlight, Carries, Sendable;
    AbleEpoch(msgs, keys, n, pos, mtu);
    if pos.written >= |msgs| {
      NothingYet(msgs, keys, pos);
      SealAllEnd(msgs, keys, n, pos, maxOut);
    } else {
      SealAllStep(msgs, keys, n, pos, maxOut);
      AbleSeals(msgs, keys, n, pos, mtu, maxOut);
      var one := SealNext(msgs, keys, n, pos, maxOut);
      if one.Seals? {
        SealNextCarries(msgs, keys, n, pos, maxOut);
        if one.pos.written != pos.written {
          AblePacket(msgs, keys, one.n, one.pos, mtu, maxOut - |one.record.Bytes()|);
        }
      }
    }
  }

  lemma AbleEpoch(msgs: seq<OutMsg>, keys: WriteKeys, n: Numbers, pos: Pos, mtu: nat)
    requires InFlight(msgs, pos) && Able(msgs, keys, n, pos, mtu)
    ensures n.epoch == keys.epoch
  {
  }

  /** With such ciphers and counters a call gives something up only if the message at the position can be
      sent and a later one cannot. */
  lemma {:induction false} GivesUpOnlyBehind(msgs: seq<OutMsg>, keys: WriteKeys, n: Numbers, pos: Pos, mtu: nat,
      answers: seq<int>)
    requires InFlight(msgs, pos) && Able(msgs, keys, n, pos, mtu)
    ensures n.epoch == keys.epoch
    ensures var r := Fly(msgs, keys, n, pos, mtu, answers);
      && (r.gaveUp != [] ==> LaterIsStuck(msgs, keys, pos))
      && (r.stop.SealFailed? ==> !AllSendable(msgs, keys, pos.written, |msgs|))
    decreases Left(msgs, pos)
  {
    hide Fly, SealAll, Able, Left, Sendable;
    AbleEpoch(msgs, keys, n, pos, mtu);
    if pos.written == |msgs| {
      FlyEnd(msgs, keys, n, pos, mtu, answers);
    } else {
      FlyStep(msgs, keys, n, pos, mtu, answers);
      AblePacket(msgs, keys, n, pos, mtu, mtu);
      var p := SealAll(msgs, keys, n, pos, mtu);
      if !p.failed && p.pieces != [] && NextAnswer(answers) > 0 {
        PacketMoves(msgs, keys, n, pos, mtu);
        GivesUpOnlyBehind(msgs, keys, p.n, p.pos, mtu, OtherAnswers(answers));
      }
    }
  }

  /** With such messages, ciphers and counters no call gives anything up, whatever the transport answers. */
  lemma HealthyGivesUpNothing(msgs: seq<OutMsg>, keys: WriteKeys, n: Numbers, pos: Pos, mtu: nat, answers: seq<int>)
    requires InFlight(msgs, pos) && Healthy(msgs, keys, n, pos, mtu)
    ensures n.epoch == keys.epoch
    ensures var r := Fly(msgs, keys, n, pos, mtu, answers);
      r.gaveUp == [] && !r.stop.SealFailed?
  {
    hide Fly, Able, Sendable;
    GivesUpOnlyBehind(msgs, keys, n, pos, mtu, answers);
  }

  lemma PacketHasRecord(msgs: seq<OutMsg>, keys: WriteKeys, n: Numbers, pos: Pos, maxOut: nat)
    requires InFlight(msgs, pos) && n.epoch == keys.epoch && pos.written < |msgs|
    requires HasRoom(keys, msgs[pos.written], maxOut) && !SealAll(msgs, keys, n, pos, maxOut).failed
    ensures var p := SealAll(msgs, keys, n, pos, maxOut);
      p.pieces != [] && pos.written <= p.pos.written
  {
    hide SealAll, SealNext, HasRoom, Walk, Size;
    SealAllStep(msgs, keys, n, pos, maxOut);
    if SealNext(msgs, keys, n, pos, maxOut).NoRoom? { NoRoomMeans(msgs, keys, n, pos, maxOut); }
    PacketIsNext(msgs, keys, n, pos, maxOut);
    WalkRecords(msgs, pos, SealAll(msgs, keys, n, pos, maxOut).pieces, pos.written);
  }

  /** Every message that can be sent has room in an empty packet, and the transport accepts as many packets
      as there can be. */
  ghost predicate Unhindered(msgs: seq<OutMsg>, keys: WriteKeys, pos: Pos, mtu: nat, answers: seq<int>)
    requires InFlight(msgs, pos)
  {
    && (forall i | pos.written <= i < |msgs| && Sendable(keys, msgs[i]) :: HasRoom(keys, msgs[i], mtu))
    && |answers| > Left(msgs, pos) && forall k | 0 <= k < |answers| :: answers[k] > 0
  }

  lemma UnhinderedRest(msgs: seq<OutMsg>, keys: WriteKeys, pos: Pos, next: Pos, mtu: nat, answers: seq<int>)
    requires InFlight(msgs, pos) && InFlight(msgs, next) && Unhindered(msgs, keys, pos, mtu, answers)
    ensures NextAnswer(answers) > 0
    ensures pos.written < |msgs| && Sendable(keys, msgs[pos.written]) ==> HasRoom(keys, msgs[pos.written], mtu)
    ensures pos.written <= next.written && Left(msgs, next) < Left(msgs, pos) ==>
      Unhindered(msgs, keys, next, mtu, OtherAnswers(answers))
  {
    hide Left, Sendable, HasRoom, InFlight;
  }

  /** If nothing else stands in the way, something is given up exactly when the message at the position can
      be sent and a later one cannot; and the flight goes out exactly when all can be sent. */
  lemma {:induction false} GivesUpExactlyBehind(msgs: seq<OutMsg>, keys: WriteKeys, n: Numbers, pos: Pos, mtu: nat,
      answers: seq<int>)
    requires InFlight(msgs, pos) && Able(msgs, keys, n, pos, mtu) && Unhindered(msgs, keys, pos, mtu, answers)
    ensures n.epoch == keys.epoch
    ensures var r := Fly(msgs, keys, n, pos, mtu, answers);
      && (r.gaveUp != [] <==> LaterIsStuck(msgs, keys, pos))
      && (r.stop.Done? <==> AllSendable(msgs, keys, pos.written, |msgs|))
    decreases Left(msgs, pos)
  {
    hide Fly, SealAll, Able, Unhindered, HasRoom, Left, Sendable;
    AbleEpoch(msgs, keys, n, pos, mtu);
    UnhinderedRest(msgs, keys, pos, pos, mtu, answers);
    if pos.written == |msgs| {
      FlyEnd(msgs, keys, n, pos, mtu, answers);
    } else {
      FlyStep(msgs, keys, n, pos, mtu, answers);
      AblePacket(msgs, keys, n, pos, mtu, mtu);
      var p := SealAll(msgs, keys, n, pos, mtu);
      if !p.failed {
        PacketHasRecord(msgs, keys, n, pos, mtu);
        PacketMoves(msgs, keys, n, pos, mtu);
        UnhinderedRest(msgs, keys, pos, p.pos, mtu, answers);
        GivesUpExactlyBehind(msgs, keys, p.n, p.pos, mtu, OtherAnswers(answers));
      }
    }
  }

  /** So a healthy flight goes out if every message has room in an empty packet and the transport accepts
      everything. */
  lemma HealthyGoesOut(msgs: seq<OutMsg>, keys: WriteKeys, n: Numbers, pos: Pos, mtu: nat, answers: seq<int>)
    requires InFlight(msgs, pos) && Healthy(msgs, keys, n, pos, mtu)
    requires forall i | pos.written <= i < |msgs| :: HasRoom(keys, msgs[i], mtu)
    requires |answers| > Left(msgs, pos) && forall k | 0 <= k < |answers| :: answers[k] > 0
    ensures n.epoch == keys.epoch && Fly(msgs, keys, n, pos, mtu, answers).stop.Done?
  {
    hide Fly, Able, Left, HasRoom, Sendable;
    GivesUpExactlyBehind(msgs, keys, n, pos, mtu, answers);
  }

  // ---------- record numbers ----------

  lemma SealNextNumber(msgs: seq<OutMsg>, keys: WriteKeys, n: Numbers, pos: Pos, maxOut: nat, a: seq<Record>)
    requires InFlight(msgs, pos) && pos.written < |msgs| && n.epoch == keys.epoch && Drawn(a, n.sealed)
    ensures var r := SealNext(msgs, keys, n, pos, maxOut);
      && (r.Fails? ==> r.n.sealed == n.sealed)
      && (r.Seals? ==> n.sealed <= r.n.sealed && Drawn(a + [r.record], r.n.sealed))
  {
    hide NextPiece, PieceBytes, WellFormed, HasRoom, AttemptFor, Drawn, NumberOf;
    var r, previous := SealNext(msgs, keys, n, pos, maxOut), msgs[pos.written].epoch != keys.epoch;
    if r.Seals? { DrawnOne(a, r.record, n.sealed, (EpochOf(n, previous), Counter(n, previous))); }
  }

  /** The records of a packet use up numbers in order. */
  lemma {:induction false} PacketNumbers(msgs: seq<OutMsg>, keys: WriteKeys, n: Numbers, pos: Pos, maxOut: nat,
      a: seq<Record>)
    requires InFlight(msgs, pos) && n.epoch == keys.epoch && Drawn(a, n.sealed)
    ensures var r := SealAll(msgs, keys, n, pos, maxOut);
      n.sealed <= r.n.sealed && Drawn(a + r.records, r.n.sealed)
    decreases Left(msgs, pos)
  {
    hide SealAll, SealNext, Left, InFlight, Drawn, Record.Bytes;
    NothingYet(msgs, keys, pos);
    assert a + [] == a;
    if pos.written == |msgs| {
      SealAllEnd(msgs, keys, n, pos, maxOut);
    } else {
      SealAllStep(msgs, keys, n, pos, maxOut);
      SealNextNumber(msgs, keys, n, pos, maxOut, a);
      var one := SealNext(msgs, keys, n, pos, maxOut);
      if one.Seals? {
        SealNextCarries(msgs, keys, n, pos, maxOut);
        if one.pos.written != pos.written {
          var left := maxOut - |one.record.Bytes()|;
          PacketNumbers(msgs, keys, one.n, one.pos, left, a + [one.record]);
          var rest := SealAll(msgs, keys, one.n, one.pos, left).records;
          assert a + ([one.record] + rest) == (a + [one.record]) + rest;
        }
      }
    }
  }

  lemma SealNextSpends(msgs: seq<OutMsg>, keys: WriteKeys, n: Numbers, pos: Pos, maxOut: nat)
    requires InFlight(msgs, pos) && pos.written < |msgs| && n.epoch == keys.epoch
    ensures var r := SealNext(msgs, keys, n, pos, maxOut);
      && (r.Fails? ==> |r.n.sealed| == |n.sealed|) && (r.Seals? ==> |r.n.sealed| == |n.sealed| + 1)
  {
    hide NextPiece, PieceBytes, WellFormed, HasRoom, AttemptFor, NumberOf;
  }

  lemma {:induction false} PacketSpends(msgs: seq<OutMsg>, keys: WriteKeys, n: Numbers, pos: Pos, maxOut: nat)
    requires InFlight(msgs, pos) && n.epoch == keys.epoch
    ensures var r := SealAll(msgs, keys, n, pos, maxOut);
      |r.n.sealed| == |n.sealed| + |r.records|
    decreases Left(msgs, pos)
  {
    hide SealAll, SealNext, Left, InFlight, Record.Bytes;
    NothingYet(msgs, keys, pos);
    if pos.written == |msgs| {
      SealAllEnd(msgs, keys, n, pos, maxOut);
    } else {
      SealAllStep(msgs, keys, n, pos, maxOut);
      SealNextSpends(msgs, keys, n, pos, maxOut);
      var one := SealNext(msgs, keys, n, pos, maxOut);
      if one.Seals? {
        SealNextCarries(msgs, keys, n, pos, maxOut);
        if one.pos.written != pos.written {
          PacketSpends(msgs, keys, one.n, one.pos, maxOut - |one.record.Bytes()|);
        }
      }
    }
  }

  /** Every record costs a number, whether it is sent, given up, or in a packet that is refused. */
  lemma {:induction false} FlightSpends(msgs: seq<OutMsg>, keys: WriteKeys, n: Numbers, pos: Pos, mtu: nat,
      answers: seq<int>)
    requires InFlight(msgs, pos) && n.epoch == keys.epoch
    ensures var r := Fly(msgs, keys, n, pos, mtu, answers);
      var spent := |n.sealed| + |Flatten(r.packets)| + |r.gaveUp|;
      if r.stop.Refused? then |r.n.sealed| > spent else |r.n.sealed| == spent
    decreases Left(msgs, pos)
  {
    hide Fly, SealAll, Left, Flatten;
    FlattenNothing<Record>();
    if pos.written == |msgs| {
      FlyEnd(msgs, keys, n, pos, mtu, answers);
    } else {
      FlyStep(msgs, keys, n, pos, mtu, answers);
      PacketSpends(msgs, keys, n, pos, mtu);
      var p := SealAll(msgs, keys, n, pos, mtu);
      if !p.failed && p.pieces != [] && NextAnswer(answers) > 0 {
        PacketMoves(msgs, keys, n, pos, mtu);
        FlightSpends(msgs, keys, p.n, p.pos, mtu, OtherAnswers(answers));
        FlattenFirst(p.records, Fly(msgs, keys, p.n, p.pos, mtu, OtherAnswers(answers)).packets);
      }
    }
  }

  /** The records sent, by this call and by those before it, use up numbers in order; a number used for a
      packet that was not sent is not used again. */
  lemma {:induction false} FlightNumbers(msgs: seq<OutMsg>, keys: WriteKeys, n: Numbers, pos: Pos, mtu: nat,
      answers: seq<int>, out: seq<seq<Record>>)
    requires InFlight(msgs, pos) && n.epoch == keys.epoch && Drawn(Flatten(out), n.sealed)
    ensures var r := Fly(msgs, keys, n, pos, mtu, answers);
      n.sealed <= r.n.sealed && Drawn(Flatten(out + r.packets), r.n.sealed)
    decreases Left(msgs, pos)
  {
    hide Fly, SealAll, Left, Drawn, Flatten;
    assert out + [] == out;
    if pos.written == |msgs| {
      FlyEnd(msgs, keys, n, pos, mtu, answers);
    } else {
      FlyStep(msgs, keys, n, pos, mtu, answers);
      PacketNumbers(msgs, keys, n, pos, mtu, Flatten(out));
      var p := SealAll(msgs, keys, n, pos, mtu);
      DrawnMore(Flatten(out), n.sealed, p.n.sealed);
      if !p.failed && p.pieces != [] && NextAnswer(answers) > 0 {
        PacketMoves(msgs, keys, n, pos, mtu);
        FlattenOne(out, p.records);
        FlightNumbers(msgs, keys, p.n, p.pos, mtu, OtherAnswers(answers), out + [p.records]);
        var rest := Fly(msgs, keys, p.n, p.pos, mtu, OtherAnswers(answers)).packets;
        assert (out + [p.records]) + rest == out + ([p.records] + rest);
      }
    }
  }
}
