/** Record numbers of DTLS: the sender's counters. */
module DtlsNumbers {
  import opened Bits
  import opened TlsWire

  // ---------- numbers given to sealed records ----------

  const COUNTER_LIMIT: int := 0x1_0000_0000_0000       // 48-bit record sequence numbers

  /** The write epoch, the counters of this epoch and of the previous one, the (epoch, number) pairs
      of the records sealed so far, and whether a counter has run over. */
  datatype Numbers = Numbers(epoch: nat, next: nat, last: nat, sealed: seq<(nat, nat)>, wrapped: bool)

  /** How far sealing a record gets: the AEAD fails before the number is used up, a later check fails
      after it, or the record is sealed. */
  datatype Attempt = AeadFails | FailsLater | Succeeds

  datatype WriteOp = Seal(previous: bool, attempt: Attempt) | NextEpoch

  function Counter(n: Numbers, previous: bool): nat { if previous then n.last else n.next }

  function EpochOf(n: Numbers, previous: bool): int { if previous then n.epoch - 1 else n.epoch }

  /** dtls_seal_record. A counter that runs over fails the call and starts again at 0. */
  function AfterSeal(n: Numbers, previous: bool, a: Attempt): Numbers
    requires previous ==> n.epoch >= 1
  {
    if a.AeadFails? then n
    else
      var c := Counter(n, previous);
      var wraps := c + 1 >= COUNTER_LIMIT;
      var c' := if wraps then 0 else c + 1;
      var sealed := if wraps || a.FailsLater? then n.sealed else n.sealed + [(EpochOf(n, previous), c)];
      n.(next := if previous then n.next else c', last := if previous then c' else n.last,
         sealed := sealed, wrapped := n.wrapped || wraps)
  }

  /** dtls1_set_write_state. The epoch is a uint16_t. */
  function AfterWriteState(n: Numbers): Numbers {
    n.(epoch := (n.epoch + 1) % 0x1_0000, last := n.next, next := 0)
  }

  predicate CanDo(n: Numbers, op: WriteOp) { op.Seal? && op.previous ==> n.epoch >= 1 }

  function Do(n: Numbers, op: WriteOp): Numbers
    requires CanDo(n, op)
  {
    match op
    case Seal(previous, a) => AfterSeal(n, previous, a)
    case NextEpoch => AfterWriteState(n)
  }

  predicate CanRun(n: Numbers, ops: seq<WriteOp>)
    decreases |ops|
  {
    ops == [] || (CanDo(n, ops[0]) && CanRun(Do(n, ops[0]), ops[1..]))
  }

  function DoAll(n: Numbers, ops: seq<WriteOp>): Numbers
    requires CanRun(n, ops)
    decreases |ops|
  {
    if ops == [] then n else DoAll(Do(n, ops[0]), ops[1..])
  }

  function EpochChanges(ops: seq<WriteOp>): nat {
    if ops == [] then 0 else (if ops[0].NextEpoch? then 1 else 0) + EpochChanges(ops[1..])
  }

  ghost predicate NoRepeats<T>(s: seq<T>) {
    forall i, j | 0 <= i < j < |s| :: s[i] != s[j]
  }

  /** Used numbers lie below the counters of the two live epochs; later epochs are unused. */
  ghost predicate Below(n: Numbers) {
    forall p | p in n.sealed :: p.0 <= n.epoch && (p.0 == n.epoch ==> p.1 < n.next)
        && (p.0 == n.epoch - 1 ==> p.1 < n.last)
  }

  ghost predicate Fresh(n: Numbers) { !n.wrapped ==> NoRepeats(n.sealed) && Below(n) }

  lemma DoKeepsFresh(n: Numbers, op: WriteOp)
    requires CanDo(n, op) && Fresh(n) && (op.NextEpoch? ==> n.epoch + 1 < 0x1_0000)
    ensures Fresh(Do(n, op))
  {
  }

  const START_NUMBERS := Numbers(0, 0, 0, [], false)

  /** Over any run of seals that succeed or fail, in the current or the previous epoch, and of
      write-epoch changes, no two sealed records carry the same epoch and number, up to the first
      counter overflow and as long as the 16-bit epoch does not wrap. */
  lemma {:induction false} SealedNumbersAreFresh(n: Numbers, ops: seq<WriteOp>)
    requires Fresh(n) && CanRun(n, ops) && n.epoch + EpochChanges(ops) < 0x1_0000
    ensures Fresh(DoAll(n, ops))
    decreases |ops|
  {
    if ops != [] {
      DoKeepsFresh(n, ops[0]);
      SealedNumbersAreFresh(Do(n, ops[0]), ops[1..]);
    }
  }

  /** Used numbers fit 48 bits. */
  predicate Counted(sealed: seq<(nat, nat)>) { forall i | 0 <= i < |sealed| :: sealed[i].1 < COUNTER_LIMIT }

  lemma {:induction false} CountedAlways(n: Numbers, ops: seq<WriteOp>)
    requires Counted(n.sealed) && CanRun(n, ops)
    ensures Counted(DoAll(n, ops).sealed)
    decreases |ops|
  {
    if ops != [] { CountedAlways(Do(n, ops[0]), ops[1..]); }
  }

  function Attempts(ops: seq<WriteOp>): nat {
    if ops == [] then 0 else (if ops[0].Seal? then 1 else 0) + Attempts(ops[1..])
  }

  lemma {:induction false} CountersBelowAttempts(n: Numbers, ops: seq<WriteOp>, k: nat)
    requires CanRun(n, ops) && n.next <= k && n.last <= k && !n.wrapped && k + Attempts(ops) < COUNTER_LIMIT
    ensures !DoAll(n, ops).wrapped
    decreases |ops|
  {
    if ops != [] {
      CountersBelowAttempts(Do(n, ops[0]), ops[1..], if ops[0].Seal? then k + 1 else k);
    }
  }

  /** What a caller can count beforehand: with fewer than 2^48 attempts to seal and fewer than 2^16
      epoch changes no counter runs over and no two sealed records carry the same epoch and number. */
  lemma FewAttemptsAreFresh(ops: seq<WriteOp>)
    requires CanRun(START_NUMBERS, ops) && Attempts(ops) < COUNTER_LIMIT && EpochChanges(ops) < 0x1_0000
    ensures !DoAll(START_NUMBERS, ops).wrapped && NoRepeats(DoAll(START_NUMBERS, ops).sealed)
  {
    CountersBelowAttempts(START_NUMBERS, ops, 0);
    SealedNumbersAreFresh(START_NUMBERS, ops);
  }

  /** k successful seals in the current epoch. */
  function Seals(k: nat): seq<WriteOp> { seq(k, _ => Seal(false, Succeeds)) }

  lemma {:induction false} ManySeals(n: Numbers, k: nat)
    requires n.next + k < COUNTER_LIMIT
    ensures CanRun(n, Seals(k)) && DoAll(n, Seals(k)).next == n.next + k && DoAll(n, Seals(k)).epoch == n.epoch
    ensures n.sealed <= DoAll(n, Seals(k)).sealed
    decreases k
  {
    if k > 0 {
      assert Seals(k)[1..] == Seals(k - 1);
      ManySeals(Do(n, Seal(false, Succeeds)), k - 1);
    }
  }

  lemma {:induction false} RunAppend(n: Numbers, a: seq<WriteOp>, b: seq<WriteOp>)
    requires CanRun(n, a) && CanRun(DoAll(n, a), b)
    ensures CanRun(n, a + b) && DoAll(n, a + b) == DoAll(DoAll(n, a), b)
    decreases |a|
  {
    if a == [] {
      assert a + b == b;
    } else {
      assert (a + b)[1..] == a[1..] + b;
      RunAppend(Do(n, a[0]), a[1..], b);
    }
  }

  /** Past an overflow the numbers do repeat: after 2^48 attempts the counter is back at 0 and the
      next record is sealed with the pair of the first. */
  lemma OverflowRepeats()
    ensures var ops := Seals(COUNTER_LIMIT - 1) + [Seal(false, Succeeds), Seal(false, Succeeds)];
      CanRun(START_NUMBERS, ops) && !NoRepeats(DoAll(START_NUMBERS, ops).sealed)
  {
    var first := Do(START_NUMBERS, Seal(false, Succeeds));
    ManySeals(first, COUNTER_LIMIT - 2);
    assert Seals(COUNTER_LIMIT - 1)[1..] == Seals(COUNTER_LIMIT - 2);
    var full := DoAll(START_NUMBERS, Seals(COUNTER_LIMIT - 1));
    assert full == DoAll(first, Seals(COUNTER_LIMIT - 2));
    var two := [Seal(false, Succeeds), Seal(false, Succeeds)];
    assert two[1..][1..] == [];
    RunAppend(START_NUMBERS, Seals(COUNTER_LIMIT - 1), two);
    var end := DoAll(full, two);
    assert end.sealed == full.sealed + [(0, 0)];
    assert full.sealed[0] == (0, 0) && |full.sealed| > 0;
    assert end.sealed[0] == end.sealed[|full.sealed|];
  }

  // ---------- the counter bytes ----------

  /** ssl_record_sequence_update: adds one, from the last byte on; fails when all bytes run over. */
  method SequenceUpdate(counter: array<byte>) returns (ok: bool)
    modifies counter
    ensures ok == (old(FromBigEndian(counter[..])) + 1 < Pow2(8 * counter.Length))
    ensures FromBigEndian(counter[..]) == if ok then old(FromBigEndian(counter[..])) + 1 else 0
  {
    hide FromBigEndian, Pow2;
    ghost var before := counter[..];
    var i := counter.Length;
    NoBytes(before);
    while i > 0
      invariant 0 <= i <= counter.Length
      invariant counter[..i] == before[..i]
      invariant FromBigEndian(counter[i..]) == 0 && FromBigEndian(before[i..]) == Pow2(8 * (counter.Length - i)) - 1
    {
      i := i - 1;
      StepBack(before, i);
      ghost var tail := counter[i + 1..];
      var b: int := counter[i];
      counter[i] := (b + 1) % 256;
      assert counter[i + 1..] == tail && counter[..i] == before[..i] && before[i] == b;
      if counter[i] != 0 {
        Incremented(before, counter[..], i);
        return true;
      }
      StepBack(counter[..], i);
      assert before[i] * Pow2(8 * (counter.Length - i - 1)) == 255 * Pow2(8 * (counter.Length - i - 1));
    }
    assert counter[0..] == counter[..] && before[0..] == before;
    return false;
  }

  lemma NoBytes(s: seq<byte>)
    ensures FromBigEndian(s[|s|..]) == 0 && Pow2(0) == 1
  {
  }

  lemma StepBack(s: seq<byte>, i: nat)
    requires i < |s|
    ensures FromBigEndian(s[i..]) == s[i] * Pow2(8 * (|s| - i - 1)) + FromBigEndian(s[i + 1..])
    ensures Pow2(8 * (|s| - i)) == 256 * Pow2(8 * (|s| - i - 1))
  {
    assert s[i..] == [s[i]] + s[i + 1..];
    FromBigEndianSplit([s[i]], s[i + 1..]);
    assert FromBigEndian([s[i]]) == s[i] by { assert [s[i]][..0] == []; }
    Pow2Add(8, 8 * (|s| - i - 1));
    assert Pow2(8) == 256;
  }

  lemma Incremented(before: seq<byte>, after: seq<byte>, i: nat)
    requires |before| == |after| && i < |after| && after[..i] == before[..i] && after[i] as int == before[i] as int + 1
    requires FromBigEndian(after[i + 1..]) == 0
    requires FromBigEndian(before[i + 1..]) == Pow2(8 * (|after| - i - 1)) - 1
    ensures FromBigEndian(after) == FromBigEndian(before) + 1 < Pow2(8 * |after|)
  {
    hide FromBigEndian, Pow2;
    StepBack(before, i);
    StepBack(after, i);
    var p := Pow2(8 * (|after| - i - 1));
    Distribute(before[i], p);
    assert FromBigEndian(after[i..]) == FromBigEndian(before[i..]) + 1;
    assert before == before[..i] + before[i..] && after == after[..i] + after[i..];
    FromBigEndianSplit(before[..i], before[i..]);
    FromBigEndianSplit(after[..i], after[i..]);
    FromBigEndianBound(after);
  }

  lemma Distribute(b: int, p: int)
    ensures (b + 1) * p == b * p + p
  {
  }
}
