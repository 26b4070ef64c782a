/** The saturating reference count: the atomic specification and its two implementations. */
module Refcount {
  import opened Wrappers

  const REFCOUNT_MAX: nat := 0xffff_ffff

  // ---------- the specification ----------

  /** A completed operation; a decrement with what it returned. */
  datatype Event = Incremented | Decremented(zero: bool)

  /** Can the operation be completed, with this result, when the count is c? */
  predicate Legal(c: nat, e: Event) { e.Decremented? ==> c != 0 && (e.zero <==> c == 1) }

  function After(c: nat, e: Event): nat
    requires Legal(c, e)
  {
    if c == REFCOUNT_MAX then c else if e.Incremented? then c + 1 else c - 1
  }

  /** The count after the operations one at a time, if every one could return what it did. */
  function Replay(c: nat, log: seq<Event>): Option<nat> {
    if log == [] then Some(c)
    else
      var before := Replay(c, log[..|log| - 1]);
      var e := log[|log| - 1];
      if before.None? || !Legal(before.value, e) then None else Some(After(before.value, e))
  }

  lemma ReplayOne(c: nat, log: seq<Event>, e: Event)
    requires Replay(c, log).Some? && Legal(Replay(c, log).value, e)
    ensures Replay(c, log + [e]) == Some(After(Replay(c, log).value, e))
  {
    assert (log + [e])[..|log|] == log;
  }

  // ---------- any number of threads on the C11 implementation ----------

  /** A thread with the references it holds. In an operation, expected is the value last seen; the
      reference to be released still counts. */
  datatype Thread =
    | Idle(held: nat)
    | Incrementing(held: nat, expected: nat)
    | Decrementing(held: nat, expected: nat)

  datatype State = State(count: nat, threads: seq<Thread>, log: seq<Event>, aborted: bool)

  /** The atomic steps: the first load of an operation, one attempt of its loop (where a weak
      compare-exchange may fail for no reason), and handing a reference to another thread. */
  datatype Step = StartInc(i: nat) | StartDec(i: nat) | Attempt(i: nat, spurious: bool) | Give(i: nat, j: nat)

  function Live(threads: seq<Thread>): nat {
    if threads == [] then 0 else threads[0].held + Live(threads[1..])
  }

  /** The discipline of the callers: operations start only while a reference is held. */
  predicate Enabled(s: State, step: Step) {
    && !s.aborted && step.i < |s.threads|
    && match step
       case StartInc(i) => s.threads[i].Idle? && s.threads[i].held >= 1
       case StartDec(i) => s.threads[i].Idle? && s.threads[i].held >= 1
       case Attempt(i, _) => !s.threads[i].Idle?
       case Give(i, j) =>
         j < |s.threads| && i != j && s.threads[i].Idle? && s.threads[i].held >= 1
         && s.threads[j].Idle?
  }

  function Set(s: State, i: nat, t: Thread): State
    requires i < |s.threads|
  {
    s.(threads := s.threads[i := t])
  }

  /** One pass through the loop of CRYPTO_refcount_inc. */
  function IncAttempt(s: State, i: nat, spurious: bool): State
    requires i < |s.threads| && s.threads[i].Incrementing?
  {
    var t := s.threads[i];
    if t.expected == REFCOUNT_MAX then Set(s, i, Idle(t.held + 1)).(log := s.log + [Incremented])
    else if s.count == t.expected && !spurious then
      Set(s, i, Idle(t.held + 1)).(count := t.expected + 1, log := s.log + [Incremented])
    else Set(s, i, t.(expected := s.count))
  }

  /** One pass through the loop of CRYPTO_refcount_dec_and_test_zero. */
  function DecAttempt(s: State, i: nat, spurious: bool): State
    requires i < |s.threads| && s.threads[i].Decrementing? && s.threads[i].held >= 1
  {
    var t := s.threads[i];
    if t.expected == 0 then s.(aborted := true)
    else if t.expected == REFCOUNT_MAX then Set(s, i, Idle(t.held - 1)).(log := s.log + [Decremented(false)])
    else if s.count == t.expected && !spurious then
      Set(s, i, Idle(t.held - 1)).(count := t.expected - 1, log := s.log + [Decremented(t.expected - 1 == 0)])
    else Set(s, i, t.(expected := s.count))
  }

  function Next(s: State, step: Step): State
    requires Enabled(s, step) && Invariant(s)
  {
    match step
    case StartInc(i) => Set(s, i, Incrementing(s.threads[i].held, s.count))
    case StartDec(i) => Set(s, i, Decrementing(s.threads[i].held, s.count))
    case Attempt(i, spurious) => if s.threads[i].Incrementing? then IncAttempt(s, i, spurious)
        else DecAttempt(s, i, spurious)
    case Give(i, j) => Set(Set(s, i, Idle(s.threads[i].held - 1)), j, Idle(s.threads[j].held + 1))
  }

  /** A thread inside an operation holds a reference; it saw a count that was not 0, and if what it saw
      was the maximum the count is still there. */
  predicate ThreadOk(t: Thread, count: nat) {
    t.Idle? || (t.held >= 1 && 1 <= t.expected <= REFCOUNT_MAX
        && (t.expected == REFCOUNT_MAX ==> count == REFCOUNT_MAX))
  }

  /** The decrements that returned 1. */
  function Zeros(log: seq<Event>): nat {
    if log == [] then 0 else Zeros(log[..|log| - 1]) + if log[|log| - 1] == Decremented(true) then 1 else 0
  }

  predicate Invariant(s: State) {
    && !s.aborted && s.count <= REFCOUNT_MAX
    && (s.count < REFCOUNT_MAX ==> s.count == Live(s.threads))
    && (forall i | 0 <= i < |s.threads| :: ThreadOk(s.threads[i], s.count))
    && Replay(1, s.log) == Some(s.count)
    && Zeros(s.log) == if s.count == 0 then 1 else 0
  }

  lemma {:induction false} LiveSet(threads: seq<Thread>, i: nat, t: Thread)
    requires i < |threads|
    ensures Live(threads[i := t]) == Live(threads) - threads[i].held + t.held
    ensures threads[i].held <= Live(threads)
  {
    if i > 0 {
      assert threads[i := t][1..] == threads[1..][i - 1 := t];
      LiveSet(threads[1..], i - 1, t);
    } else {
      assert threads[i := t][1..] == threads[1..];
    }
  }

  lemma ZerosOne(log: seq<Event>, e: Event)
    ensures Zeros(log + [e]) == Zeros(log) + if e == Decremented(true) then 1 else 0
  {
    assert (log + [e])[..|log|] == log;
  }

  lemma AttemptKeeps(s: State, i: nat, spurious: bool)
    requires Invariant(s) && Enabled(s, Attempt(i, spurious))
    ensures Invariant(Next(s, Attempt(i, spurious)))
  {
    hide Live, Replay, Zeros;
    var t, s' := s.threads[i], Next(s, Attempt(i, spurious));
    LiveSet(s.threads, i, s'.threads[i]);
    if s'.log != s.log {
      var e := s'.log[|s.log|];
      ReplayOne(1, s.log, e);
      ZerosOne(s.log, e);
    }
  }

  /** What every step keeps: no abort, the count is the live references or the maximum, and one
      decrement at most has returned 1. */
  lemma StepKeeps(s: State, step: Step)
    requires Invariant(s) && Enabled(s, step)
    ensures Invariant(Next(s, step))
    ensures s.count == REFCOUNT_MAX ==> Next(s, step).count == REFCOUNT_MAX
  {
    hide Live, Replay, Zeros;
    if step.Attempt? {
      AttemptKeeps(s, step.i, step.spurious);
    } else {
      LiveSet(s.threads, step.i, Next(s, step).threads[step.i]);
      if step.Give? {
        var first := Set(s, step.i, Idle(s.threads[step.i].held - 1));
        LiveSet(s.threads, step.i, first.threads[step.i]);
        LiveSet(first.threads, step.j, Idle(s.threads[step.j].held + 1));
      }
    }
  }

  /** Refinement: a step completes no operation and leaves the count, or completes one operation, which
      happens to the count at that moment and returns what the specification returns. */
  lemma StepRefines(s: State, step: Step)
    requires Invariant(s) && Enabled(s, step)
    ensures var s' := Next(s, step);
      || (s'.log == s.log && s'.count == s.count)
      || (|s'.log| == |s.log| + 1 && s'.log[..|s.log|] == s.log
          && Legal(s.count, s'.log[|s.log|]) && s'.count == After(s.count, s'.log[|s.log|]))
  {
    hide Live, Replay, Zeros;
    if step.Attempt? {
      assert ThreadOk(s.threads[step.i], s.count);
    }
  }

  predicate CanRun(s: State, steps: seq<Step>)
    requires Invariant(s)
    decreases |steps|
  {
    steps == [] || (Enabled(s, steps[0]) && (StepKeeps(s, steps[0]); CanRun(Next(s, steps[0]), steps[1..])))
  }

  function Run(s: State, steps: seq<Step>): (end: State)
    requires Invariant(s) && CanRun(s, steps)
    ensures Invariant(end)
    ensures s.count == REFCOUNT_MAX ==> end.count == REFCOUNT_MAX
    decreases |steps|
  {
    if steps == [] then s else (StepKeeps(s, steps[0]); Run(Next(s, steps[0]), steps[1..]))
  }

  lemma {:induction false} NoneHeld(n: nat)
    ensures Live(seq(n, _ => Idle(0))) == 0
  {
    if n > 0 {
      assert seq(n, _ => Idle(0))[1..] == seq(n - 1, _ => Idle(0));
      NoneHeld(n - 1);
    }
  }

  /** A new object: one thread holds the one reference. */
  function Start(n: nat): (s: State)
    ensures Invariant(s)
  {
    var others := seq(n, _ => Idle(0));
    NoneHeld(n);
    assert ([Idle(1)] + others)[1..] == others;
    State(1, [Idle(1)] + others, [], false)
  }

  /** Main theorem. In every interleaving of any number of threads that keep the discipline, with any
      spurious failures: nobody aborts, the count is the live references until it saturates, it stays
      saturated from then on, and exactly one decrement has returned 1 if the count is 0 and none
      otherwise; all of it is explained by the operations one at a time. */
  lemma CountIsLive(n: nat, steps: seq<Step>, k: nat)
    requires CanRun(Start(n), steps) && k <= |steps|
    ensures var end := Run(Start(n), steps);
      && !end.aborted
      && (end.count < REFCOUNT_MAX ==> end.count == Live(end.threads))
      && Zeros(end.log) == (if end.count == 0 then 1 else 0)
      && Replay(1, end.log) == Some(end.count)
    ensures CanRun(Start(n), steps[..k])
    ensures Run(Start(n), steps[..k]).count == REFCOUNT_MAX ==> Run(Start(n), steps).count == REFCOUNT_MAX
    // Until it saturates, the last release is the one that returns 1.
    ensures Run(Start(n), steps).count < REFCOUNT_MAX ==>
      (Zeros(Run(Start(n), steps).log) == 1 <==> Live(Run(Start(n), steps).threads) == 0)
  {
    hide Next, Invariant;
    RunSplits(Start(n), steps, k);
    InvariantSays(Run(Start(n), steps));
  }

  lemma InvariantSays(s: State)
    requires Invariant(s)
    ensures !s.aborted && (s.count < REFCOUNT_MAX ==> s.count == Live(s.threads))
    ensures Replay(1, s.log) == Some(s.count) && Zeros(s.log) == if s.count == 0 then 1 else 0
  {
  }

  lemma RunStep(s: State, steps: seq<Step>)
    requires Invariant(s) && CanRun(s, steps) && steps != []
    ensures Enabled(s, steps[0]) && Invariant(Next(s, steps[0])) && CanRun(Next(s, steps[0]), steps[1..])
    ensures Run(s, steps) == Run(Next(s, steps[0]), steps[1..])
  {
    hide Invariant, Next, Enabled;
    StepKeeps(s, steps[0]);
  }

  lemma RunFirst(s: State, step: Step, rest: seq<Step>)
    requires Invariant(s) && Enabled(s, step) && Invariant(Next(s, step)) && CanRun(Next(s, step), rest)
    ensures CanRun(s, [step] + rest) && Run(s, [step] + rest) == Run(Next(s, step), rest)
  {
    hide Invariant, Next, Enabled;
    assert ([step] + rest)[1..] == rest;
  }

  lemma RunNothing(s: State)
    requires Invariant(s)
    ensures CanRun(s, []) && Run(s, []) == s
  {
    hide Invariant;
  }

  lemma {:induction false} RunSplits(s: State, steps: seq<Step>, k: nat)
    requires Invariant(s) && CanRun(s, steps) && k <= |steps|
    ensures CanRun(s, steps[..k]) && CanRun(Run(s, steps[..k]), steps[k..])
    ensures Run(s, steps) == Run(Run(s, steps[..k]), steps[k..])
    decreases |steps|
  {
    hide Next, Invariant, Enabled, CanRun, Run;
    if k == 0 {
      assert steps[..0] == [] && steps[0..] == steps;
      RunNothing(s);
    } else {
      RunStep(s, steps);
      RunSplits(Next(s, steps[0]), steps[1..], k - 1);
      assert steps[..k] == [steps[0]] + steps[1..][..k - 1] && steps[1..][k - 1..] == steps[k..];
      RunFirst(s, steps[0], steps[1..][..k - 1]);
    }
  }

  // ---------- the two implementations ----------

  /** refcount_lock.c: each operation runs alone, under the global lock. */
  class LockedCount {
    var count: nat
    ghost var log: seq<Event>

    ghost predicate Valid()
      reads this
    {
      count <= REFCOUNT_MAX && Replay(1, log) == Some(count)
    }

    constructor ()
      ensures Valid() && count == 1 && log == []
    {
      count, log := 1, [];
    }

    method Inc()
      requires Valid()
      modifies this
      ensures Valid() && log == old(log) + [Incremented] && count == After(old(count), Incremented)
    {
      ReplayOne(1, log, Incremented);
      if count < REFCOUNT_MAX {
        count := count + 1;
      }
      log := log + [Incremented];
    }

    /** None stands for abort. */
    method DecAndTestZero() returns (ret: Option<bool>)
      requires Valid()
      modifies this
      ensures Valid() && (ret.None? <==> old(count) == 0)
      ensures ret.None? ==> log == old(log) && count == old(count)
      ensures ret.Some? ==>
        Legal(old(count), Decremented(ret.value))
        && count == After(old(count), Decremented(ret.value))
      ensures ret.Some? ==> log == old(log) + [Decremented(ret.value)]
    {
      if count == 0 {
        return None;
      }
      ghost var before := count;
      if count < REFCOUNT_MAX {
        count := count - 1;
      }
      ret := Some(count == 0);
      ReplayOne(1, log, Decremented(ret.value));
      log := log + [Decremented(ret.value)];
    }
  }

  datatype Op = Inc | Dec

  /** What other threads complete before this thread's next access, and whether that access, if it is a
      weak compare-exchange, fails for no reason. */
  datatype Turn = Turn(others: seq<Op>, spurious: bool)

  /** A decrement at 0 ends the thread that makes it and leaves the count. */
  function Perform(c: nat, ops: seq<Op>): nat {
    if ops == [] then c
    else
      var before := Perform(c, ops[..|ops| - 1]);
      if before == REFCOUNT_MAX then before
      else if ops[|ops| - 1].Inc? then before + 1
      else if before == 0 then 0 else before - 1
  }

  function Others(turns: seq<Turn>): seq<Op> {
    if turns == [] then [] else Others(turns[..|turns| - 1]) + turns[|turns| - 1].others
  }

  /** refcount_c11.c: an atomic variable shared with other threads. */
  class AtomicCount {
    var count: nat
    var turns: seq<Turn>
    ghost var log: seq<Event>

    ghost predicate Valid()
      reads this
    {
      count <= REFCOUNT_MAX && Replay(1, log) == Some(count)
    }

    constructor (turns: seq<Turn>)
      ensures Valid() && count == 1 && log == [] && this.turns == turns
    {
      count, log := 1, [];
      this.turns := turns;
    }

    /** The other threads run until this thread's next access. */
    method Interfere() returns (spurious: bool, ghost ops: seq<Op>)
      requires Valid()
      modifies this
      ensures Valid() && old(log) <= log && count == Perform(old(count), ops)
      ensures if old(turns) == [] then turns == [] && ops == [] && !spurious
              else turns == old(turns)[1..] && ops == old(turns)[0].others && spurious == old(turns)[0].spurious
    {
      ops := [];
      if turns == [] {
        return false, [];
      }
      var turn := turns[0];
      turns := turns[1..];
      for i := 0 to |turn.others|
        invariant Valid() && old(log) <= log && turns == old(turns)[1..]
        invariant count == Perform(old(count), turn.others[..i])
      {
        assert turn.others[..i + 1][..i] == turn.others[..i];
        if turn.others[i].Inc? {
          ReplayOne(1, log, Incremented);
          log := log + [Incremented];
          count := if count == REFCOUNT_MAX then count else count + 1;
        } else if count != 0 {
          ReplayOne(1, log, Decremented(count == 1));
          log := log + [Decremented(count == 1)];
          count := if count == REFCOUNT_MAX then count else count - 1;
        }
      }
      assert turn.others[..|turn.others|] == turn.others;
      return turn.spurious, turn.others;
    }

    /** atomic_compare_exchange_weak */
    method CompareExchangeWeak(expected: nat, desired: nat, ghost own: Event)
        returns (ok: bool, seen: nat, ghost ops: seq<Op>)
      requires Valid() && expected < REFCOUNT_MAX && Legal(expected, own) && desired == After(expected, own)
      modifies this
      ensures Valid()
      ensures turns == if old(turns) == [] then [] else old(turns)[1..]
      ensures ops == if old(turns) == [] then [] else old(turns)[0].others
      ensures ok ==> count == desired
      ensures ok ==> |log| > 0 && old(log) <= log[..|log| - 1] && log[|log| - 1] == own
      ensures !ok ==> old(log) <= log && seen == count == Perform(old(count), ops)
      ensures ok <==> Perform(old(count), ops) == expected && (old(turns) == [] || !old(turns)[0].spurious)
    {
      var spurious;
      spurious, ops := Interfere();
      seen := count;
      ok := count == expected && !spurious;
      if ok {
        ReplayOne(1, log, own);
        count, log := desired, log + [own];
      }
    }

    /** CRYPTO_refcount_inc: happens once, after what the others did during the call. */
    method Inc() returns (ghost used: nat)
      requires Valid()
      modifies this
      ensures Valid() && |log| > 0 && old(log) <= log[..|log| - 1] && log[|log| - 1] == Incremented
      ensures used <= |old(turns)| && turns == old(turns)[used..]
      ensures count == After(Perform(old(count), Others(old(turns)[..used])), Incremented)
    {
      hide Perform, Others, Replay;
      ghost var before, all := count, turns;
      NoTurns(before, all);
      var spurious, ops := Interfere();
      used := |all| - |turns|;
      OneTurn(before, all, 0, ops);
      var expected := count;
      while expected != REFCOUNT_MAX
        invariant Valid() && old(log) <= log && expected == count
        invariant used <= |all| && turns == all[used..] && count == Perform(before, Others(all[..used]))
        decreases |turns|
      {
        ghost var at := used;
        var newValue := expected + 1;
        var ok, seen, ops := CompareExchangeWeak(expected, newValue, Incremented);
        used := |all| - |turns|;
        OneTurn(before, all, at, ops);
        if ok {
          return;
        }
        expected := seen;
      }
      ReplayOne(1, log, Incremented);
      log := log + [Incremented];
    }

    /** CRYPTO_refcount_dec_and_test_zero. None stands for abort, which needs a count of 0. */
    method DecAndTestZero() returns (ret: Option<bool>, ghost used: nat)
      requires Valid()
      modifies this
      ensures Valid() && used <= |old(turns)| && turns == old(turns)[used..]
      ensures var c := Perform(old(count), Others(old(turns)[..used]));
        if ret.None? then c == 0 && count == 0
        else Legal(c, Decremented(ret.value)) && count == After(c, Decremented(ret.value))
      ensures ret.None? ==> old(log) <= log
      ensures ret.Some? ==> |log| > 0 && old(log) <= log[..|log| - 1] && log[|log| - 1] == Decremented(ret.value)
    {
      hide Perform, Others, Replay;
      ghost var before, all := count, turns;
      NoTurns(before, all);
      var spurious, ops := Interfere();
      used := |all| - |turns|;
      OneTurn(before, all, 0, ops);
      var expected := count;
      while true
        invariant Valid() && old(log) <= log && expected == count
        invariant used <= |all| && turns == all[used..] && count == Perform(before, Others(all[..used]))
        decreases |turns|
      {
        if expected == 0 {
          return None, used;
        } else if expected == REFCOUNT_MAX {
          ReplayOne(1, log, Decremented(false));
          log := log + [Decremented(false)];
          return Some(false), used;
        } else {
          ghost var at := used;
          var newValue := expected - 1;
          var ok, seen, ops := CompareExchangeWeak(expected, newValue, Decremented(newValue == 0));
          used := |all| - |turns|;
          OneTurn(before, all, at, ops);
          if ok {
            return Some(newValue == 0), used;
          }
          expected := seen;
        }
      }
    }
  }

  lemma NoTurns(c: nat, turns: seq<Turn>)
    ensures Perform(c, Others(turns[..0])) == c
  {
  }

  lemma {:induction false} PerformAppend(c: nat, a: seq<Op>, b: seq<Op>)
    ensures Perform(c, a + b) == Perform(Perform(c, a), b)
    decreases |b|
  {
    if b == [] {
      assert a + b == a;
    } else {
      assert (a + b)[..|a + b| - 1] == a + b[..|b| - 1];
      PerformAppend(c, a, b[..|b| - 1]);
    }
  }

  /** One more turn, or none when there are none left. */
  lemma OneTurn(c: nat, turns: seq<Turn>, used: nat, ops: seq<Op>)
    requires used <= |turns| && ops == if used < |turns| then turns[used].others else []
    ensures var more := if used < |turns| then used + 1 else used;
      Perform(c, Others(turns[..more])) == Perform(Perform(c, Others(turns[..used])), ops)
  {
    if used < |turns| {
      assert turns[..used + 1][..used] == turns[..used];
      PerformAppend(c, Others(turns[..used]), ops);
    }
  }
}
