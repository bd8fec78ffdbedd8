/** The futex mutex: any number of threads interleaving the atomic steps of ll_lock and ll_unlock. */
module Mutex {
  /** Where a thread is.  Retries counts the failed compare-and-swaps of an unlock. */
  datatype Place =
    | Outside
    | TryLock                              // compare and swap 0 by 1
    | Announce                             // compare and swap 1 by 2
    | Wait                                 // about to call futex_wait
    | Asleep                               // inside futex_wait
    | TryAgain                             // compare and swap 0 by 2
    | Inside                               // holds the lock
    | ReadWord(retries: nat)               // oldval = *addr
    | Release(oldval: nat, retries: nat)   // compare and swap oldval by 0
    | Wake                                 // about to call futex_wake

  datatype State = State(word: nat, threads: seq<Place>)

  function Move(s: State, t: nat, p: Place): State
    requires t < |s.threads|
  {
    s.(threads := s.threads[t := p])
  }

  /** The step of one thread.  A sleeper may also wake up for another reason than a wake. */
  ghost predicate Step(s: State, s': State, t: nat) {
    t < |s.threads| &&
    match s.threads[t]
    case Outside => s' == Move(s, t, TryLock)
    case TryLock =>
      s' == if s.word == 0 then Move(s, t, Inside).(word := 1) else Move(s, t, Announce)
    case Announce =>
      s' == if s.word == 0 then Move(s, t, TryAgain)
            else Move(s, t, Wait).(word := if s.word == 1 then 2 else s.word)
    case Wait => s' == Move(s, t, if s.word == 2 then Asleep else TryAgain)
    case Asleep => s' == Move(s, t, TryAgain)
    case TryAgain =>
      s' == if s.word == 0 then Move(s, t, Inside).(word := 2) else Move(s, t, Announce)
    case Inside => s' == Move(s, t, ReadWord(0))
    case ReadWord(n) => s' == Move(s, t, Release(s.word, n))
    case Release(v, n) =>
      s' == if s.word != v then Move(s, t, ReadWord(n + 1))
            else Move(s, t, if v > 1 then Wake else Outside).(word := 0)
    case Wake =>
      if exists u :: Sleeps(s, u) then exists u :: Sleeps(s, u) && s' == Move(Move(s, t, Outside), u, TryAgain)
      else s' == Move(s, t, Outside)
  }

  predicate Sleeps(s: State, u: nat) { u < |s.threads| && s.threads[u] == Asleep }

  ghost predicate Run(states: seq<State>, who: seq<nat>) {
    && |states| == |who| + 1
    && states[0].word == 0 && (forall t :: 0 <= t < |states[0].threads| ==> states[0].threads[t] == Outside)
    && forall i :: 0 <= i < |who| ==> Step(states[i], states[i + 1], who[i])
  }

  // ---------------------------------------------------------------- the invariant

  /** From the successful compare-and-swap to the one that gives the lock back. */
  predicate Owns(p: Place) { p.Inside? || p.ReadWord? || p.Release? }

  /** Awake in the retry loop of ll_lock. */
  predicate Contends(p: Place) { p.Announce? || p.Wait? || p.TryAgain? }

  predicate OwnerAt(s: State, t: nat) { t < |s.threads| && Owns(s.threads[t]) }

  predicate ContenderAt(s: State, t: nat) { t < |s.threads| && Contends(s.threads[t]) }

  predicate WakerAt(s: State, t: nat) { t < |s.threads| && s.threads[t] == Wake }

  /** The word is zero exactly if nobody owns the lock, and at most one thread does. */
  ghost predicate Exclusive(s: State) {
    && s.word <= 2
    && (s.word == 0 <==> !exists t :: OwnerAt(s, t))
    && forall t, u :: OwnerAt(s, t) && OwnerAt(s, u) ==> t == u
  }

  /** What an unlocking thread has read, and that it retries once at most. */
  predicate UnlockSound(s: State, p: Place) {
    match p
    case ReadWord(n) => n <= 1 && (n == 1 ==> s.word == 2)
    case Release(v, n) => 1 <= v <= s.word && n <= 1 && (n == 1 ==> v == 2)
    case _ => true
  }

  ghost predicate UnlocksSound(s: State) {
    forall t :: 0 <= t < |s.threads| ==> UnlockSound(s, s.threads[t])
  }

  /** If a thread sleeps, the lock is marked as contended, or a wake is owed, or somebody is awake in the loop. */
  ghost predicate NobodyForgotten(s: State) {
    (exists t :: Sleeps(s, t)) ==>
      s.word == 2 || (exists t :: WakerAt(s, t)) || exists t :: ContenderAt(s, t)
  }

  ghost predicate Inv(s: State) { Exclusive(s) && UnlocksSound(s) && NobodyForgotten(s) }

  lemma StepExclusive(s: State, s': State, t: nat)
    requires Inv(s) && Step(s, s', t)
    ensures Exclusive(s') && |s'.threads| == |s.threads|
  {
    forall u | u != t
      ensures OwnerAt(s', u) <==> OwnerAt(s, u)
    {
    }
    if OwnerAt(s', t) && !OwnerAt(s, t) {
      assert s.word == 0;
    }
    if OwnerAt(s, t) {
      assert UnlockSound(s, s.threads[t]);
    }
  }

  lemma StepUnlocks(s: State, s': State, t: nat)
    requires Inv(s) && Step(s, s', t)
    ensures UnlocksSound(s')
  {
    forall u | 0 <= u < |s'.threads|
      ensures UnlockSound(s', s'.threads[u])
    {
      assert UnlockSound(s, s.threads[u]);
      assert UnlockSound(s, s.threads[t]);
      if Owns(s.threads[u]) {
        assert OwnerAt(s, u);
        if u != t && Owns(s.threads[t]) {
          assert OwnerAt(s, t);
        }
      }
    }
  }

  lemma StepForgetsNobody(s: State, s': State, t: nat)
    requires Inv(s) && Step(s, s', t)
    ensures NobodyForgotten(s')
  {
    if exists u :: Sleeps(s', u) {
      var u :| Sleeps(s', u);
      assert u != t ==> Sleeps(s, u);
      if ContenderAt(s', t) || WakerAt(s', t) || s'.word == 2 {
      } else if s.threads[t] == Wake {
        var v :| Sleeps(s, v) && s' == Move(Move(s, t, Outside), v, TryAgain);
        assert ContenderAt(s', v);
      } else if s.word == 2 {
        assert UnlockSound(s, s.threads[t]);
      } else if exists v :: WakerAt(s, v) {
        var v :| WakerAt(s, v);
        assert WakerAt(s', v);
      } else {
        var v :| ContenderAt(s, v);
        assert ContenderAt(s', v);
      }
    }
  }

  lemma StepKeepsInv(s: State, s': State, t: nat)
    requires Inv(s) && Step(s, s', t)
    ensures Inv(s')
  {
    StepExclusive(s, s', t);
    StepUnlocks(s, s', t);
    StepForgetsNobody(s, s', t);
  }

  // ---------------------------------------------------------------- the guarantees

  /** A thread that holds the lock and will owe a wake, owes one, or is awake in the retry loop. */
  predicate KeepsAwake(s: State, u: nat) {
    (s.word == 2 && OwnerAt(s, u)) || WakerAt(s, u) || ContenderAt(s, u)
  }

  lemma {:induction false} ReachableInv(states: seq<State>, who: seq<nat>, i: nat)
    requires Run(states, who) && i < |states|
    ensures Inv(states[i])
  {
    if i > 0 {
      ReachableInv(states, who, i - 1);
      StepKeepsInv(states[i - 1], states[i], who[i - 1]);
    }
  }

  /** At no point of any run do two threads hold the lock. */
  lemma MutualExclusion(states: seq<State>, who: seq<nat>, i: nat, t: nat, u: nat)
    requires Run(states, who) && i < |states| && t < |states[i].threads| && u < |states[i].threads|
    requires Owns(states[i].threads[t]) && Owns(states[i].threads[u])
    ensures t == u
  {
    ReachableInv(states, who, i);
    assert OwnerAt(states[i], t) && OwnerAt(states[i], u);
  }

  /** While a thread sleeps some other thread holds the lock with the word at 2, so that it will owe a wake, or
      owes one already, or is awake in the retry loop: the threads are never all asleep. */
  lemma NeverAllAsleep(states: seq<State>, who: seq<nat>, i: nat, t: nat)
    requires Run(states, who) && i < |states| && Sleeps(states[i], t)
    ensures exists u :: u != t && KeepsAwake(states[i], u)
  {
    ReachableInv(states, who, i);
    var s := states[i];
    if s.word == 2 {
      var u :| OwnerAt(s, u);
      assert u != t && KeepsAwake(s, u);
    } else if exists u :: WakerAt(s, u) {
      var u :| WakerAt(s, u);
      assert u != t && KeepsAwake(s, u);
    } else {
      var u :| ContenderAt(s, u);
      assert u != t && KeepsAwake(s, u);
    }
  }

  /** The compare-and-swap of an unlock fails at most once. */
  lemma UnlockRetriesOnce(states: seq<State>, who: seq<nat>, i: nat, t: nat)
    requires Run(states, who) && i < |who| && t == who[i] < |states[i].threads| && states[i].threads[t].Release?
    requires states[i].threads[t].retries > 0
    ensures states[i + 1].threads[t] == Wake && states[i + 1].word == 0
  {
    ReachableInv(states, who, i);
    assert UnlockSound(states[i], states[i].threads[t]);
  }

  /** A lock without a mark of contention is given back by compare-and-swap alone. */
  lemma NoWakeWithoutContention(states: seq<State>, who: seq<nat>, i: nat, t: nat)
    requires Run(states, who) && i < |who| && t == who[i] < |states[i].threads| && states[i].threads[t].Release?
    requires states[i].word == 1
    ensures states[i + 1].threads[t] == Outside && states[i + 1].word == 0
  {
    ReachableInv(states, who, i);
    assert UnlockSound(states[i], states[i].threads[t]);
  }

  // ---------------------------------------------------------------- whole calls

  /** A thread makes its steps while the others rest. */
  ghost predicate Alone(states: seq<State>, t: nat) {
    forall i :: 0 <= i < |states| - 1 ==> Step(states[i], states[i + 1], t)
  }

  /** A free lock is taken with the word at 1 and given back without a wake: five steps later all is as before. */
  lemma UncontendedLock(states: seq<State>, t: nat)
    requires Alone(states, t) && |states| == 6
    requires t < |states[0].threads| && states[0].threads[t] == Outside && states[0].word == 0
    ensures states[2] == Move(states[0], t, Inside).(word := 1)
    ensures states[5] == states[0]
  {
    var s := states[0];
    assert Step(states[0], states[1], t);
    assert states[1] == Move(s, t, TryLock);
    assert Step(states[1], states[2], t);
    assert states[2] == Move(s, t, Inside).(word := 1);
    assert Step(states[2], states[3], t);
    assert states[3] == Move(s, t, ReadWord(0)).(word := 1);
    assert Step(states[3], states[4], t);
    assert states[4] == Move(s, t, Release(1, 0)).(word := 1);
    assert Step(states[4], states[5], t);
    assert states[5].threads == s.threads;
  }

  /** Who finds the lock taken marks it with 2 and sleeps. */
  lemma ContendedLock(states: seq<State>, t: nat)
    requires Alone(states, t) && |states| == 5
    requires t < |states[0].threads| && states[0].threads[t] == Outside && (states[0].word == 1 || states[0].word == 2)
    ensures states[4] == Move(states[0], t, Asleep).(word := 2)
  {
    var s := states[0];
    assert Step(states[0], states[1], t);
    assert states[1] == Move(s, t, TryLock);
    assert Step(states[1], states[2], t);
    assert states[2] == Move(s, t, Announce);
    assert Step(states[2], states[3], t);
    assert states[3] == Move(s, t, Wait).(word := 2);
    assert Step(states[3], states[4], t);
  }

  /** A lock marked with 2 is handed over: the owner gives it back and wakes the sleeper, which takes it and
      leaves the mark for those that may still sleep. */
  lemma HandOver(states: seq<State>, after: State, t: nat, u: nat)
    requires Alone(states, t) && |states| == 5
    requires t < |states[0].threads| && states[0].threads[t] == Inside && states[0].word == 2
    requires Sleeps(states[0], u) && forall v :: Sleeps(states[0], v) ==> v == u
    requires Step(states[4], after, u)
    ensures states[4] == Move(Move(states[0], t, Outside), u, TryAgain).(word := 0)
    ensures after == Move(Move(states[0], t, Outside), u, Inside)
  {
    var s := states[0];
    assert Step(states[0], states[1], t);
    assert states[1] == Move(s, t, ReadWord(0));
    assert Step(states[1], states[2], t);
    assert states[2] == Move(s, t, Release(2, 0));
    assert Step(states[2], states[3], t);
    assert states[3] == Move(s, t, Wake).(word := 0);
    forall v
      ensures Sleeps(states[3], v) <==> v == u
    {
      assert Sleeps(states[3], v) <==> Sleeps(s, v);
    }
    assert Step(states[3], states[4], t);
    assert states[4] == Move(Move(s, t, Outside), u, TryAgain).(word := 0);
  }
}
