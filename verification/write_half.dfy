/**
 * The write half of a client's socket. A writer takes a try-lock, takes the half out of its
 * slot, writes, puts the half back and releases the lock, trying up to three times; a
 * disconnect takes the half out of the slot for good. All steps of any number of writers
 * and disconnects interleave.
 */
module WriteHalf {

  datatype WriteResult = Written | Failed | TimedOut

  /** Where a task stands in `write_data` or in `disconnect`. */
  datatype Pc =
    | WriterStart
    | TryLock(attempt: nat)
    | Locked(attempt: nat)
    | FoundEmpty
    | Writing(attempt: nat)
    | PutBack(attempt: nat, result: WriteResult)
    | Release(attempt: nat, result: WriteResult)
    | WriterDone(ok: bool)
    | DisconnectStart
    | DisconnectTake
    | DisconnectDone

  /** `slot`: the half is in its slot. `closed`: a disconnect has taken it. */
  datatype State = State(disconnecting: bool, writeLock: bool, slot: bool, closed: bool, tasks: map<nat, Pc>)

  const CONNECTED := State(false, false, true, false, map[])

  predicate InCritical(pc: Pc) {
    pc.Locked? || pc.FoundEmpty? || pc.Writing? || pc.PutBack? || pc.Release?
  }

  predicate HoldsHalf(pc: Pc) {
    pc.Writing? || pc.PutBack?
  }

  predicate IsDone(pc: Pc) {
    pc.WriterDone? || pc.DisconnectDone?
  }

  function At(s: State, t: nat, pc: Pc): State {
    s.(tasks := s.tasks[t := pc])
  }

  /** What follows a release: done, another attempt, or giving up. */
  function AfterRelease(attempt: nat, result: WriteResult): Pc {
    match result
    case Written => WriterDone(true)
    case Failed => WriterDone(false)
    case TimedOut => if attempt < 2 then TryLock(attempt + 1) else WriterDone(false)
  }

  ghost predicate Step(s: State, t: nat, s': State) {
    if t !in s.tasks then s' == At(s, t, WriterStart) || s' == At(s, t, DisconnectStart)
    else
      match s.tasks[t]
      case WriterStart => s' == At(s, t, if s.disconnecting then WriterDone(false) else TryLock(0))
      case TryLock(a) =>
        if a >= 3 then s' == At(s, t, WriterDone(false))
        else if s.writeLock then s' == At(s, t, TryLock(a + 1))
        else s' == At(s.(writeLock := true), t, Locked(a))
      case Locked(a) =>
        if s.slot then s' == At(s.(slot := false), t, Writing(a)) else s' == At(s, t, FoundEmpty)
      case FoundEmpty => s' == At(s.(writeLock := false), t, WriterDone(false))
      case Writing(a) => exists r :: s' == At(s, t, PutBack(a, r))
      case PutBack(a, r) => s' == At(s.(slot := true), t, Release(a, r))
      case Release(a, r) => s' == At(s.(writeLock := false), t, AfterRelease(a, r))
      case DisconnectStart =>
        s' == At(s.(disconnecting := true), t, if s.disconnecting then DisconnectDone else DisconnectTake)
      case DisconnectTake => s' == At(s.(slot := false, closed := s.closed || s.slot), t, DisconnectDone)
      case _ => false
  }

  ghost predicate Run(states: seq<State>, tasks: seq<nat>) {
    && |states| == |tasks| + 1 && states[0] == CONNECTED
    && forall i :: 0 <= i < |tasks| ==> Step(states[i], tasks[i], states[i + 1])
  }

  ghost predicate Held(s: State) {
    exists t :: t in s.tasks && HoldsHalf(s.tasks[t])
  }

  ghost predicate Entered(s: State) {
    exists t :: t in s.tasks && InCritical(s.tasks[t])
  }

  /** The lock is taken exactly while one task is inside. */
  ghost predicate LockInv(s: State) {
    && (s.writeLock <==> Entered(s))
    && (forall t, t' :: t in s.tasks && t' in s.tasks && InCritical(s.tasks[t]) && InCritical(s.tasks[t']) ==> t == t')
  }

  /** The half is in exactly one of three places, and an empty slot under the lock is a disconnect's doing. */
  ghost predicate HalfInv(s: State) {
    && (s.slot ==> !Held(s) && !s.closed)
    && (s.closed ==> !Held(s))
    && (s.slot || s.closed || Held(s))
    && (forall t :: t in s.tasks && s.tasks[t].FoundEmpty? ==> s.closed)
  }

  /** At most one disconnect goes on to take the half. */
  ghost predicate DisconnectInv(s: State) {
    && (s.closed ==> s.disconnecting)
    && (forall t :: t in s.tasks && s.tasks[t].DisconnectTake? ==> s.disconnecting && !s.closed)
    && (forall t, t' :: t in s.tasks && t' in s.tasks && s.tasks[t].DisconnectTake? && s.tasks[t'].DisconnectTake? ==>
          t == t')
  }

  ghost predicate Inv(s: State) {
    LockInv(s) && HalfInv(s) && DisconnectInv(s)
  }

  /** A step moves its own task and no other. */
  ghost predicate MovesOnly(s: State, t: nat, s': State) {
    t in s'.tasks && s'.tasks == s.tasks[t := s'.tasks[t]]
  }

  /** How it moves into and out of the critical section. */
  ghost predicate MovesLock(s: State, t: nat, s': State)
    requires t in s'.tasks
  {
    var was, is_ := t in s.tasks && InCritical(s.tasks[t]), InCritical(s'.tasks[t]);
    && (was == is_ ==> s'.writeLock == s.writeLock)
    && (was && !is_ ==> !s'.writeLock)
    && (!was && is_ ==> !s.writeLock && s'.writeLock)
  }

  /** How it moves the half. */
  ghost predicate MovesHalf(s: State, t: nat, s': State)
    requires t in s'.tasks
  {
    var was, is_ := t in s.tasks && HoldsHalf(s.tasks[t]), HoldsHalf(s'.tasks[t]);
    && (was == is_ ==>
          || (s'.slot == s.slot && s'.closed == s.closed)
          || (!s'.slot && s'.closed == (s.closed || s.slot)))
    && (was && !is_ ==> s'.slot && s'.closed == s.closed)
    && (!was && is_ ==> s.slot && !s'.slot && s'.closed == s.closed)
    && (s'.tasks[t].FoundEmpty? ==> t in s.tasks && s.tasks[t].Locked? && !s.slot && s'.closed == s.closed)
  }

  lemma StepMovesOnly(s: State, t: nat, s': State)
    requires Step(s, t, s')
    ensures MovesOnly(s, t, s')
  {
  }

  lemma StepMovesLock(s: State, t: nat, s': State)
    requires Step(s, t, s') && t in s'.tasks
    ensures MovesLock(s, t, s')
  {
  }

  lemma StepMovesHalf(s: State, t: nat, s': State)
    requires Step(s, t, s') && t in s'.tasks
    ensures MovesHalf(s, t, s')
  {
    if t in s.tasks {
      match s.tasks[t]
      case Locked(_) =>
      case Writing(_) =>
      case PutBack(_, _) =>
      case DisconnectTake =>
      case _ =>
    }
  }

  lemma KeepsLock(s: State, t: nat, s': State)
    requires LockInv(s) && MovesOnly(s, t, s') && MovesLock(s, t, s')
    ensures LockInv(s')
  {
    if Entered(s) {
      var u :| u in s.tasks && InCritical(s.tasks[u]);
      assert u != t ==> InCritical(s'.tasks[u]);
    }
    assert InCritical(s'.tasks[t]) ==> Entered(s');
  }

  lemma KeepsHalf(s: State, t: nat, s': State)
    requires LockInv(s) && HalfInv(s) && MovesOnly(s, t, s') && MovesHalf(s, t, s')
    ensures HalfInv(s')
  {
    if Held(s) {
      var u :| u in s.tasks && HoldsHalf(s.tasks[u]);
      assert u != t ==> HoldsHalf(s'.tasks[u]);
    }
    assert HoldsHalf(s'.tasks[t]) ==> Held(s');
    assert forall u :: u != t && u in s'.tasks && HoldsHalf(s'.tasks[u]) ==> u in s.tasks && HoldsHalf(s.tasks[u]);
  }

  lemma KeepsDisconnect(s: State, t: nat, s': State)
    requires HalfInv(s) && DisconnectInv(s) && Step(s, t, s')
    ensures DisconnectInv(s')
  {
    StepMovesOnly(s, t, s');
  }

  lemma StepKeepsInv(s: State, t: nat, s': State)
    requires Inv(s) && Step(s, t, s')
    ensures Inv(s')
  {
    StepMovesOnly(s, t, s');
    StepMovesLock(s, t, s');
    StepMovesHalf(s, t, s');
    KeepsLock(s, t, s');
    KeepsHalf(s, t, s');
    KeepsDisconnect(s, t, s');
  }

  /** In every run at most one task is inside, the half is in one place, and the lock is never left behind. */
  lemma {:induction false} RunKeepsInv(states: seq<State>, tasks: seq<nat>, n: nat)
    requires Run(states, tasks) && n <= |tasks|
    ensures Inv(states[n])
  {
    if n > 0 {
      RunKeepsInv(states, tasks, n - 1);
      StepKeepsInv(states[n - 1], tasks[n - 1], states[n]);
    }
  }

  /** When all tasks are done the lock is free, and the half is in its slot or closed. */
  lemma Quiescent(states: seq<State>, tasks: seq<nat>, n: nat)
    requires Run(states, tasks) && n <= |tasks|
    requires forall t :: t in states[n].tasks ==> IsDone(states[n].tasks[t])
    ensures !states[n].writeLock && (states[n].slot <==> !states[n].closed)
  {
    RunKeepsInv(states, tasks, n);
  }

  /** Putting the half back never overwrites one: the slot is empty then. */
  lemma PutBackIntoEmptySlot(states: seq<State>, tasks: seq<nat>, n: nat, t: nat)
    requires Run(states, tasks) && n <= |tasks|
    requires t in states[n].tasks && states[n].tasks[t].PutBack?
    ensures !states[n].slot && !states[n].closed
  {
    RunKeepsInv(states, tasks, n);
  }

  /**
   * The one disconnect that gets to take the half closes it exactly when no writer has it
   * out. A writer that does puts it back into the slot, where no later call closes it.
   */
  lemma DisconnectCloses(states: seq<State>, tasks: seq<nat>, n: nat)
    requires Run(states, tasks) && n < |tasks|
    requires tasks[n] in states[n].tasks && states[n].tasks[tasks[n]].DisconnectTake?
    ensures states[n + 1].closed <==> !Held(states[n])
  {
    RunKeepsInv(states, tasks, n);
    assert Step(states[n], tasks[n], states[n + 1]);
  }

  ghost predicate Reaches(s: State) {
    exists states: seq<State>, tasks: seq<nat> :: Run(states, tasks) && states[|tasks|] == s
  }

  lemma ReachesNext(s: State, t: nat, s': State)
    requires Reaches(s) && Step(s, t, s')
    ensures Reaches(s')
  {
    var states: seq<State>, tasks: seq<nat> :| Run(states, tasks) && states[|tasks|] == s;
    var states', tasks' := states + [s'], tasks + [t];
    forall i | 0 <= i < |tasks'| ensures Step(states'[i], tasks'[i], states'[i + 1]) {
      if i < |tasks| {
        assert states'[i] == states[i] && states'[i + 1] == states[i + 1] && tasks'[i] == tasks[i];
      }
    }
    assert Run(states', tasks') && states'[|tasks'|] == s';
  }

  lemma ReachesWriting(s: State)
    requires s == State(false, true, false, false, map[0 := Writing(0)])
    ensures Reaches(s)
  {
    assert Run([CONNECTED], []) && [CONNECTED][0] == CONNECTED;
    var s1 := At(CONNECTED, 0, WriterStart);
    var s2 := At(s1, 0, TryLock(0));
    var s3 := At(s2.(writeLock := true), 0, Locked(0));
    ReachesNext(CONNECTED, 0, s1);
    ReachesNext(s1, 0, s2);
    ReachesNext(s2, 0, s3);
    assert s3.tasks[0 := Writing(0)] == s.tasks;
    ReachesNext(s3, 0, s);
  }

  /** Such a run exists: a write is under way when the disconnect comes, and the half is left in its slot. */
  lemma LeftOpen() returns (last: State)
    ensures Reaches(last) && last.disconnecting && last.slot && !last.closed
    ensures forall t :: t in last.tasks ==> IsDone(last.tasks[t])
  {
    var s4 := State(false, true, false, false, map[0 := Writing(0)]);
    ReachesWriting(s4);
    var s5 := At(s4, 1, DisconnectStart);
    var s6 := At(s5.(disconnecting := true), 1, DisconnectTake);
    var s7 := At(s6, 1, DisconnectDone);
    var s8 := At(s7, 0, PutBack(0, Written));
    var s9 := At(s8.(slot := true), 0, Release(0, Written));
    last := At(s9.(writeLock := false), 0, WriterDone(true));
    ReachesNext(s4, 1, s5);
    ReachesNext(s5, 1, s6);
    ReachesNext(s6, 1, s7);
    ReachesNext(s7, 0, s8);
    ReachesNext(s8, 0, s9);
    ReachesNext(s9, 0, last);
  }

  /** Once a disconnect is under way and has not closed the half, no later writer or disconnect does. */
  lemma {:induction false} StaysOpen(states: seq<State>, tasks: seq<nat>, i: nat, n: nat)
    requires Run(states, tasks) && i <= n <= |tasks|
    requires states[i].disconnecting && !states[i].closed
    requires forall t :: t in states[i].tasks ==> !states[i].tasks[t].DisconnectTake?
    ensures states[n].disconnecting && !states[n].closed
    ensures forall t :: t in states[n].tasks ==> !states[n].tasks[t].DisconnectTake?
  {
    if i < n {
      StaysOpen(states, tasks, i, n - 1);
      assert Step(states[n - 1], tasks[n - 1], states[n]);
    }
  }

  // ---------- what a writer reports ----------

  /** How often a task has written, over the first `n` steps of a run. */
  ghost function Writes(states: seq<State>, tasks: seq<nat>, t: nat, n: nat): nat
    requires Run(states, tasks) && n <= |tasks|
  {
    if n == 0 then 0
    else
      Writes(states, tasks, t, n - 1) + if tasks[n - 1] == t && IsWriting(states[n - 1], t) then 1 else 0
  }

  /** A write of the task has succeeded in the first `n` steps. */
  ghost predicate HasWritten(states: seq<State>, tasks: seq<nat>, t: nat, n: nat)
    requires Run(states, tasks) && n <= |tasks|
  {
    exists i :: 0 <= i <= n && JustWritten(states[i], t)
  }

  /** The attempts that a task has behind it, at most. */
  function Tries(pc: Pc): nat {
    match pc
    case WriterStart => 0
    case TryLock(a) => a
    case Locked(a) => a
    case Writing(a) => a
    case PutBack(a, _) => a + 1
    case Release(a, _) => a + 1
    case _ => 3
  }

  /** What its position says of what a writer has done. */
  predicate Shows(pc: Pc, written: bool) {
    match pc
    case PutBack(_, r) => r == Written <==> written
    case Release(_, r) => r == Written <==> written
    case WriterDone(ok) => ok <==> written
    case _ => !written
  }

  /** A step of a task, in its own position alone. */
  predicate Follows(pc: Pc, pc': Pc) {
    match pc
    case WriterStart => pc' == TryLock(0) || pc' == WriterDone(false)
    case TryLock(a) => if a >= 3 then pc' == WriterDone(false) else pc' == TryLock(a + 1) || pc' == Locked(a)
    case Locked(a) => pc' == Writing(a) || pc' == FoundEmpty
    case FoundEmpty => pc' == WriterDone(false)
    case Writing(a) => pc'.PutBack? && pc'.attempt == a
    case PutBack(a, r) => pc' == Release(a, r)
    case Release(a, r) => pc' == AfterRelease(a, r)
    case DisconnectStart => pc'.DisconnectTake? || pc'.DisconnectDone?
    case DisconnectTake => pc'.DisconnectDone?
    case _ => false
  }

  lemma StepFollows(s: State, t: nat, s': State)
    requires Step(s, t, s') && t in s'.tasks
    ensures if t in s.tasks then Follows(s.tasks[t], s'.tasks[t])
            else s'.tasks[t].WriterStart? || s'.tasks[t].DisconnectStart?
  {
    if t in s.tasks {
      match s.tasks[t]
      case TryLock(_) =>
      case Locked(_) =>
      case Writing(_) =>
      case _ =>
    }
  }

  /** The attempts are counted, and the outcome of the last one is not forgotten. */
  lemma FollowsShows(pc: Pc, pc': Pc, written: bool)
    requires Follows(pc, pc') && Inside(pc) && Shows(pc, written)
    ensures Inside(pc') && Tries(pc) + (if pc.Writing? then 1 else 0) <= Tries(pc') <= 3
    ensures Shows(pc', written || (pc'.PutBack? && pc'.result == Written))
  {
  }

  /** Attempts are numbered from zero to two. */
  predicate Inside(pc: Pc) {
    match pc
    case TryLock(a) => a <= 3
    case Locked(a) => a < 3
    case Writing(a) => a < 3
    case PutBack(a, _) => a < 3
    case Release(a, _) => a < 3
    case _ => true
  }

  /** How a task's position goes with the number of its writes and with whether one succeeded. */
  predicate Matches(s: State, t: nat, writes: nat, written: bool) {
    if t in s.tasks then
      var pc := s.tasks[t];
      Inside(pc) && writes <= Tries(pc) <= 3 && Shows(pc, written)
    else writes == 0 && !written
  }

  predicate IsWriting(s: State, t: nat) {
    t in s.tasks && s.tasks[t].Writing?
  }

  predicate JustWritten(s: State, t: nat) {
    t in s.tasks && s.tasks[t].PutBack? && s.tasks[t].result == Written
  }

  lemma StepMatches(s: State, mover: nat, s': State, t: nat, writes: nat, written: bool, writes': nat, written': bool)
    requires Step(s, mover, s') && Matches(s, t, writes, written)
    requires writes' == writes + if mover == t && IsWriting(s, t) then 1 else 0
    requires written' == (written || JustWritten(s', t))
    ensures Matches(s', t, writes', written')
  {
    StepMovesOnly(s, mover, s');
    StepFollows(s, mover, s');
    if mover == t && t in s.tasks {
      FollowsShows(s.tasks[t], s'.tasks[t], written);
    }
  }

  lemma {:induction false} WriterHistory(states: seq<State>, tasks: seq<nat>, t: nat, n: nat)
    requires Run(states, tasks) && n <= |tasks|
    ensures Matches(states[n], t, Writes(states, tasks, t, n), HasWritten(states, tasks, t, n))
  {
    if n > 0 {
      WriterHistory(states, tasks, t, n - 1);
      WrittenBefore(states, tasks, t, n);
      StepMatches(states[n - 1], tasks[n - 1], states[n], t,
                  Writes(states, tasks, t, n - 1), HasWritten(states, tasks, t, n - 1),
                  Writes(states, tasks, t, n), HasWritten(states, tasks, t, n));
    }
  }

  lemma WrittenBefore(states: seq<State>, tasks: seq<nat>, t: nat, n: nat)
    requires Run(states, tasks) && 0 < n <= |tasks|
    ensures HasWritten(states, tasks, t, n) <==>
            HasWritten(states, tasks, t, n - 1) || JustWritten(states[n], t)
  {
  }

  /** A writer reports success exactly when one of its writes succeeded, and it writes at most three times. */
  lemma ReportsWhatItDid(states: seq<State>, tasks: seq<nat>, t: nat, n: nat)
    requires Run(states, tasks) && n <= |tasks| && t in states[n].tasks && states[n].tasks[t].WriterDone?
    ensures states[n].tasks[t].ok <==> HasWritten(states, tasks, t, n)
    ensures Writes(states, tasks, t, n) <= 3
  {
    WriterHistory(states, tasks, t, n);
  }
}
