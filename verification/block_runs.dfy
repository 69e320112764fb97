/**
 * Concurrent submissions of blocks to the node: a task marks the block's hash, sends the
 * block, and takes the mark back if the node did not accept it.
 */
module BlockRuns {
  import opened SubmitGuards

  datatype Sending = Sending(hash: string, since: nat)

  datatype System = System(guard: Guard<()>, sending: map<nat, Sending>)

  /** `Refuse` takes the mark back, `Settle` leaves it. */
  datatype Event =
    | Begin(task: nat, hash: string, now: nat)
    | Refuse(task: nat, hash: string, now: nat)
    | Settle(task: nat, hash: string)

  predicate Enabled(s: System, e: Event) {
    if e.Begin? then e.task !in s.sending else e.task in s.sending && s.sending[e.task].hash == e.hash
  }

  predicate Marks(b: Bounds, s: System, e: Event) {
    e.Begin? && e.hash !in Prune(s.guard, e.now, b).entries
  }

  function After(b: Bounds, s: System, e: Event): System {
    match e
    case Begin(t, hash, now) =>
      System(AfterBlockOp(b, s.guard, TryMark(hash, now)),
             if Marks(b, s, e) then s.sending[t := Sending(hash, now)] else s.sending)
    case Refuse(t, hash, now) => System(AfterBlockOp(b, s.guard, BlockOp.Remove(hash, now)), s.sending - {t})
    case Settle(t, _) => System(s.guard, s.sending - {t})
  }

  datatype RpcReply = BlockAccepted | BlockRejected | Failed(text: string)

  predicate Contains(s: string, t: string) {
    t <= s || (s != "" && Contains(s[1..], t))
  }

  predicate IsDuplicate(text: string) {
    Contains(text, "ErrDuplicateBlock") || Contains(text, "duplicate")
  }

  /** A failure is given a context first, and shows that instead of its own text. */
  function Shown(text: string): string {
    "Failed to submit block"
  }

  function Ending(reply: RpcReply, task: nat, hash: string, now: nat): Event {
    match reply
    case BlockAccepted => Settle(task, hash)
    case BlockRejected => Refuse(task, hash, now)
    case Failed(text) => if IsDuplicate(Shown(text)) then Settle(task, hash) else Refuse(task, hash, now)
  }

  lemma {:induction false} NoSuchChar(s: string, t: string, c: char)
    requires c in t && c !in s
    ensures !Contains(s, t)
  {
    if s != "" {
      NoSuchChar(s[1..], t, c);
    }
  }

  /** So no failure is taken for a duplicate: the mark stays exactly if the node accepted the block. */
  lemma MarkStaysIffAccepted(reply: RpcReply, task: nat, hash: string, now: nat)
    ensures Ending(reply, task, hash, now).Settle? <==> reply.BlockAccepted?
  {
    if reply.Failed? {
      assert "duplicate"[2] == 'p' && "ErrDuplicateBlock"[5] == 'p';
      NoSuchChar(Shown(reply.text), "duplicate", 'p');
      NoSuchChar(Shown(reply.text), "ErrDuplicateBlock", 'p');
    }
  }

  /** `submit_block`, around the call to the node. */
  method SubmitBlock(guard: SubmitGuard<()>, hash: string, started: nat, reply: RpcReply, finished: nat)
    returns (sent: bool)
    modifies guard
    ensures var b, s, begin := guard.bounds, System(old(guard.State()), map[]), Begin(0, hash, started);
            && (sent <==> Marks(b, s, begin))
            && (!sent ==> guard.State() == After(b, s, begin).guard)
            && (sent ==> guard.State() == After(b, After(b, s, begin), Ending(reply, 0, hash, finished)).guard)
  {
    sent := guard.TryMark(hash, started, ());
    if !sent {
      return;
    }
    if reply.Failed? {
      var errorText := Shown(reply.text);
      if !IsDuplicate(errorText) {
        guard.Remove(hash, finished);
      }
    }
    if reply.BlockRejected? {
      guard.Remove(hash, finished);
    }
  }

  /** No call to the node takes longer than the retention time, and nothing is evicted for capacity. */
  ghost predicate Timely(b: Bounds, s: System, e: Event) {
    !e.Settle? ==>
      && (forall t :: t in s.sending ==> Since(e.now, s.sending[t].since) <= b.ttl)
      && |Expire(s.guard, e.now, b.ttl).entries| <= b.maxEntries
  }

  ghost predicate Run(b: Bounds, states: seq<System>, events: seq<Event>) {
    && |states| == |events| + 1 && states[0] == System(Guard(map[], []), map[])
    && forall i :: 0 <= i < |events| ==>
         && Enabled(states[i], events[i]) && Timely(b, states[i], events[i])
         && states[i + 1] == After(b, states[i], events[i])
  }

  /** What is being sent is marked, and no block is being sent twice. */
  ghost predicate Inv(s: System) {
    && (forall t :: t in s.sending ==>
          s.sending[t].hash in s.guard.entries && s.guard.entries[s.sending[t].hash].ts == s.sending[t].since)
    && (forall t, t' :: t in s.sending && t' in s.sending && s.sending[t].hash == s.sending[t'].hash ==> t == t')
  }

  lemma StepKeepsInv(b: Bounds, s: System, e: Event)
    requires Inv(s) && Enabled(s, e) && Timely(b, s, e)
    ensures Inv(After(b, s, e))
  {
    if !e.Settle? {
      ExpireKeeps(s.guard, e.now, b.ttl);
    }
  }

  lemma {:induction false} RunKeepsInv(b: Bounds, states: seq<System>, events: seq<Event>, n: nat)
    requires Run(b, states, events) && n <= |events|
    ensures Inv(states[n])
  {
    if n > 0 {
      RunKeepsInv(b, states, events, n - 1);
      StepKeepsInv(b, states[n - 1], events[n - 1]);
    }
  }

  /** In every interleaving no block is being sent by two tasks at a time. */
  lemma OneSubmissionPerBlock(b: Bounds, states: seq<System>, events: seq<Event>, n: nat, t: nat, t': nat)
    requires Run(b, states, events) && n <= |events|
    requires t in states[n].sending && t' in states[n].sending
    requires states[n].sending[t].hash == states[n].sending[t'].hash
    ensures t == t'
  {
    RunKeepsInv(b, states, events, n);
  }

  /** The event ends the hold of the mark that was set at `since`: its own task takes it back, or its time is over. */
  predicate Frees(b: Bounds, e: Event, task: nat, hash: string, since: nat) {
    || (e.Refuse? && e.task == task && e.hash == hash)
    || (!e.Settle? && Since(e.now, since) > b.ttl)
  }

  /** Until then the mark stays, and nobody else sends the block. */
  lemma {:induction false} MarkStays(b: Bounds, states: seq<System>, events: seq<Event>, i: nat, n: nat)
    requires Run(b, states, events) && i < n <= |events| && Marks(b, states[i], events[i])
    requires forall l :: i < l < n ==> !Frees(b, events[l], events[i].task, events[i].hash, events[i].now)
    ensures events[i].hash in states[n].guard.entries && states[n].guard.entries[events[i].hash].ts == events[i].now
    ensures forall t :: t in states[n].sending && states[n].sending[t].hash == events[i].hash ==> t == events[i].task
  {
    RunKeepsInv(b, states, events, n);
    assert Enabled(states[n - 1], events[n - 1]) && states[n] == After(b, states[n - 1], events[n - 1]);
    if n == i + 1 {
      assert events[i].task in states[n].sending;
    } else {
      MarkStays(b, states, events, i, n - 1);
      MarkSurvives(b, states[n - 1], events[n - 1], events[i].task, events[i].hash, events[i].now);
    }
  }

  lemma MarkSurvives(b: Bounds, s: System, e: Event, task: nat, hash: string, since: nat)
    requires Enabled(s, e) && Timely(b, s, e) && !Frees(b, e, task, hash, since)
    requires hash in s.guard.entries && s.guard.entries[hash].ts == since
    requires forall t :: t in s.sending && s.sending[t].hash == hash ==> t == task
    ensures !Marks(b, s, e) || e.hash != hash
    ensures hash in After(b, s, e).guard.entries && After(b, s, e).guard.entries[hash].ts == since
    ensures forall t :: t in After(b, s, e).sending && After(b, s, e).sending[t].hash == hash ==> t == task
  {
    if !e.Settle? {
      ExpireKeeps(s.guard, e.now, b.ttl);
    }
  }

  /**
   * A block is sent again only after the task that sent it took its own mark back, the node
   * not having accepted it, or after a call more than the retention time later.
   */
  lemma SentTwice(b: Bounds, states: seq<System>, events: seq<Event>, i: nat, j: nat)
    requires Run(b, states, events) && i < j < |events| && events[i].hash == events[j].hash
    requires Marks(b, states[i], events[i]) && Marks(b, states[j], events[j])
    ensures exists l :: i < l <= j && Frees(b, events[l], events[i].task, events[i].hash, events[i].now)
  {
    if forall l :: i < l <= j ==> !Frees(b, events[l], events[i].task, events[i].hash, events[i].now) {
      MarkStays(b, states, events, i, j);
      MarkSurvives(b, states[j], events[j], events[i].task, events[i].hash, events[i].now);
      assert false;
    }
  }
}
