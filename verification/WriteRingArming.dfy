/** When the event mask asks for EPOLLOUT (apps/sysbus/lib_src/multiplex_io.c:285-337): after a round in which the
    thread could write, exactly while there is something left to write. */
module WriteRingArming {
  import opened Bytes
  import opened WriteRing
  import opened WriteRingProtocol

  /** What a round of the thread that began with a wake-up keeps: `writable` and `armed` are what it woke up with. */
  ghost predicate InRound(s: State, writable: bool, armed: bool) {
    Inv(s) &&
    match s.thread
    case Waiting => false
    case Woken(a, w) => w == writable && a == armed
    case Flushed(_, r, w) => writable && (r != w ==> Pending(s) != [])
    case Settled(a) => if writable then a ==> Pending(s) != [] else a == armed
    case _ => writable
  }

  lemma {:induction false} PendingGrows(s: State, s': State)
    requires Inv(s) && Inv(s') && s'.emitted == s.emitted && s.accepted <= s'.accepted
    ensures |Pending(s)| <= |Pending(s')|
  {
  }

  lemma {:induction false} FlushLeaves(s: State, k: nat, s': State)
    requires Inv(s) && Inv(s') && (Flush(s, k, s') || FlushStart(s, k, s')) && s'.thread.Flushed?
    requires s'.thread.r != s'.thread.w
    ensures Pending(s') != []
  {
    EmptyWhenEqual(|s'.mem|, s'.thread.r, s'.wIdx);
  }

  /** Every step but a wake-up and the end of the round keeps it. */
  lemma {:induction false} RoundKeeps(s: State, e: Event, s': State, writable: bool, armed: bool)
    requires InRound(s, writable, armed) && Step(s, e, s') && !e.WakeEvent? && !e.RearmEvent?
    ensures InRound(s', writable, armed)
  {
    StepKeeps(s, e, s');
    match e {
      case FlushEvent(k) =>
        if s'.thread.Flushed? && s'.thread.r != s'.thread.w {
          FlushLeaves(s, k, s');
        }
      case FlushStartEvent(k) =>
        if s'.thread.r != s'.thread.w {
          FlushLeaves(s, k, s');
        }
      case _ => PendingGrows(s, s');
    }
  }

  /** The wake-up `j` with which the round at step `i` began. */
  lemma {:induction false} RoundBegan(states: seq<State>, events: seq<Event>, i: nat) returns (j: nat)
    requires Run(states, events) && i < |states| && states[i].thread != Waiting
    ensures j < i && events[j].WakeEvent? && InRound(states[i], events[j].writable, states[j].armed)
    ensures forall k :: j < k < i ==> !events[k].WakeEvent? && !events[k].RearmEvent?
    decreases i
  {
    assert i > 0;
    var e := events[i - 1];
    assert Step(states[i - 1], e, states[i]);
    RunInv(states, events, i);
    if e.WakeEvent? {
      j := i - 1;
    } else {
      j := RoundBegan(states, events, i - 1);
      RoundKeeps(states[i - 1], e, states[i], events[j].writable, states[j].armed);
    }
  }

  /** At the end of a round: if the thread woke up to write, EPOLLOUT is asked for exactly when the ring is not empty;
      if it woke up for something else, also when it was asked for before. */
  lemma {:induction false} ArmedExactly(states: seq<State>, events: seq<Event>, i: nat) returns (j: nat)
    requires Run(states, events) && i < |events| && events[i].RearmEvent?
    ensures j < i && events[j].WakeEvent? && forall k :: j < k < i ==> !events[k].WakeEvent? && !events[k].RearmEvent?
    ensures var left := states[i + 1].rIdx != states[i + 1].wIdx;
      states[i + 1].armed <==> left || (!events[j].writable && states[j].armed)
  {
    var s := states[i];
    assert Step(s, events[i], states[i + 1]);
    j := RoundBegan(states, events, i);
    EmptyWhenEqual(|s.mem|, s.rIdx, s.wIdx);
  }
}
