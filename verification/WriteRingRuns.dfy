/** Whole runs of `WriteRingProtocol`: every write comes out in one piece (apps/sysbus/lib_src/multiplex_io.c:158-195,
    285-337, 617-635). */
module WriteRingRuns {
  import opened Bytes
  import opened WriteRing
  import opened WriteRingProtocol

  /** The writes whose index was stored in the first `n` steps, in that order. */
  ghost function Writes(states: seq<State>, events: seq<Event>, n: nat): seq<seq<Byte>>
    requires n <= |events| < |states|
  {
    if n == 0 then []
    else
      var before := Writes(states, events, n - 1);
      if events[n - 1].StoreEvent? && states[n - 1].writer.Copying? then before + [states[n - 1].writer.bytes]
          else before
  }

  /** The first `n` of some messages, one after the other. */
  function ConcatTo(ms: seq<seq<Byte>>, n: nat): seq<Byte>
    requires n <= |ms|
  {
    if n == 0 then [] else ConcatTo(ms, n - 1) + ms[n - 1]
  }

  function Concat(ms: seq<seq<Byte>>): seq<Byte> {
    ConcatTo(ms, |ms|)
  }

  lemma {:induction false} ConcatPrefix(ms: seq<seq<Byte>>, m: seq<Byte>, n: nat)
    requires n <= |ms|
    ensures ConcatTo(ms + [m], n) == ConcatTo(ms, n)
  {
    if n > 0 {
      ConcatPrefix(ms, m, n - 1);
    }
  }

  lemma {:induction false} ConcatMore(ms: seq<seq<Byte>>, m: seq<Byte>)
    ensures Concat(ms + [m]) == Concat(ms) + m
  {
    ConcatPrefix(ms, m, |ms|);
  }

  /** The bytes of a write that is being copied were entered at step `j`, when there was room for all of them,
      and no other write has come in between. */
  ghost predicate EnteredAt(states: seq<State>, events: seq<Event>, i: nat, j: nat, bytes: seq<Byte>) {
    && j < i < |states| == |events| + 1 && events[j] == EnterEvent(bytes)
    && |bytes| <= FreeSize(|states[j].mem|, states[j].rIdx, states[j].wIdx)
    && forall k :: j < k <= i ==> states[k].writer.Copying? && states[k].writer.bytes == bytes
  }

  lemma {:induction false} Entered(states: seq<State>, events: seq<Event>, i: nat) returns (j: nat)
    requires Run(states, events) && i < |states| && states[i].writer.Copying?
    ensures EnteredAt(states, events, i, j, states[i].writer.bytes)
    decreases i
  {
    assert i > 0;
    var e := events[i - 1];
    assert Step(states[i - 1], e, states[i]);
    if e.EnterEvent? {
      j := i - 1;
    } else {
      j := Entered(states, events, i - 1);
    }
  }

  /** What is accepted grows by a stored write, and by nothing else. */
  ghost predicate Accepts(s: State, e: Event, s': State) {
    if e.StoreEvent? then s.writer.Copying? && s'.accepted == s.accepted + s.writer.bytes else s'.accepted == s.accepted
  }

  ghost predicate Accepting(states: seq<State>, events: seq<Event>) {
    && |states| == |events| + 1 && states[0].accepted == []
    && forall i {:trigger events[i]} :: 0 <= i < |events| ==> Accepts(states[i], events[i], states[i + 1])
  }

  lemma {:induction false} RunAccepting(states: seq<State>, events: seq<Event>)
    requires Run(states, events)
    ensures Accepting(states, events)
  {
    forall i | 0 <= i < |events| ensures Accepts(states[i], events[i], states[i + 1]) {
      assert Step(states[i], events[i], states[i + 1]);
    }
  }

  lemma {:induction false} WritesAccepted(states: seq<State>, events: seq<Event>, n: nat)
    requires Accepting(states, events) && n <= |events|
    ensures Concat(Writes(states, events, n)) == states[n].accepted
  {
    if n > 0 {
      WritesAccepted(states, events, n - 1);
      assert Accepts(states[n - 1], events[n - 1], states[n]);
      if events[n - 1].StoreEvent? {
        ConcatMore(Writes(states, events, n - 1), states[n - 1].writer.bytes);
      }
    }
  }

  /** At every point of every run the emitted bytes and what is left in the ring are the stored writes, whole and
      in the order of their storing, and each of them was entered as it is when there was room for it. */
  lemma {:induction false} WholeWrites(states: seq<State>, events: seq<Event>, n: nat)
    requires Run(states, events) && n <= |events|
    ensures Safe(states[n]) && states[n].emitted + Pending(states[n]) == Concat(Writes(states, events, n))
    ensures forall i :: 0 <= i < n && events[i].StoreEvent? ==>
      states[i].writer.Copying? && exists j: nat :: EnteredAt(states, events, i, j, states[i].writer.bytes)
  {
    RunAccepting(states, events);
    WritesAccepted(states, events, n);
    EveryInterleavingSafe(states, events);
    forall i | 0 <= i < n && events[i].StoreEvent?
      ensures states[i].writer.Copying? && exists j: nat :: EnteredAt(states, events, i, j, states[i].writer.bytes)
    {
      assert Step(states[i], events[i], states[i + 1]);
      var j := Entered(states, events, i);
    }
  }
}
