/** A reader that pins the queue: over every run of writes, mask changes and reads by anybody,
    it is given every item once, in the order written. */
module RingDelivery {
  import opened Basics
  import opened Bytes
  import opened RingArena
  import opened RingSpec

  datatype Payload = Payload(data: seq<Byte>, header: seq<Byte>)

  /** The queue, the reader's `ringIndex`, what it has been given, and all that was ever written. */
  datatype State = State(q: Queue, next: Option<nat>, got: seq<Payload>, written: seq<Payload>)

  function PayloadOf(e: Entry): Payload {
    Payload(e.data, e.header)
  }

  datatype Event =
    | Write(data: seq<Byte>, header: seq<Byte>)
    | RefusedWrite
    | SetMask(mask: Mask)
    | ClearMask(mask: Mask)
    | OtherRead(slot: nat, mask: Mask)
    | OwnRead(mask: Mask)

  /** `bit` is the reader's own: nobody else clears it. */
  ghost predicate Step(bit: nat, s: State, e: Event, s': State) {
    WellFormed(s.q) && WellFormed(s'.q) && s'.q.slots == s.q.slots &&
    match e
    case Write(d, h) => Wrote(s.q, s'.q, d, h) && s' == s.(q := s'.q, written := s.written + [Payload(d, h)])
    case RefusedWrite => Refused(s.q, s'.q) && s' == s.(q := s'.q)
    case SetMask(m) => s' == s.(q := s.q.(userMask := s.q.userMask + m))
    case ClearMask(m) => bit !in m && s' == s.(q := s.q.(userMask := s.q.userMask - m))
    case OtherRead(slot, m) => slot < s.q.slots && bit !in m && s' == s.(q := AfterRead(s.q, slot, m))
    case OwnRead(m) =>
      (s.next.Some? ==> s.next.value < s.q.slots) &&
      var slot := StartSlot(s.q, s.next, true);
      match ReadAt(s.q, slot)
      case ReadOk(en, n) => s' == s.(q := AfterRead(s.q, slot, m), next := Some(n), got := s.got + [PayloadOf(en)])
      case _ => s' == s
  }

  /** The queue as created, with the reader's bit already in the mask. */
  ghost predicate Init(bit: nat, s: State) {
    && WellFormed(s.q) && s.q.evicted == 0 && s.q.entries == [] && bit in s.q.userMask
    && s.next == None && s.got == [] && s.written == []
  }

  ghost predicate Inv(bit: nat, s: State) {
    && WellFormed(s.q) && bit in s.q.userMask
    && s.q.evicted + |s.q.entries| == |s.written| && s.q.evicted <= |s.got| <= |s.written|
    && s.got == s.written[..|s.got|]
    && s.next == (if s.next.None? then None else Some(Slot(|s.got|, s.q.slots)))
    && (s.next.None? ==> s.got == [])
    && (forall k :: 0 <= k < |s.q.entries| ==> PayloadOf(s.q.entries[k]) == s.written[s.q.evicted + k])
    && (forall k :: 0 <= k < |s.q.entries| && |s.got| - s.q.evicted <= k ==> bit in s.q.entries[k].mask)
  }

  /** In a reachable state the reader is given the next item, or told to come back when there is none. */
  lemma {:induction false} OwnReadOutcome(bit: nat, s: State)
    requires Inv(bit, s)
    ensures StartSlot(s.q, s.next, true) == Slot(|s.got|, s.q.slots)
    ensures var r := ReadAt(s.q, StartSlot(s.q, s.next, true));
      if |s.got| == |s.written| then r == Again
      else r.ReadOk? && PayloadOf(r.entry) == s.written[|s.got|] && r.nextSlot == Slot(|s.got| + 1, s.q.slots)
  {
    var q, k := s.q, |s.got| - s.q.evicted;
    PositionUnique(q, k);
    SlotNext(|s.got|, q.slots);
    if k < |q.entries| {
      SlotsDiffer(q.evicted + k, q.evicted + |q.entries|, q.slots);
    }
  }

  /** Dropping stops at the first pinned entry, so it never passes the reader. */
  lemma {:induction false} DropKeeps(bit: nat, s: State, q': Queue, k: nat)
    requires Inv(bit, s) && Dropped(s.q, q', k)
    ensures s.q.evicted + k <= |s.got| && Inv(bit, s.(q := q'))
  {
    var d := |s.got| - s.q.evicted;
    assert d < |s.q.entries| ==> bit in s.q.entries[d].mask;
    assert q'.entries == s.q.entries[k..];
    forall i | 0 <= i < |q'.entries|
      ensures PayloadOf(q'.entries[i]) == s.written[q'.evicted + i]
      ensures |s.got| - q'.evicted <= i ==> bit in q'.entries[i].mask
    {
      assert q'.entries[i] == s.q.entries[i + k];
    }
  }

  lemma {:induction false} WriteKeeps(bit: nat, s: State, d: seq<Byte>, h: seq<Byte>, q': Queue)
    requires Inv(bit, s) && Wrote(s.q, q', d, h) && WellFormed(q')
    ensures Inv(bit, s.(q := q', written := s.written + [Payload(d, h)]))
  {
    var k: nat, m: Queue :| Dropped(s.q, m, k) && q' == m.(entries := m.entries + [Entry(d, h, s.q.userMask)]);
    DropKeeps(bit, s, m, k);
    var t := s.(q := q', written := s.written + [Payload(d, h)]);
    assert t.written[..|t.got|] == s.written[..|s.got|];
  }

  lemma {:induction false} OtherReadKeeps(bit: nat, s: State, slot: nat, mask: Mask)
    requires Inv(bit, s) && slot < s.q.slots && bit !in mask
    ensures Inv(bit, s.(q := AfterRead(s.q, slot, mask)))
  {
  }

  lemma {:induction false} OwnReadKeeps(bit: nat, s: State, mask: Mask, s': State)
    requires Inv(bit, s) && Step(bit, s, OwnRead(mask), s')
    ensures Inv(bit, s')
  {
    OwnReadOutcome(bit, s);
    var slot, q := StartSlot(s.q, s.next, true), s.q;
    if |s.got| < |s.written| {
      var k := |s.got| - q.evicted;
      PositionUnique(q, k);
      assert s'.q == q.(entries := q.entries[k := Cleared(q.entries[k], mask)]);
      assert s'.got == s.written[..|s.got| + 1];
    }
  }

  lemma {:induction false} StepKeeps(bit: nat, s: State, e: Event, s': State)
    requires Inv(bit, s) && Step(bit, s, e, s')
    ensures Inv(bit, s')
  {
    match e
    case Write(d, h) => WriteKeeps(bit, s, d, h, s'.q);
    case RefusedWrite =>
      var k: nat :| Dropped(s.q, s'.q, k);
      DropKeeps(bit, s, s'.q, k);
    case SetMask(m) =>
    case ClearMask(m) =>
    case OtherRead(slot, m) => OtherReadKeeps(bit, s, slot, m);
    case OwnRead(m) => OwnReadKeeps(bit, s, m, s');
  }

  ghost predicate Run(bit: nat, states: seq<State>, events: seq<Event>) {
    && |states| == |events| + 1 && Init(bit, states[0])
    && forall i :: 0 <= i < |events| ==> Step(bit, states[i], events[i], states[i + 1])
  }

  /** The reader holds exactly the first items written, in order; its next read gives the one after
      those or, when there is none, says so; it never finds its place overwritten. */
  ghost predicate UpToDate(s: State) {
    && WellFormed(s.q) && |s.got| <= |s.written| && s.got == s.written[..|s.got|]
    && (s.next.Some? ==> s.next.value < s.q.slots)
    && var r := ReadAt(s.q, StartSlot(s.q, s.next, true));
       if s.got == s.written then r == Again
       else r.ReadOk? && s.written[..|s.got| + 1] == s.got + [PayloadOf(r.entry)]
  }

  lemma {:induction false} InvUpToDate(bit: nat, s: State)
    requires Inv(bit, s)
    ensures UpToDate(s)
  {
    OwnReadOutcome(bit, s);
    assert s.got == s.written <==> |s.got| == |s.written|;
  }

  lemma {:induction false} RunInv(bit: nat, states: seq<State>, events: seq<Event>, i: nat)
    requires Run(bit, states, events) && i < |states|
    ensures Inv(bit, states[i])
    decreases i
  {
    if i > 0 {
      RunInv(bit, states, events, i - 1);
      StepKeeps(bit, states[i - 1], events[i - 1], states[i]);
    }
  }

  lemma {:induction false} EveryItemOnceInOrder(bit: nat, states: seq<State>, events: seq<Event>)
    requires Run(bit, states, events)
    ensures forall i :: 0 <= i < |states| ==> UpToDate(states[i])
  {
    forall i | 0 <= i < |states| ensures UpToDate(states[i]) {
      RunInv(bit, states, events, i);
      InvUpToDate(bit, states[i]);
    }
  }
}
