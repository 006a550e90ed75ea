/** Whole runs of a ring queue: a new queue on which writers write items of up to half the arena, while
    readers read and masks change, in any order. */
module RingRuns {
  import opened Basics
  import opened Bytes
  import opened RingArena
  import opened RingSpec
  import opened RingDelivery
  import Q = RingQueue
  import RingReader

  datatype Call =
    | WriteCall(data: seq<Byte>, header: seq<Byte>)
    | OtherReadCall(slot: nat, mask: Mask, dataLen: nat, headerLen: int)
    | ReadNextCall(mask: Mask, dataLen: nat, headerLen: int)
    | SetMaskCall(mask: Mask)
    | ClearMaskCall(mask: Mask)

  /** Writes take up to half the arena, and nobody but its reader clears `bit`. */
  predicate Allowed(c: Call, bit: nat, slots: nat, memSize: nat) {
    match c
    case WriteCall(data, header) => 0 < |data| && 2 * |data| <= memSize && |header| <= MAX_HEADER_LEN
    case OtherReadCall(slot, mask, _, _) => slot < slots && bit !in mask
    case ReadNextCall(_, _, _) => true
    case SetMaskCall(_) => true
    case ClearMaskCall(mask) => bit !in mask
  }

  /** What a call returns and the event that it is: a write is refused or stored as it is; the reader is given the
      item after those it has, cut to the room there is, or told to come back when there is none. */
  ghost predicate Matches(c: Call, s: State, ret: int, out: Payload, e: Event) {
    match c
    case WriteCall(data, header) => if ret == OK then e == Write(data, header) else ret == ERR_FULL && e == RefusedWrite
    case OtherReadCall(slot, mask, _, _) => e == OtherRead(slot, mask)
    case ReadNextCall(mask, dataLen, headerLen) =>
      && e == OwnRead(mask) && |s.got| <= |s.written|
      && if |s.got| < |s.written| then ret == OK && out == Cut(s.written[|s.got|], dataLen, headerLen)
         else ret == ERR_AGAIN
    case SetMaskCall(mask) => e == SetMask(mask)
    case ClearMaskCall(mask) => e == ClearMask(mask)
  }

  function Cut(p: Payload, dataLen: int, headerLen: int): Payload {
    Payload(Q.Prefix(p.data, dataLen), Q.Prefix(p.header, headerLen))
  }

  /** The queue is in state `s` and ready for the next call. */
  ghost predicate Going(q: Q.RingQueue, bit: nat, index: Option<nat>, s: State)
    reads q, q.mem
  {
    q.Valid() && Roomy(q.arena) && 3 <= q.queueSize && s.q == q.queue && s.next == index && Inv(bit, s)
  }

  /** Half the arena can be taken whatever calls came before. */
  lemma {:induction false} AlwaysTakes(q: Q.RingQueue, len: int)
    requires q.Valid() && Roomy(q.arena) && 2 * len <= q.mem.Length
    ensures CanTake(q.arena, len)
  {
    HalfFits(q.arena, len);
  }

  method PerformWrite(q: Q.RingQueue, c: Call, bit: nat, index: Option<nat>, ghost s: State)
    returns (ret: int, ghost e: Event, ghost s': State)
    requires Going(q, bit, index, s) == true && Allowed(c, bit, q.queueSize, q.mem.Length) && c.WriteCall?
    modifies q, q.mem
    ensures Going(q, bit, index, s') == true && Step(bit, s, e, s') == true
    ensures forall out :: Matches(c, s, ret, out, e)
  {
    AlwaysTakes(q, |c.data|);
    ret, s' := RingReader.Write(q, c.data, c.header, bit, s);
    e := if ret == OK then Write(c.data, c.header) else RefusedWrite;
    StepKeeps(bit, s, e, s');
  }

  method PerformMask(q: Q.RingQueue, c: Call, bit: nat, index: Option<nat>, ghost s: State)
    returns (ghost e: Event, ghost s': State)
    requires Going(q, bit, index, s) == true && Allowed(c, bit, q.queueSize, q.mem.Length)
    requires c.SetMaskCall? || c.ClearMaskCall?
    modifies q
    ensures Going(q, bit, index, s') == true && Step(bit, s, e, s') == true
    ensures forall ret, out :: Matches(c, s, ret, out, e)
  {
    RingReader.ValidWellFormed(q);
    if c.SetMaskCall? {
      q.SetMask(c.mask);
      e := SetMask(c.mask);
    } else {
      q.ClearUserMask(c.mask);
      e := ClearMask(c.mask);
    }
    s' := s.(q := q.queue);
    StepKeeps(bit, s, e, s');
  }

  method PerformRead(q: Q.RingQueue, c: Call, bit: nat, index: Option<nat>, ghost s: State)
    returns (ret: int, out: Payload, index': Option<nat>, ghost e: Event, ghost s': State)
    requires Going(q, bit, index, s) == true && Allowed(c, bit, q.queueSize, q.mem.Length)
    requires c.OtherReadCall? || c.ReadNextCall?
    modifies q
    ensures Going(q, bit, index', s') == true && Step(bit, s, e, s') == true && Matches(c, s, ret, out, e) == true
  {
    index', out := index, Payload([], []);
    if c.OtherReadCall? {
      ret, s' := RingReader.OtherRead(q, c.slot, c.mask, c.dataLen, c.headerLen, bit, s);
      e := OtherRead(c.slot, c.mask);
      StepKeeps(bit, s, e, s');
      return;
    }
    var data, header;
    ret, index', data, header, s' := RingReader.ReadNext(q, index, c.mask, c.dataLen, c.headerLen, bit, s);
    e, out := OwnRead(c.mask), Payload(data, header);
  }

  method Perform(q: Q.RingQueue, c: Call, bit: nat, index: Option<nat>, ghost s: State)
    returns (ret: int, out: Payload, index': Option<nat>, ghost e: Event, ghost s': State)
    requires Going(q, bit, index, s) == true && Allowed(c, bit, q.queueSize, q.mem.Length)
    modifies q, q.mem
    ensures Going(q, bit, index', s') == true && Step(bit, s, e, s') == true && Matches(c, s, ret, out, e) == true
  {
    ret, out, index' := OK, Payload([], []), index;
    if c.WriteCall? {
      ret, e, s' := PerformWrite(q, c, bit, index, s);
    } else if c.OtherReadCall? || c.ReadNextCall? {
      ret, out, index', e, s' := PerformRead(q, c, bit, index, s);
    } else {
      e, s' := PerformMask(q, c, bit, index, s);
    }
  }

  /** Every sequence of such calls on a new queue goes through: each write is stored or refused because a reader
      pins the oldest item, and at every point the reader holds the first items written, in order, and can go on
      with the next. */
  method Run(memSize: nat, slots: nat, mask: Mask, bit: nat, calls: seq<Call>)
    returns (q: Q.RingQueue, rets: seq<int>, outs: seq<Payload>, ghost states: seq<State>, ghost events: seq<Event>)
    requires 0 < memSize < 0x8000_0000 && 3 <= slots && bit in mask
    requires forall i :: 0 <= i < |calls| ==> Allowed(calls[i], bit, slots, memSize)
    ensures fresh(q) && fresh(q.mem) && q.Valid() && Roomy(q.arena)
    ensures |rets| == |outs| == |events| == |calls| && RingDelivery.Run(bit, states, events)
    ensures forall i :: 0 <= i < |calls| ==> Matches(calls[i], states[i], rets[i], outs[i], events[i])
    ensures states[|calls|].q == q.queue && forall i :: 0 <= i < |states| ==> UpToDate(states[i])
  {
    q := new Q.RingQueue(memSize, slots, mask);
    ghost var s := State(q.queue, None, [], []);
    var index := None;
    rets, outs, states, events := [], [], [s], [];
    for n := 0 to |calls|
      invariant fresh(q) && fresh(q.mem) && q.queueSize == slots && q.mem.Length == memSize
      invariant Going(q, bit, index, s) == true && |states| == n + 1 && states[n] == s
      invariant |rets| == |outs| == |events| == n
      invariant RingDelivery.Run(bit, states, events) == true
      invariant forall i :: 0 <= i < n ==> Matches(calls[i], states[i], rets[i], outs[i], events[i]) == true
    {
      var ret, out;
      ghost var e, s';
      ret, out, index, e, s' := Perform(q, calls[n], bit, index, s);
      RunMore(bit, states, events, e, s');
      rets, outs, states, events, s := rets + [ret], outs + [out], states + [s'], events + [e], s';
    }
    EveryItemOnceInOrder(bit, states, events);
  }

  lemma {:induction false} RunMore(bit: nat, states: seq<State>, events: seq<Event>, e: Event, s': State)
    requires RingDelivery.Run(bit, states, events) && Step(bit, states[|events|], e, s')
    ensures RingDelivery.Run(bit, states + [s'], events + [e]) == true
  {
    var all := states + [s'];
    forall i | 0 <= i < |events| + 1 ensures Step(bit, all[i], (events + [e])[i], all[i + 1]) {
      if i < |events| {
        assert Step(bit, states[i], events[i], states[i + 1]);
      }
    }
  }
}
