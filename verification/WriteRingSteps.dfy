/** A call of `multiplex_io_rb_write_data` is a run of writer steps of `WriteRingProtocol`: taking the lock,
    copying byte by byte, storing the index. */
module WriteRingSteps {
  import opened Basics
  import opened Bytes
  import opened WriteRing
  import opened WriteRingProtocol

  /** Steps from `s` to `t`. */
  ghost predicate Leads(s: State, states: seq<State>, events: seq<Event>, t: State) {
    && |states| == |events| + 1 && states[0] == s && states[|events|] == t
    && forall i :: 0 <= i < |events| ==> Step(states[i], events[i], states[i + 1])
  }

  lemma {:induction false} OneStep(s: State, states: seq<State>, events: seq<Event>, t: State, e: Event, u: State)
    requires Leads(s, states, events, t) && Step(t, e, u)
    ensures Leads(s, states + [u], events + [e], u)
  {
    var all := states + [u];
    forall i | 0 <= i < |events| + 1 ensures Step(all[i], (events + [e])[i], all[i + 1]) {
      if i < |events| {
        assert Step(states[i], events[i], states[i + 1]);
      }
    }
  }

  /** The copying steps, one for each byte. */
  lemma {:induction false} CopySteps(s: State, bytes: seq<Byte>, n: nat)
    returns (states: seq<State>, events: seq<Event>, t: State)
    requires s.writer == Outside && bytes != [] && n <= |bytes| < |s.mem| && s.wIdx <= |s.mem|
    requires |bytes| <= FreeSize(|s.mem|, s.rIdx, s.wIdx)
    ensures Leads(s, states, events, t) && t == s.(writer := Copying(bytes, n), mem := Filled(s.mem, s.wIdx, bytes, n))
  {
    if n == 0 {
      t := s.(writer := Copying(bytes, 0));
      assert Leads(s, [s], [], s);
      OneStep(s, [s], [], s, EnterEvent(bytes), t);
      states, events := [s] + [t], [] + [EnterEvent(bytes)];
    } else {
      var before;
      states, events, before := CopySteps(s, bytes, n - 1);
      t := s.(writer := Copying(bytes, n), mem := Filled(s.mem, s.wIdx, bytes, n));
      assert CopyByte(before, t);
      OneStep(s, states, events, before, CopyEvent, t);
      states, events := states + [t], events + [CopyEvent];
    }
  }

  /** Writing into the ring takes the protocol from a state with these indices and bytes to one with the
      new ones; what is accepted is all of `bytes` or nothing. */
  method WriteAsSteps(rb: MioRb, bytes: seq<Byte>, ghost s: State)
    returns (ret: nat, ghost states: seq<State>, ghost events: seq<Event>, ghost t: State)
    requires rb.Valid() && bytes != [] && s.writer == Outside && s.mem == rb.data[..] && s.rIdx == rb.rIdx
    requires s.wIdx == rb.wIdx
    modifies rb, rb.data
    ensures Leads(s, states, events, t) && t.mem == rb.data[..] && t.rIdx == rb.rIdx && t.wIdx == rb.wIdx
    ensures t.accepted == if ret == 0 then s.accepted else s.accepted + bytes
    ensures ret == (if |bytes| <= FreeSize(|s.mem|, s.rIdx, s.wIdx) then |bytes| else 0)
  {
    EmptyWhenEqual(|s.mem|, s.rIdx, s.wIdx);
    ret := rb.WriteData(bytes);
    if ret == 0 {
      t := s;
      assert Leads(s, [s], [], s);
      OneStep(s, [s], [], s, EnterEvent(bytes), s);
      states, events := [s] + [s], [] + [EnterEvent(bytes)];
    } else {
      ghost var copied;
      states, events, copied := CopySteps(s, bytes, |bytes|);
      t := copied.(wIdx := NewIndex(|s.mem|, s.wIdx, |bytes|), writer := Stored, accepted := s.accepted + bytes);
      OneStep(s, states, events, copied, StoreEvent, t);
      states, events := states + [t], events + [StoreEvent];
    }
  }
}
