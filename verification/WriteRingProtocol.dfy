/** Writers and the epoll thread on one write ring, step by step in any interleaving
    (apps/sysbus/lib_src/multiplex_io.c:158-195, 242-337, 617-635). */
module WriteRingProtocol {
  import opened Basics
  import opened Bytes
  import opened WriteRing

  /** The writer inside the lock, if there is one: it has read both indices, is copying, or has
      stored the write index and not armed EPOLLOUT yet. */
  datatype Writer =
    | Outside
    | Copying(bytes: seq<Byte>, copied: nat)
    | Stored

  /** The epoll thread: `armed` is its private copy of the EPOLLOUT bit, `r` and `w` its copies of
      the indices. */
  datatype Thread =
    | Waiting
    | Woken(armed: bool, writable: bool)
    | Loaded(armed: bool, r: nat, w: nat)
    | AtStart(armed: bool, w: nat)
    | Flushed(armed: bool, r: nat, w: nat)
    | Settled(armed: bool)

  datatype State = State(
    mem: seq<Byte>, rIdx: nat, wIdx: nat, armed: bool,
    writer: Writer, thread: Thread,
    accepted: seq<Byte>, emitted: seq<Byte>)

  ghost predicate Init(s: State) {
    && 0 < |s.mem| && s.rIdx == s.wIdx == 0 && s.writer == Outside && s.thread == Waiting
    && s.accepted == s.emitted == []
  }

  // ----- writer steps; all but the first run with the lock held -----

  /** Take the lock and read the indices: room for all of `bytes`, or the call fails. */
  ghost predicate Enter(s: State, bytes: seq<Byte>, s': State) {
    && s.writer == Outside && bytes != []
    && s' == if |bytes| <= FreeSize(|s.mem|, s.rIdx, s.wIdx) then s.(writer := Copying(bytes, 0)) else s
  }

  ghost predicate CopyByte(s: State, s': State) {
    && s.writer.Copying? && s.writer.copied < |s.writer.bytes|
    && Cell(|s.mem|, s.wIdx, s.writer.copied) < |s.mem|
    && s' == s.(mem := s.mem[Cell(|s.mem|, s.wIdx, s.writer.copied) := s.writer.bytes[s.writer.copied]],
                writer := s.writer.(copied := s.writer.copied + 1))
  }

  ghost predicate StoreIndex(s: State, s': State) {
    && s.writer.Copying? && s.writer.copied == |s.writer.bytes|
    && s' == s.(wIdx := NewIndex(|s.mem|, s.wIdx, |s.writer.bytes|), writer := Stored,
                accepted := s.accepted + s.writer.bytes)
  }

  ghost predicate ArmAndLeave(s: State, s': State) {
    s.writer == Stored && s' == s.(armed := true, writer := Outside)
  }

  // ----- epoll thread steps -----

  ghost predicate Wake(s: State, writable: bool, s': State) {
    s.thread == Waiting && s' == s.(thread := Woken(s.armed, writable))
  }

  /** Read the own index, and the write index under the lock. */
  ghost predicate Load(s: State, s': State) {
    && s.thread.Woken? && s.thread.writable && s.writer == Outside
    && s' == s.(thread := if s.rIdx == s.wIdx then Settled(false) else Loaded(s.thread.armed, s.rIdx, s.wIdx))
  }

  ghost predicate NothingToWrite(s: State, s': State) {
    s.thread.Woken? && !s.thread.writable && s' == s.(thread := Settled(s.thread.armed))
  }

  /** `write` of the stretch up to the write index or the end of the array takes `k` bytes. */
  ghost predicate Flush(s: State, k: nat, s': State) {
    && s.thread.Loaded?
    && var t := s.thread;
       && t.r + k <= (if t.w > t.r then t.w else |s.mem|) <= |s.mem|
       && s' == s.(emitted := s.emitted + s.mem[t.r..t.r + k],
                   thread := if t.w > t.r then Flushed(t.armed, t.r + k, t.w)
                             else if t.r + k == |s.mem| then AtStart(t.armed, t.w)
                             else Flushed(t.armed, t.r + k, t.w))
  }

  /** The second `write`, from the start of the array. */
  ghost predicate FlushStart(s: State, k: nat, s': State) {
    && s.thread.AtStart? && k <= s.thread.w <= |s.mem|
    && s' == s.(emitted := s.emitted + s.mem[..k], thread := Flushed(s.thread.armed, k, s.thread.w))
  }

  ghost predicate Commit(s: State, s': State) {
    && s.thread.Flushed?
    && s' == s.(rIdx := s.thread.r, thread := Settled(s.thread.r != s.thread.w))
  }

  /** Under the lock: look at both indices again and write the event mask back. */
  ghost predicate Rearm(s: State, s': State) {
    && s.thread.Settled? && s.writer == Outside
    && s' == s.(armed := s.thread.armed || s.rIdx != s.wIdx, thread := Waiting)
  }

  datatype Event =
    | EnterEvent(bytes: seq<Byte>) | CopyEvent | StoreEvent | ArmEvent
    | WakeEvent(writable: bool) | LoadEvent | SkipEvent | FlushEvent(k: nat) | FlushStartEvent(k: nat)
    | CommitEvent | RearmEvent

  ghost predicate Step(s: State, e: Event, s': State) {
    match e
    case EnterEvent(b) => Enter(s, b, s')
    case CopyEvent => CopyByte(s, s')
    case StoreEvent => StoreIndex(s, s')
    case ArmEvent => ArmAndLeave(s, s')
    case WakeEvent(o) => Wake(s, o, s')
    case LoadEvent => Load(s, s')
    case SkipEvent => NothingToWrite(s, s')
    case FlushEvent(k) => Flush(s, k, s')
    case FlushStartEvent(k) => FlushStart(s, k, s')
    case CommitEvent => Commit(s, s')
    case RearmEvent => Rearm(s, s')
  }

  // ----- what every step keeps -----

  /** Where reading really stands: bytes already handed to `write` count as read. */
  function ReadIndex(s: State): nat {
    match s.thread
    case AtStart(_, _) => 0
    case Flushed(_, r, _) => r
    case _ => s.rIdx
  }

  /** The bytes of the ring still to be emitted. */
  ghost function Pending(s: State): seq<Byte>
    requires Indices(|s.mem|, ReadIndex(s), s.wIdx)
  {
    View(s.mem, ReadIndex(s), Len(|s.mem|, ReadIndex(s), s.wIdx))
  }

  /** The writer's bytes fit, and the copied ones are in place. */
  ghost predicate WriterOk(s: State) {
    s.writer.Copying? ==>
      var b := s.writer.bytes;
      && s.writer.copied <= |b| && 0 < |b| <= FreeSize(|s.mem|, s.rIdx, s.wIdx)
      && forall j :: 0 <= j < s.writer.copied ==>
           Cell(|s.mem|, s.wIdx, j) < |s.mem| && s.mem[Cell(|s.mem|, s.wIdx, j)] == b[j]
  }

  /** The thread's copies are behind the real write index, never past it. */
  ghost predicate ThreadOk(s: State) {
    var n := |s.mem|;
    match s.thread
    case Loaded(_, r, w) =>
      && r == s.rIdx && r != w && Indices(n, r, w)
      && (r < w ==> w <= s.wIdx || s.wIdx < r) && (w < r ==> w <= s.wIdx < r)
    case AtStart(_, w) => 0 < s.rIdx && w <= s.wIdx < s.rIdx && Indices(n, 0, s.wIdx)
    case Flushed(_, r, w) =>
      && Indices(n, r, s.wIdx) && r <= n && Len(n, r, s.wIdx) <= Len(n, s.rIdx, s.wIdx) && s.rIdx != s.wIdx
    case _ => true
  }

  ghost predicate Inv(s: State) {
    && Indices(|s.mem|, s.rIdx, s.wIdx) && Indices(|s.mem|, ReadIndex(s), s.wIdx)
    && WriterOk(s) && ThreadOk(s)
    && s.accepted == s.emitted + Pending(s)
    && (s.rIdx != s.wIdx ==> s.armed || s.writer == Stored)
  }

  lemma {:induction false} InitInv(s: State)
    requires Init(s)
    ensures Inv(s)
  {
  }

  /** Reading never stands behind the committed index. */
  lemma {:induction false} ReadAhead(s: State)
    requires Inv(s)
    ensures Len(|s.mem|, ReadIndex(s), s.wIdx) <= Len(|s.mem|, s.rIdx, s.wIdx)
    ensures FreeSize(|s.mem|, s.rIdx, s.wIdx) <= FreeSize(|s.mem|, ReadIndex(s), s.wIdx)
  {
  }

  lemma {:induction false} CopyKeeps(s: State, s': State)
    requires Inv(s) && CopyByte(s, s')
    ensures Inv(s')
  {
    var n, j := |s.mem|, s.writer.copied;
    ReadAhead(s);
    CopyUnseen(s.mem, ReadIndex(s), s.wIdx, j, s.writer.bytes[j]);
    forall i | 0 <= i < j ensures s'.mem[Cell(n, s.wIdx, i)] == s.writer.bytes[i] {
      CellsDiffer(n, s.wIdx, i, j);
    }
  }

  /** Moving the write index on leaves the thread's copies behind it. */
  lemma {:induction false} StoreBehind(s: State, s': State)
    requires Inv(s) && StoreIndex(s, s')
    ensures Indices(|s'.mem|, s'.rIdx, s'.wIdx) && Indices(|s'.mem|, ReadIndex(s'), s'.wIdx) && ThreadOk(s')
  {
    ReadAhead(s);
    Published(s.mem, s.rIdx, s.wIdx, s.writer.bytes);
    Published(s.mem, ReadIndex(s), s.wIdx, s.writer.bytes);
  }

  lemma {:induction false} StoreKeeps(s: State, s': State)
    requires Inv(s) && StoreIndex(s, s')
    ensures Inv(s')
  {
    StoreBehind(s, s');
    ReadAhead(s);
    Published(s.mem, ReadIndex(s), s.wIdx, s.writer.bytes);
    assert Pending(s') == Pending(s) + s.writer.bytes;
  }

  lemma {:induction false} FlushKeeps(s: State, k: nat, s': State)
    requires Inv(s) && Flush(s, k, s')
    ensures Inv(s')
  {
    if s.thread.w < s.thread.r {
      FlushEndKeeps(s, k, s');
    } else {
      FlushMiddleKeeps(s, k, s');
    }
  }

  /** Flushing up to the write index. */
  lemma {:induction false} FlushMiddleKeeps(s: State, k: nat, s': State)
    requires Inv(s) && Flush(s, k, s') && s.thread.r < s.thread.w
    ensures Inv(s')
  {
    var r := s.thread.r;
    Advanced(s.mem, r, s.wIdx, k);
    assert ReadIndex(s') == r + k && ThreadOk(s');
    assert Pending(s') == View(s.mem, r + k, Len(|s.mem|, r + k, s.wIdx));
    assert Pending(s) == s.mem[r..r + k] + Pending(s');
    Associative(s.emitted, s.mem[r..r + k], Pending(s'));
  }

  /** Flushing up to the end of the array. */
  lemma {:induction false} FlushEndKeeps(s: State, k: nat, s': State)
    requires Inv(s) && Flush(s, k, s') && s.thread.w < s.thread.r
    ensures Inv(s')
  {
    Advanced(s.mem, s.thread.r, s.wIdx, k);
    if s.thread.r + k == |s.mem| {
      Rewound(s.mem, s.wIdx);
    }
    assert Pending(s) == s.mem[s.thread.r..s.thread.r + k] + Pending(s');
    Associative(s.emitted, s.mem[s.thread.r..s.thread.r + k], Pending(s'));
  }

  lemma {:induction false} FlushStartKeeps(s: State, k: nat, s': State)
    requires Inv(s) && FlushStart(s, k, s')
    ensures Inv(s')
  {
    Advanced(s.mem, 0, s.wIdx, k);
    assert s.mem[..k] == s.mem[0..k];
    assert ReadIndex(s) == 0 && ReadIndex(s') == k && ThreadOk(s');
    assert Pending(s') == View(s.mem, k, Len(|s.mem|, k, s.wIdx));
    assert Pending(s) == s.mem[..k] + Pending(s');
    Associative(s.emitted, s.mem[..k], Pending(s'));
  }

  lemma {:induction false} WriterStepKeeps(s: State, e: Event, s': State)
    requires Inv(s) && Step(s, e, s') && (e.EnterEvent? || e.CopyEvent? || e.StoreEvent? || e.ArmEvent?)
    ensures Inv(s')
  {
    if e.CopyEvent? {
      CopyKeeps(s, s');
    } else if e.StoreEvent? {
      StoreKeeps(s, s');
    } else {
      assert Pending(s') == Pending(s);
    }
  }

  lemma {:induction false} CommitKeeps(s: State, s': State)
    requires Inv(s) && Commit(s, s')
    ensures Inv(s')
  {
    ReadAhead(s);
    assert Pending(s') == Pending(s);
  }

  lemma {:induction false} ThreadStepKeeps(s: State, e: Event, s': State)
    requires Inv(s) && Step(s, e, s') && (e.WakeEvent? || e.LoadEvent? || e.SkipEvent? || e.RearmEvent?)
    ensures Inv(s')
  {
    assert Pending(s') == Pending(s);
  }

  lemma {:induction false} StepKeeps(s: State, e: Event, s': State)
    requires Inv(s) && Step(s, e, s')
    ensures Inv(s')
  {
    match e
    case FlushEvent(k) => FlushKeeps(s, k, s');
    case FlushStartEvent(k) => FlushStartKeeps(s, k, s');
    case CommitEvent => CommitKeeps(s, s');
    case WakeEvent(_) => ThreadStepKeeps(s, e, s');
    case LoadEvent => ThreadStepKeeps(s, e, s');
    case SkipEvent => ThreadStepKeeps(s, e, s');
    case RearmEvent => ThreadStepKeeps(s, e, s');
    case _ => WriterStepKeeps(s, e, s');
  }

  ghost predicate Run(states: seq<State>, events: seq<Event>) {
    && |states| == |events| + 1 && Init(states[0])
    && forall i {:trigger events[i]} :: 0 <= i < |events| ==> Step(states[i], events[i], states[i + 1])
  }

  lemma {:induction false} RunInv(states: seq<State>, events: seq<Event>, i: nat)
    requires Run(states, events) && i < |states|
    ensures Inv(states[i])
    decreases i
  {
    if i == 0 {
      InitInv(states[0]);
    } else {
      RunInv(states, events, i - 1);
      StepKeeps(states[i - 1], events[i - 1], states[i]);
    }
  }

  /** First in, first out, nothing lost or made up, and no byte stranded: the emitted bytes and
      the ring together are the accepted writes, and a ring that is not empty has EPOLLOUT armed
      or a writer inside the lock that is about to arm it. */
  ghost predicate Safe(s: State) {
    && Indices(|s.mem|, ReadIndex(s), s.wIdx)
    && s.accepted == s.emitted + Pending(s) && |Pending(s)| <= |s.mem| - 1
    && (s.rIdx != s.wIdx && s.writer != Stored ==> s.armed)
    && (s.writer == Outside && s.thread == Waiting && !s.armed ==> s.emitted == s.accepted)
  }

  lemma {:induction false} EveryInterleavingSafe(states: seq<State>, events: seq<Event>)
    requires Run(states, events)
    ensures forall i :: 0 <= i < |states| ==> Safe(states[i])
  {
    forall i | 0 <= i < |states| ensures Safe(states[i]) {
      RunInv(states, events, i);
      var s := states[i];
      EmptyWhenEqual(|s.mem|, s.rIdx, s.wIdx);
    }
  }

  /** A write is all or nothing: from entering the lock to storing the index the accepted bytes
      grow by the whole message, and it is refused only when it does not fit. */
  lemma {:induction false} AllOrNothing(s: State, e: Event, s': State)
    requires Inv(s) && Step(s, e, s')
    ensures s'.accepted == if e.StoreEvent? then s.accepted + s.writer.bytes else s.accepted
    ensures e.EnterEvent? ==>
      (s'.writer == s.writer <==> |s.mem| - 1 - Len(|s.mem|, s.rIdx, s.wIdx) < |e.bytes|)
    ensures s.writer.Copying? && s'.writer != s.writer ==>
      s'.writer.Stored? || s'.writer == s.writer.(copied := s.writer.copied + 1)
    ensures s.emitted <= s'.emitted
  {
    EmptyWhenEqual(|s.mem|, s.rIdx, s.wIdx);
  }
}
