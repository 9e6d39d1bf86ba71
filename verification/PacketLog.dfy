/**
 The packet log of the billing filter, as a protocol.

 Any number of packet threads put packets into the active buffer: each takes a slot with
 one atomic addition, under a lock they share.  The control thread takes the lock alone,
 swaps the two buffers, and hands the filled one to the logger, which reads it while new
 packets go into the other.  Every line of the program that touches shared state is one
 action here, and runs are arbitrary sequences of actions.
 */
module PacketLog {

  /** Where a packet thread is inside log_store_pkt. */
  datatype Phase<P> =
    | Idle
    | Entered(pkt: P)                // holds the shared lock
    | Claimed(pkt: P, slot: nat)     // has added one to the counter and got `slot`
    | Finished(ok: bool)             // about to give the lock back and return `ok`

  /** Where the control thread is: inside log_swap_log, or reading what it returned. */
  datatype Control<P> =
    | Resting
    | Noted(tmp: nat)                // has noted which buffer is active
    | Locked(tmp: nat)               // holds the lock alone
    | Swapped(tmp: nat)              // still holds it; the counters and `active` are changed
    | Unlocked(tmp: nat)             // has given the lock back; `shadow` is still stale
    | Reading(region: nat, cnt: nat, read: seq<P>)

  /**
   `active` and `shadow` say which of the two buffers each pointer points to; buffer `b` is
   what the logger maps as region `b`.  `current` and `closed` are history: the packets
   accepted since the last swap and in the period before it; `batches` pairs what was
   accepted in a period with what the logger read for it.
   */
  datatype State<P> = State(
    threads: seq<Phase<P>>,
    control: Control<P>,
    limit: nat,
    count: nat,
    shadowCount: nat,
    active: nat,
    shadow: nat,
    fdNum: nat,
    mem: seq<seq<P>>,
    current: seq<P>,
    closed: seq<P>,
    batches: seq<(seq<P>, seq<P>)>)

  const WORD := 0x1_0000_0000

  datatype Action<P> =
    | Enter(t: nat, pkt: P)
    | Claim(t: nat)
    | Store(t: nat)
    | Clamp(t: nat)
    | Leave(t: nat)
    | NoteActive
    | LockAlone
    | SwapBuffers
    | Unlock
    | Return
    | ReadSlot
    | ReadDone

  predicate Holds<P>(ph: Phase<P>) {
    !ph.Idle?
  }

  predicate Alone<P>(c: Control<P>) {
    c.Locked? || c.Swapped?
  }

  predicate Enabled<P>(s: State<P>, a: Action<P>) {
    match a
    case Enter(t, _) => t < |s.threads| && s.threads[t].Idle? && !Alone(s.control)
    case Claim(t) => t < |s.threads| && s.threads[t].Entered?
    case Store(t) => t < |s.threads| && s.threads[t].Claimed? && s.threads[t].slot < s.limit
    case Clamp(t) => t < |s.threads| && s.threads[t].Claimed? && s.limit <= s.threads[t].slot
    case Leave(t) => t < |s.threads| && s.threads[t].Finished?
    case NoteActive => s.control.Resting?
    case LockAlone => s.control.Noted? && forall t | 0 <= t < |s.threads| :: !Holds(s.threads[t])
    case SwapBuffers => s.control.Locked?
    case Unlock => s.control.Swapped?
    case Return => s.control.Unlocked?
    case ReadSlot => s.control.Reading? && |s.control.read| < s.control.cnt
    case ReadDone => s.control.Reading? && |s.control.read| == s.control.cnt
  }

  function Next<P>(s: State<P>, a: Action<P>): State<P>
    requires Inv(s) && Enabled(s, a)
  {
    match a
    case Enter(t, pkt) => s.(threads := s.threads[t := Entered(pkt)])
    case Claim(t) =>
      s.(threads := s.threads[t := Claimed(s.threads[t].pkt, s.count)], count := (s.count + 1) % WORD)
    case Store(t) =>
      var Claimed(pkt, slot) := s.threads[t];
      s.(threads := s.threads[t := Finished(true)],
         mem := s.mem[s.active := s.mem[s.active][slot := pkt]],
         current := s.current + [pkt])
    case Clamp(t) => s.(threads := s.threads[t := Finished(false)], count := s.limit)
    case Leave(t) => s.(threads := s.threads[t := Idle])
    case NoteActive => s.(control := Noted(s.active))
    case LockAlone => s.(control := Locked(s.control.tmp))
    case SwapBuffers =>
      s.(control := Swapped(s.control.tmp), shadowCount := s.count, count := 0, active := s.shadow,
         current := [], closed := s.current)
    case Unlock => s.(control := Unlocked(s.control.tmp))
    case Return =>
      s.(control := Reading(s.fdNum, s.shadowCount, []), shadow := s.control.tmp,
         fdNum := if s.fdNum == 1 then 0 else 1)
    case ReadSlot =>
      var Reading(region, cnt, read) := s.control;
      s.(control := Reading(region, cnt, read + [s.mem[region][|read|]]))
    case ReadDone =>
      s.(control := Resting, batches := s.batches + [(s.closed, s.control.read)], closed := [])
  }

  // ---------------------------------------------------------------- invariant

  /** The thread has claimed a slot beyond the buffer and has not put the counter back yet. */
  predicate IsOver<P>(ph: Phase<P>, limit: nat) {
    ph.Claimed? && limit <= ph.slot
  }

  /** How many such threads there are. */
  function Over<P>(threads: seq<Phase<P>>, limit: nat): (n: nat)
    ensures n <= |threads|
  {
    if threads == [] then 0 else (if IsOver(threads[0], limit) then 1 else 0) + Over(threads[1..], limit)
  }

  ghost predicate Owned<P>(threads: seq<Phase<P>>, slot: nat) {
    exists t :: 0 <= t < |threads| && threads[t].Claimed? && threads[t].slot == slot
  }

  /** The packets in the first `n` slots of a buffer that no thread is still about to fill. */
  ghost function Filled<P>(buffer: seq<P>, threads: seq<Phase<P>>, n: nat): multiset<P>
    requires n <= |buffer|
  {
    if n == 0 then multiset{}
    else
      var last := if Owned(threads, n - 1) then multiset{} else multiset{buffer[n - 1]};
      Filled(buffer, threads, n - 1) + last
  }

  function Min(a: nat, b: nat): nat {
    if a < b then a else b
  }

  ghost predicate Shape<P>(s: State<P>) {
    && s.limit + |s.threads| < WORD
    && |s.mem| == 2 && |s.mem[0]| == |s.mem[1]| == s.limit
    && s.active < 2 && s.shadow < 2 && s.fdNum < 2
  }

  /** Which buffer is where, step by step through a swap. */
  ghost predicate Pointers<P>(s: State<P>)
    requires Shape(s)
  {
    match s.control
    case Resting => s.shadow != s.active && s.fdNum == s.active
    case Noted(tmp) => tmp == s.active && s.shadow != s.active && s.fdNum == s.active
    case Locked(tmp) => tmp == s.active && s.shadow != s.active && s.fdNum == s.active
    case Swapped(tmp) => tmp < 2 && tmp != s.active && s.shadow == s.active && s.fdNum == tmp
    case Unlocked(tmp) => tmp < 2 && tmp != s.active && s.shadow == s.active && s.fdNum == tmp
    case Reading(region, _, _) => region < 2 && region != s.active && s.shadow == region && s.fdNum == s.active
  }

  /** The counter, and who owns which slot. */
  ghost predicate Slots<P>(s: State<P>) {
    && s.count <= s.limit + Over(s.threads, s.limit)
    && (forall t | 0 <= t < |s.threads| && s.threads[t].Claimed? ::
          s.threads[t].slot < s.count || s.limit <= s.threads[t].slot)
    && (forall t | 0 <= t < |s.threads| && (IsOver(s.threads[t], s.limit) || s.threads[t] == Finished(false)) ::
          s.limit <= s.count)
    && (forall t, u | 0 <= t < u < |s.threads| && s.threads[t].Claimed? && s.threads[u].Claimed?
          && s.threads[t].slot < s.limit :: s.threads[t].slot != s.threads[u].slot)
    && (Alone(s.control) ==> forall t | 0 <= t < |s.threads| :: !Holds(s.threads[t]))
  }

  /** Exactly the packets accepted since the last swap are in the filled slots. */
  ghost predicate Current<P>(s: State<P>)
    requires Shape(s)
  {
    multiset(s.current) == Filled(s.mem[s.active], s.threads, Min(s.count, s.limit))
  }

  /** Exactly the packets of the period before are read or waiting to be read. */
  ghost predicate Closed<P>(s: State<P>)
    requires Shape(s) && Pointers(s)
  {
    match s.control
    case Resting => s.closed == []
    case Noted(_) => s.closed == []
    case Locked(_) => s.closed == []
    case Swapped(tmp) => s.shadowCount <= s.limit && multiset(s.closed) == multiset(s.mem[tmp][..s.shadowCount])
    case Unlocked(tmp) => s.shadowCount <= s.limit && multiset(s.closed) == multiset(s.mem[tmp][..s.shadowCount])
    case Reading(region, cnt, read) =>
      && |read| <= cnt <= s.limit && read == s.mem[region][..|read|]
      && multiset(s.closed) == multiset(s.mem[region][..cnt])
  }

  ghost predicate Batches<P>(s: State<P>) {
    forall i | 0 <= i < |s.batches| :: multiset(s.batches[i].0) == multiset(s.batches[i].1)
  }

  ghost predicate Inv<P>(s: State<P>) {
    Shape(s) && Pointers(s) && Slots(s) && Current(s) && Closed(s) && Batches(s)
  }

  // ------------------------------------------------------- counting and filling

  lemma {:induction false} OverUpdate<P>(threads: seq<Phase<P>>, t: nat, ph: Phase<P>, limit: nat)
    requires t < |threads|
    ensures Over(threads[t := ph], limit) ==
      Over(threads, limit) - (if IsOver(threads[t], limit) then 1 else 0) + (if IsOver(ph, limit) then 1 else 0)
  {
    if t == 0 {
      assert threads[0 := ph][1..] == threads[1..];
    } else {
      OverUpdate(threads[1..], t - 1, ph, limit);
      assert threads[t := ph][1..] == threads[1..][t - 1 := ph];
    }
  }

  lemma {:induction false} OverNone<P>(threads: seq<Phase<P>>, limit: nat)
    requires forall t | 0 <= t < |threads| :: !IsOver(threads[t], limit)
    ensures Over(threads, limit) == 0
  {
    if threads != [] { OverNone(threads[1..], limit); }
  }

  /** Filling depends on the first `n` slots and on who owns them. */
  lemma {:induction false} FilledFrame<P>(
    buffer: seq<P>, buffer': seq<P>, threads: seq<Phase<P>>, threads': seq<Phase<P>>, n: nat)
    requires n <= |buffer| && n <= |buffer'| && buffer[..n] == buffer'[..n]
    requires forall k: nat | k < n :: Owned(threads, k) <==> Owned(threads', k)
    ensures Filled(buffer, threads, n) == Filled(buffer', threads', n)
  {
    if n != 0 {
      assert buffer[n - 1] == buffer[..n][n - 1] == buffer'[n - 1];
      assert buffer[..n - 1] == buffer[..n][..n - 1] == buffer'[..n - 1];
      FilledFrame(buffer, buffer', threads, threads', n - 1);
    }
  }

  /** The owner of slot `k` fills it. */
  lemma {:induction false} FilledStore<P>(
    buffer: seq<P>, threads: seq<Phase<P>>, threads': seq<Phase<P>>, k: nat, pkt: P, n: nat)
    requires k < n <= |buffer| && Owned(threads, k) && !Owned(threads', k)
    requires forall j: nat | j < n && j != k :: Owned(threads, j) <==> Owned(threads', j)
    ensures Filled(buffer[k := pkt], threads', n) == Filled(buffer, threads, n) + multiset{pkt}
  {
    if k == n - 1 {
      FilledFrame(buffer, buffer[k := pkt], threads, threads', n - 1);
    } else {
      FilledStore(buffer, threads, threads', k, pkt, n - 1);
    }
  }

  lemma {:induction false} FilledAll<P>(buffer: seq<P>, threads: seq<Phase<P>>, n: nat)
    requires n <= |buffer| && forall k: nat | k < n :: !Owned(threads, k)
    ensures Filled(buffer, threads, n) == multiset(buffer[..n])
  {
    if n != 0 {
      FilledAll(buffer, threads, n - 1);
      assert buffer[..n] == buffer[..n - 1] + [buffer[n - 1]];
    }
  }

  lemma OwnedUpdate<P>(threads: seq<Phase<P>>, t: nat, ph: Phase<P>, k: nat)
    requires t < |threads|
    requires !(threads[t].Claimed? && threads[t].slot == k) && !(ph.Claimed? && ph.slot == k)
    ensures Owned(threads[t := ph], k) <==> Owned(threads, k)
  {
    if Owned(threads, k) {
      var u :| 0 <= u < |threads| && threads[u].Claimed? && threads[u].slot == k;
      assert threads[t := ph][u] == threads[u];
    }
    if Owned(threads[t := ph], k) {
      var u :| 0 <= u < |threads| && threads[t := ph][u].Claimed? && threads[t := ph][u].slot == k;
      assert threads[t := ph][u] == threads[u];
    }
  }

  // ------------------------------------------------- every action keeps all of it

  lemma EnterKeeps<P>(s: State<P>, t: nat, pkt: P)
    requires Inv(s) && Enabled(s, Enter(t, pkt))
    ensures Inv(Next(s, Enter(t, pkt)))
  {
    Relabelled(s, t, Entered(pkt));
  }

  lemma LeaveKeeps<P>(s: State<P>, t: nat)
    requires Inv(s) && Enabled(s, Leave(t))
    ensures Inv(Next(s, Leave(t)))
  {
    Relabelled(s, t, Idle);
  }

  /** Going to or from a phase without a slot changes nothing about slots. */
  lemma Relabelled<P>(s: State<P>, t: nat, ph: Phase<P>)
    requires Inv(s) && t < |s.threads| && !s.threads[t].Claimed? && !ph.Claimed? && !ph.Finished?
    requires Holds(ph) ==> !Alone(s.control)
    ensures Inv(s.(threads := s.threads[t := ph]))
  {
    OverUpdate(s.threads, t, ph, s.limit);
    forall k: nat | k < Min(s.count, s.limit)
      ensures Owned(s.threads, k) <==> Owned(s.threads[t := ph], k)
    {
      OwnedUpdate(s.threads, t, ph, k);
    }
    FilledFrame(s.mem[s.active], s.mem[s.active], s.threads, s.threads[t := ph], Min(s.count, s.limit));
  }

  /** No wrap-around: the counter stays below its limit plus the number of threads. */
  lemma CountBounded<P>(s: State<P>, t: nat)
    requires Inv(s) && t < |s.threads| && s.threads[t].Entered?
    ensures s.count + 1 <= s.limit + |s.threads| < WORD
  {
    OverUpdate(s.threads, t, Claimed(s.threads[t].pkt, s.limit), s.limit);
  }

  lemma ClaimKeepsSlots<P>(s: State<P>, t: nat)
    requires Inv(s) && Enabled(s, Claim(t))
    ensures Slots(Next(s, Claim(t)))
  {
    hide Current, Closed, Batches, Filled, Pointers;
    CountBounded(s, t);
    OverUpdate(s.threads, t, Claimed(s.threads[t].pkt, s.count), s.limit);
  }

  /** A slot that has only been claimed adds no packet. */
  lemma ClaimFilled<P>(buffer: seq<P>, threads: seq<Phase<P>>, t: nat, slot: nat)
    requires t < |threads| && threads[t].Entered?
    ensures var threads' := threads[t := Claimed(threads[t].pkt, slot)];
      Filled(buffer, threads', Min(slot + 1, |buffer|)) == Filled(buffer, threads, Min(slot, |buffer|))
  {
    var ph := Claimed(threads[t].pkt, slot);
    var threads', n := threads[t := ph], Min(slot, |buffer|);
    forall k: nat | k < n ensures Owned(threads, k) <==> Owned(threads', k) {
      OwnedUpdate(threads, t, ph, k);
    }
    FilledFrame(buffer, buffer, threads, threads', n);
    assert threads'[t].slot == slot;
    assert Owned(threads', slot);
  }

  lemma ClaimKeepsCurrent<P>(s: State<P>, t: nat)
    requires Inv(s) && Enabled(s, Claim(t))
    ensures var s' := Next(s, Claim(t)); Shape(s') && Current(s')
  {
    hide Closed, Batches, Pointers, Slots, Owned, Filled;
    CountBounded(s, t);
    ClaimFilled(s.mem[s.active], s.threads, t, s.count);
  }

  lemma ClaimKeeps<P>(s: State<P>, t: nat)
    requires Inv(s) && Enabled(s, Claim(t))
    ensures Inv(Next(s, Claim(t)))
  {
    hide Slots, Current;
    ClaimKeepsSlots(s, t);
    ClaimKeepsCurrent(s, t);
  }

  /** The packet goes into the slot its thread owns. */
  lemma StoreFills<P>(s: State<P>, t: nat)
    requires Inv(s) && Enabled(s, Store(t))
    ensures var s' := Next(s, Store(t)); Shape(s') && Current(s')
  {
    hide Closed, Batches, Pointers;
    var s', n := Next(s, Store(t)), Min(s.count, s.limit);
    var Claimed(pkt, slot) := s.threads[t];
    assert Owned(s.threads, slot);
    assert !Owned(s'.threads, slot);
    forall k: nat | k < n && k != slot ensures Owned(s.threads, k) <==> Owned(s'.threads, k) {
      OwnedUpdate(s.threads, t, Finished(true), k);
    }
    FilledStore(s.mem[s.active], s.threads, s'.threads, slot, pkt, n);
  }

  lemma StoreKeeps<P>(s: State<P>, t: nat)
    requires Inv(s) && Enabled(s, Store(t))
    ensures Inv(Next(s, Store(t)))
  {
    hide Current, Owned, Filled;
    OverUpdate(s.threads, t, Finished(true), s.limit);
    StoreFills(s, t);
  }

  lemma ClampKeeps<P>(s: State<P>, t: nat)
    requires Inv(s) && Enabled(s, Clamp(t))
    ensures Inv(Next(s, Clamp(t)))
  {
    var s' := Next(s, Clamp(t));
    OverUpdate(s.threads, t, Finished(false), s.limit);
    forall k: nat | k < s.limit ensures Owned(s.threads, k) <==> Owned(s'.threads, k) {
      OwnedUpdate(s.threads, t, Finished(false), k);
    }
    FilledFrame(s.mem[s.active], s.mem[s.active], s.threads, s'.threads, s.limit);
  }

  /** When the control thread has the lock alone, the buffer is what was accepted, and no more. */
  lemma AloneIsExact<P>(s: State<P>)
    requires Inv(s) && s.control.Locked?
    ensures s.count <= s.limit
    ensures multiset(s.current) == multiset(s.mem[s.active][..s.count])
  {
    OverNone(s.threads, s.limit);
    FilledAll(s.mem[s.active], s.threads, s.count);
  }

  lemma SwapKeeps<P>(s: State<P>)
    requires Inv(s) && Enabled(s, SwapBuffers)
    ensures Inv(Next(s, SwapBuffers))
  {
    AloneIsExact(s);
  }

  lemma ReadKeeps<P>(s: State<P>)
    requires Inv(s) && Enabled(s, ReadSlot)
    ensures Inv(Next(s, ReadSlot))
  {
  }

  /** The other actions of the control thread leave buffers and counter alone. */
  lemma ControlKeeps<P>(s: State<P>, a: Action<P>)
    requires Inv(s) && Enabled(s, a)
    requires a.NoteActive? || a.LockAlone? || a.Unlock? || a.Return? || a.ReadDone?
    ensures Inv(Next(s, a))
  {
    hide Filled, Over;
  }

  lemma StepKeeps<P>(s: State<P>, a: Action<P>)
    requires Inv(s) && Enabled(s, a)
    ensures Inv(Next(s, a))
  {
    hide Inv, Next;
    match a
    case Enter(t, pkt) => EnterKeeps(s, t, pkt);
    case Claim(t) => ClaimKeeps(s, t);
    case Store(t) => StoreKeeps(s, t);
    case Clamp(t) => ClampKeeps(s, t);
    case Leave(t) => LeaveKeeps(s, t);
    case SwapBuffers => SwapKeeps(s);
    case ReadSlot => ReadKeeps(s);
    case _ => ControlKeeps(s, a);
  }

  // ---------------------------------------------------------------- whole runs

  /** Two empty buffers, no thread inside, nobody swapping (log_init). */
  predicate Initial<P>(s: State<P>) {
    && s.limit + |s.threads| < WORD
    && (forall t | 0 <= t < |s.threads| :: s.threads[t].Idle?)
    && s.control.Resting? && s.count == 0 && s.active == 0 && s.shadow == 1 && s.fdNum == 0
    && |s.mem| == 2 && |s.mem[0]| == |s.mem[1]| == s.limit
    && |s.current| == |s.closed| == |s.batches| == 0
  }

  lemma InitialInv<P>(s: State<P>)
    requires Initial(s)
    ensures Inv(s)
  {
    OverNone(s.threads, s.limit);
  }

  ghost predicate IsRun<P>(s: State<P>, run: seq<Action<P>>)
    requires Inv(s)
    decreases |run|
  {
    run == [] || (Enabled(s, run[0]) && (StepKeeps(s, run[0]); IsRun(Next(s, run[0]), run[1..])))
  }

  ghost function After<P>(s: State<P>, run: seq<Action<P>>): (s': State<P>)
    requires Inv(s) && IsRun(s, run)
    ensures Inv(s')
    decreases |run|
  {
    if run == [] then s
    else
      StepKeeps(s, run[0]);
      After(Next(s, run[0]), run[1..])
  }

  /** The packets whose log_store_pkt returned 1 in the run, in the order they were stored. */
  ghost function Accepted<P>(s: State<P>, run: seq<Action<P>>): (pkts: seq<P>)
    requires Inv(s) && IsRun(s, run)
    decreases |run|
  {
    if run == [] then []
    else
      StepKeeps(s, run[0]);
      var first := if run[0].Store? then [s.threads[run[0].t].pkt] else [];
      first + Accepted(Next(s, run[0]), run[1..])
  }

  /** Everything the logger has read in finished batches. */
  function Delivered<P>(batches: seq<(seq<P>, seq<P>)>): (pkts: multiset<P>) {
    if batches == [] then multiset{}
    else Delivered(batches[..|batches| - 1]) + multiset(batches[|batches| - 1].1)
  }

  /** Accepted and not yet read: in the batch being read, or in the active buffer. */
  ghost function Total<P>(s: State<P>): multiset<P> {
    Delivered(s.batches) + multiset(s.closed) + multiset(s.current)
  }

  lemma StepTotal<P>(s: State<P>, a: Action<P>)
    requires Inv(s) && Enabled(s, a)
    ensures Total(Next(s, a)) == Total(s) + (if a.Store? then multiset{s.threads[a.t].pkt} else multiset{})
  {
    var s' := Next(s, a);
    if a.ReadDone? {
      assert s'.batches[..|s'.batches| - 1] == s.batches;
      assert s.control.read == s.mem[s.control.region][..s.control.cnt];
    }
  }

  lemma {:induction false} RunTotal<P>(s: State<P>, run: seq<Action<P>>)
    requires Inv(s) && IsRun(s, run)
    ensures Total(After(s, run)) == Total(s) + multiset(Accepted(s, run))
    decreases |run|
  {
    hide Inv, Next, Total, Enabled;
    if run != [] {
      StepTotal(s, run[0]);
      StepKeeps(s, run[0]);
      RunTotal(Next(s, run[0]), run[1..]);
      AcceptedSplit(s, run);
    }
  }

  lemma AcceptedSplit<P>(s: State<P>, run: seq<Action<P>>)
    requires Inv(s) && run != [] && IsRun(s, run)
    ensures Enabled(s, run[0]) && Inv(Next(s, run[0])) && IsRun(Next(s, run[0]), run[1..])
    ensures multiset(Accepted(s, run)) ==
      (if run[0].Store? then multiset{s.threads[run[0].t].pkt} else multiset{})
      + multiset(Accepted(Next(s, run[0]), run[1..]))
  {
    hide Inv;
    StepKeeps(s, run[0]);
  }

  /**
   Exactly once, in every interleaving of any number of threads: the batches the logger has
   read, the period it is reading and the packets in the active buffer are together exactly
   the packets accepted; and each finished batch is exactly what its period accepted.
   */
  lemma ExactlyOnce<P>(s: State<P>, run: seq<Action<P>>)
    requires Initial(s) && Inv(s) && IsRun(s, run)
    ensures var s' := After(s, run);
      && multiset(Accepted(s, run)) == Delivered(s'.batches) + multiset(s'.closed) + multiset(s'.current)
      && forall i | 0 <= i < |s'.batches| :: multiset(s'.batches[i].0) == multiset(s'.batches[i].1)
  {
    RunTotal(s, run);
  }

  /**
   In every reachable state: the counter is over its limit by no more than the threads yet
   to put it back, and no two threads own the same slot of the buffer.
   */
  lemma CountAndSlots<P>(s: State<P>, run: seq<Action<P>>)
    requires Initial(s) && Inv(s) && IsRun(s, run)
    ensures var s' := After(s, run);
      && s'.count <= s'.limit + Over(s'.threads, s'.limit)
      && forall t, u | 0 <= t < u < |s'.threads| && s'.threads[t].Claimed? && s'.threads[u].Claimed? ::
           s'.threads[t].slot == s'.threads[u].slot ==> s'.limit <= s'.threads[t].slot
  {
    hide Next, IsRun;
  }

  /** The region number handed back is that of the buffer filled since the swap before. */
  lemma ReturnsFilledRegion<P>(s: State<P>)
    requires Inv(s) && Enabled(s, Return)
    ensures var s' := Next(s, Return);
      && s'.control.region == s.control.tmp != s'.active
      && s'.control.cnt <= s'.limit
      && multiset(s'.mem[s'.control.region][..s'.control.cnt]) == multiset(s.closed)
      && s'.shadow == s'.control.region && s'.fdNum == s'.active
  {
  }

  /** How many of the first `n` slots a thread is still about to fill. */
  ghost function OwnedSlots<P>(threads: seq<Phase<P>>, n: nat): (m: nat)
    ensures m <= n
  {
    if n == 0 then 0 else OwnedSlots(threads, n - 1) + if Owned(threads, n - 1) then 1 else 0
  }

  lemma {:induction false} FilledSize<P>(buffer: seq<P>, threads: seq<Phase<P>>, n: nat)
    requires n <= |buffer|
    ensures |Filled(buffer, threads, n)| + OwnedSlots(threads, n) == n
  {
    hide Owned;
    if n != 0 { FilledSize(buffer, threads, n - 1); }
  }

  /**
   A packet is refused only once the buffer is full: the packets accepted in this period and
   those about to be stored are together as many as it has slots.
   */
  lemma RefusedOnlyWhenFull<P>(s: State<P>, t: nat)
    requires Inv(s) && Enabled(s, Clamp(t))
    ensures |s.current| + OwnedSlots(s.threads, s.limit) == s.limit
  {
    FilledSize(s.mem[s.active], s.threads, s.limit);
    assert |s.current| == |multiset(s.current)|;
  }
}
