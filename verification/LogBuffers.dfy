/**
 The packet log as the program keeps it: two buffers, two pointers to them and three counters.
 Each routine, when nothing comes between its lines, is a run of the protocol's actions.
 */
module LogBuffers {
  import opened PacketLog

  /** log_store_pkt by thread `t`, without a break. */
  ghost function StoreRun<P>(s: State<P>, t: nat, pkt: P): (s': State<P>)
    requires Inv(s) && Enabled(s, Enter(t, pkt))
    ensures Inv(s')
  {
    StepKeeps(s, Enter(t, pkt));
    var s1 := Next(s, Enter(t, pkt));
    StepKeeps(s1, Claim(t));
    var s2 := Next(s1, Claim(t));
    var a: Action<P> := if s2.threads[t].slot < s2.limit then Store(t) else Clamp(t);
    StepKeeps(s2, a);
    var s3 := Next(s2, a);
    StepKeeps(s3, Leave(t));
    Next(s3, Leave(t))
  }

  /** log_swap_log, without a break and with no packet thread inside: first the lock ... */
  ghost function LockRun<P>(s: State<P>): (s': State<P>)
    requires Inv(s) && s.control.Resting? && forall t | 0 <= t < |s.threads| :: s.threads[t].Idle?
    ensures Inv(s') && s' == s.(control := Locked(s.active))
  {
    StepKeeps(s, NoteActive);
    var s1 := Next(s, NoteActive);
    StepKeeps(s1, LockAlone);
    Next(s1, LockAlone)
  }

  /** ... and then the rest. */
  ghost function SwapRun<P>(s: State<P>): (s': State<P>)
    requires Inv(s) && s.control.Resting? && forall t | 0 <= t < |s.threads| :: s.threads[t].Idle?
    ensures Inv(s') && s'.control.Reading?
  {
    var s2 := LockRun(s);
    StepKeeps(s2, SwapBuffers);
    var s3 := Next(s2, SwapBuffers);
    StepKeeps(s3, Unlock);
    var s4 := Next(s3, Unlock);
    StepKeeps(s4, Return);
    Next(s4, Return)
  }

  class Log<P(0)> {
    const Limit: nat
    /** The two shared regions; the pointers below point to one each. */
    const Region0: array<P>
    const Region1: array<P>
    var ActiveCount: nat
    var ShadowCount: nat
    var ActiveLog: array<P>
    var ShadowLog: array<P>
    var FdNum: nat

    ghost predicate Is(s: State<P>)
      requires Shape(s)
      reads this, Region0, Region1
    {
      && Region0 != Region1 && Limit == s.limit
      && Region0[..] == s.mem[0] && Region1[..] == s.mem[1]
      && ActiveCount == s.count && ShadowCount == s.shadowCount && FdNum == s.fdNum
      && ActiveLog == (if s.active == 0 then Region0 else Region1)
      && ShadowLog == (if s.shadow == 0 then Region0 else Region1)
    }

    /** log_init. */
    constructor (limit: nat)
      ensures Limit == limit && Region0.Length == Region1.Length == limit && Region0 != Region1
      ensures fresh(Region0) && fresh(Region1) && ActiveLog == Region0 && ShadowLog == Region1
      ensures ActiveCount == ShadowCount == FdNum == 0
    {
      Limit := limit;
      var a := new P[limit];
      var b := new P[limit];
      Region0, Region1, ActiveLog, ShadowLog := a, b, a, b;
      ActiveCount, ShadowCount, FdNum := 0, 0, 0;
    }

    /** log_store_pkt: 1 exactly if the packet got a slot, and then it is in it. */
    method StorePkt(pkt: P, ghost s: State<P>, ghost t: nat) returns (ok: bool)
      requires Inv(s) && Enabled(s, Enter(t, pkt)) && Is(s)
      modifies `ActiveCount, Region0, Region1
      ensures Is(StoreRun(s, t, pkt)) && ok == (old(ActiveCount) < Limit)
      ensures StoreRun(s, t, pkt).current == if ok then s.current + [pkt] else s.current
    {
      hide Current, Closed, Batches, Slots, Pointers;
      var slot := ActiveCount;
      ActiveCount := (ActiveCount + 1) % WORD;
      if slot < Limit {
        ActiveLog[slot] := pkt;
      } else {
        ActiveCount := Limit;
      }
      return slot < Limit;
    }

    /** log_swap_log: the region filled since the swap before, and how many packets are in it. */
    method SwapLog(ghost s: State<P>) returns (rgn: nat, cnt: nat)
      requires Inv(s) && s.control.Resting? && forall t | 0 <= t < |s.threads| :: s.threads[t].Idle?
      requires Is(s)
      modifies this
      ensures Is(SwapRun(s)) && SwapRun(s).control == Reading(rgn, cnt, [])
      ensures cnt <= Limit && multiset((if rgn == 0 then Region0 else Region1)[..cnt]) == multiset(s.current)
      ensures ActiveCount == 0 && ActiveLog == old(ShadowLog)
    {
      hide Current, Batches, Slots;
      var tmp := ActiveLog;
      ShadowCount := ActiveCount;
      ActiveCount := 0;
      ActiveLog := ShadowLog;
      ShadowLog := tmp;
      cnt := ShadowCount;
      rgn := FdNum;
      FdNum := if FdNum == 1 then 0 else 1;
    }
  }
}
