/**
 The sleep lock of sleeplock.c on the sleep and wakeup of proc.c, step by step.

 Any number of processes use one sleep lock, guarded by its inner spin lock `lk`; sleeping and waking take
 ptable.lock. Every acquire, release and access under a lock is a step of its own, and the steps of all
 processes interleave freely. A kill can wake a sleeper at any time.
 */
module SleepLocks {

  /** Where a process is in acquiresleep, releasesleep and holdingsleep. */
  datatype Pc =
    | Outside     // does not hold the sleep lock
    | Entering    // in acquiresleep, lk to be acquired
    | Testing     // holds lk, about to test locked
    | ToSleep     // in sleep: holds lk, about to acquire ptable.lock
    | BothLocks   // in sleep: holds lk and ptable.lock, about to release lk
    | FallAsleep  // in sleep: holds ptable.lock, about to set chan and state and switch away
    | Asleep      // SLEEPING on the sleep lock
    | Woken       // RUNNABLE again, or running and about to reacquire lk
    | Got         // holds lk and has set locked and pid, about to release lk
    | Holder      // returned from acquiresleep
    | Leaving     // in releasesleep, lk to be acquired
    | Clearing    // holds lk, about to clear locked and pid
    | Waking      // locked is clear; holds lk, about to acquire ptable.lock
    | WakeAll     // holds lk and ptable.lock, about to run wakeup1
    | WokeAll     // wakeup1 is done; still holds both locks
    | Left        // ptable.lock is released, lk still held
    | Asking(held: bool)  // in holdingsleep: holds lk, about to read locked and pid; `held` is the truth

  /** The owner of a spin lock; indices past the processes stand for the rest of the kernel. */
  datatype Option = Free | By(owner: nat)

  /** The owners of the two spin locks, the fields of the sleep lock, and each process. */
  datatype State = State(lk: Option, ptable: Option, locked: bool, pid: nat, pcs: seq<Pc>)

  datatype Step =
    | Run(i: nat)
    | StartAcquire(i: nat)
    | StartRelease(i: nat)
    | StartAsk(i: nat)
    | Kill(i: nat)
    | OthersLock(o: nat)  // ptable.lock is taken elsewhere in the kernel
    | OthersUnlock

  function Initial(n: nat): State {
    State(Free, Free, false, 0, seq(n, _ => Outside))
  }

  /** Pids are positive and differ between live processes; process i has pid i + 1. */
  function Pid(i: nat): nat {
    i + 1
  }

  function At(s: State, i: nat, pc: Pc): State
    requires i < |s.pcs|
  {
    s.(pcs := s.pcs[i := pc])
  }

  /** wakeup1(lk): every process asleep on the sleep lock becomes runnable. */
  function WakeUp(pcs: seq<Pc>): (r: seq<Pc>)
    ensures |r| == |pcs| && forall i :: 0 <= i < |r| ==> r[i] == (if pcs[i] == Asleep then Woken else pcs[i])
  {
    if pcs == [] then [] else [if pcs[0] == Asleep then Woken else pcs[0]] + WakeUp(pcs[1..])
  }

  /** The locks a process at pc waits for are free. */
  predicate Enabled(s: State, step: Step) {
    match step
    case StartAcquire(i) => i < |s.pcs| && s.pcs[i] == Outside
    case StartRelease(i) => i < |s.pcs| && s.pcs[i] == Holder
    case StartAsk(i) => i < |s.pcs| && s.pcs[i] in {Outside, Holder} && s.lk.Free?
    case Kill(i) => i < |s.pcs| && s.pcs[i] == Asleep && s.ptable.Free?
    case OthersLock(o) => o >= |s.pcs| && s.ptable.Free?
    case OthersUnlock => s.ptable.By? && s.ptable.owner >= |s.pcs|
    case Run(i) =>
      i < |s.pcs| &&
      match s.pcs[i] {
        case Outside | Holder | Asleep => false
        case Entering | Woken | Leaving => s.lk.Free?
        case ToSleep | Waking => s.ptable.Free?
        case _ => true
      }
  }

  function Next(s: State, step: Step): State
    requires Enabled(s, step)
  {
    match step
    case StartAcquire(i) => At(s, i, Entering)
    case StartRelease(i) => At(s, i, Leaving)
    case StartAsk(i) => At(s, i, Asking(s.pcs[i] == Holder)).(lk := By(i))
    case Kill(i) => At(s, i, Woken)
    case OthersLock(o) => s.(ptable := By(o))
    case OthersUnlock => s.(ptable := Free)
    case Run(i) =>
      match s.pcs[i]
      case Entering | Woken => At(s, i, Testing).(lk := By(i))
      case Testing => if s.locked then At(s, i, ToSleep) else At(s, i, Got).(locked := true, pid := Pid(i))
      case ToSleep => At(s, i, BothLocks).(ptable := By(i))
      case BothLocks => At(s, i, FallAsleep).(lk := Free)
      case FallAsleep => At(s, i, Asleep).(ptable := Free)
      case Got => At(s, i, Holder).(lk := Free)
      case Leaving => At(s, i, Clearing).(lk := By(i))
      case Clearing => At(s, i, Waking).(locked := false, pid := 0)
      case Waking => At(s, i, WakeAll).(ptable := By(i))
      case WakeAll => At(s, i, WokeAll).(pcs := WakeUp(s.pcs)[i := WokeAll])
      case WokeAll => At(s, i, Left).(ptable := Free)
      case Left => At(s, i, Outside).(lk := Free)
      case Asking(held) => At(s, i, if held then Holder else Outside).(lk := Free)
  }

  /** The value holdingsleep returns. */
  predicate HoldingSleep(s: State, i: nat) {
    s.locked && s.pid == Pid(i)
  }

  predicate HasLk(pc: Pc) {
    pc.Testing? || pc.ToSleep? || pc.BothLocks? || pc.Got? || pc.Clearing? || pc.Waking? || pc.WakeAll? ||
    pc.WokeAll? || pc.Left? || pc.Asking?
  }

  predicate HasPtable(pc: Pc) {
    pc.BothLocks? || pc.FallAsleep? || pc.WakeAll? || pc.WokeAll?
  }

  /** The process owns the sleep lock, from setting locked to clearing it. */
  predicate Owns(pc: Pc) {
    pc.Got? || pc.Holder? || pc.Leaving? || pc.Clearing? || pc == Asking(true)
  }

  predicate Sleeps(pc: Pc) {
    pc.FallAsleep? || pc.Asleep?
  }

  predicate SawLocked(pc: Pc) {
    pc.ToSleep? || pc.BothLocks?
  }

  predicate AboutToWake(pc: Pc) {
    pc.Waking? || pc.WakeAll?
  }

  predicate LkOwner(s: State) {
    && (forall i {:trigger s.pcs[i]} :: 0 <= i < |s.pcs| ==> (HasLk(s.pcs[i]) <==> s.lk == By(i)))
    && (s.lk.By? ==> s.lk.owner < |s.pcs|)
  }

  predicate PtableOwner(s: State) {
    forall i {:trigger s.pcs[i]} :: 0 <= i < |s.pcs| ==> (HasPtable(s.pcs[i]) <==> s.ptable == By(i))
  }

  predicate OwnerKnown(s: State) {
    forall i {:trigger s.pcs[i]} :: 0 <= i < |s.pcs| && Owns(s.pcs[i]) ==> HoldingSleep(s, i)
  }

  predicate LockedOwned(s: State) {
    if s.locked then 0 < s.pid <= |s.pcs| && Owns(s.pcs[s.pid - 1]) else s.pid == 0
  }

  /** Whoever sleeps, or is past the point of no return, will be woken: by the owner, or by one about to wake all. */
  predicate WillWake(s: State) {
    forall i {:trigger s.pcs[i]} :: 0 <= i < |s.pcs| && Sleeps(s.pcs[i]) && !s.locked ==>
      s.lk.By? && s.lk.owner < |s.pcs| && AboutToWake(s.pcs[s.lk.owner])
  }

  predicate StillLocked(s: State) {
    forall i {:trigger s.pcs[i]} :: 0 <= i < |s.pcs| && SawLocked(s.pcs[i]) ==> s.locked
  }

  predicate Inv(s: State) {
    LkOwner(s) && PtableOwner(s) && OwnerKnown(s) && LockedOwned(s) && StillLocked(s) && WillWake(s)
  }

  lemma LkKept(s: State, step: Step)
    requires LkOwner(s) && Enabled(s, step)
    ensures LkOwner(Next(s, step))
  {
    var t := Next(s, step);
    forall i {:trigger t.pcs[i]} | 0 <= i < |t.pcs| ensures HasLk(t.pcs[i]) <==> t.lk == By(i) {
      assert HasLk(s.pcs[i]) <==> s.lk == By(i);
    }
  }

  lemma PtableKept(s: State, step: Step)
    requires PtableOwner(s) && Enabled(s, step)
    ensures PtableOwner(Next(s, step))
  {
    match step
    case Run(i) =>
      if s.pcs[i] != WakeAll {
        hide WakeUp;
      }
    case _ =>
  }

  lemma OwnerKnownKept(s: State, step: Step)
    requires OwnerKnown(s) && Enabled(s, step)
    ensures OwnerKnown(Next(s, step))
  {
  }

  lemma LockedOwnedKept(s: State, step: Step)
    requires OwnerKnown(s) && LockedOwned(s) && Enabled(s, step)
    ensures LockedOwned(Next(s, step))
  {
  }

  lemma StillLockedKept(s: State, step: Step)
    requires LkOwner(s) && StillLocked(s) && Enabled(s, step)
    ensures StillLocked(Next(s, step))
  {
  }

  lemma WillWakeKept(s: State, step: Step)
    requires LkOwner(s) && PtableOwner(s) && StillLocked(s) && WillWake(s) && Enabled(s, step)
    ensures WillWake(Next(s, step))
  {
  }

  lemma StepKeepsInv(s: State, step: Step)
    requires Inv(s) && Enabled(s, step)
    ensures Inv(Next(s, step))
  {
    LkKept(s, step);
    PtableKept(s, step);
    OwnerKnownKept(s, step);
    LockedOwnedKept(s, step);
    StillLockedKept(s, step);
    WillWakeKept(s, step);
    hide *;
  }

  // ----- what the steps of one call add up to -----

  /** The steps of the list, one after the other. */
  predicate Leads(s: State, steps: seq<Step>, t: State)
    decreases |steps|
  {
    if steps == [] then s == t else Enabled(s, steps[0]) && Leads(Next(s, steps[0]), steps[1..], t)
  }

  lemma LeadsFirst(s: State, step: Step, steps: seq<Step>, t: State)
    requires Enabled(s, step) && Leads(Next(s, step), steps, t)
    ensures Leads(s, [step] + steps, t)
  {
    hide Enabled, Next;
    assert ([step] + steps)[1..] == steps;
  }

  lemma LeadsOne(s: State, step: Step)
    requires Enabled(s, step)
    ensures Leads(s, [step], Next(s, step))
  {
    hide Enabled, Next;
    LeadsFirst(s, step, [], Next(s, step));
  }

  /** A process that tests the lock while it is free takes it, and nothing else changes but that it gives lk back. */
  lemma FreeLockTaken(s: State, i: nat)
    requires i < |s.pcs| && s.pcs[i] == Testing && !s.locked
    ensures Leads(s, [Run(i), Run(i)], State(Free, s.ptable, true, i + 1, s.pcs[i := Holder]))
  {
    var s1 := Next(s, Run(i));
    var t := State(Free, s.ptable, true, i + 1, s.pcs[i := Holder]);
    assert s1.pcs[i] == Got && s1.locked && s1.pid == i + 1;
    assert Next(s1, Run(i)).pcs == t.pcs;
    LeadsFirst(s1, Run(i), [], t);
    LeadsFirst(s, Run(i), [Run(i)], t);
  }

  /** acquiresleep of a lock that no one has: it returns with the lock. */
  lemma AcquireTakes(s: State, i: nat)
    requires i < |s.pcs| && s.pcs[i] == Outside && s.lk.Free? && !s.locked
    ensures Leads(s, [StartAcquire(i), Run(i), Run(i), Run(i)], State(Free, s.ptable, true, i + 1, s.pcs[i := Holder]))
  {
    var s1 := Next(s, StartAcquire(i));
    var s2 := Next(s1, Run(i));
    var t := State(Free, s.ptable, true, i + 1, s.pcs[i := Holder]);
    FreeLockTaken(s2, i);
    assert s2.pcs[i := Holder] == t.pcs;
    LeadsFirst(s1, Run(i), [Run(i), Run(i)], t);
    LeadsFirst(s, StartAcquire(i), [Run(i), Run(i), Run(i)], t);
    assert [Run(i)] + [Run(i), Run(i)] == [Run(i), Run(i), Run(i)];
    assert [StartAcquire(i)] + [Run(i), Run(i), Run(i)] == [StartAcquire(i), Run(i), Run(i), Run(i)];
  }

  /** A process that finds the lock taken gives lk back only once it holds ptable.lock, and then sleeps. */
  lemma TakenLockSleeps(s: State, i: nat)
    requires i < |s.pcs| && s.pcs[i] == Testing && s.locked && s.ptable.Free?
    ensures Leads(s, [Run(i), Run(i), Run(i), Run(i)], State(Free, Free, true, s.pid, s.pcs[i := Asleep]))
  {
    var s1 := Next(s, Run(i));
    var s2 := Next(s1, Run(i));
    var s3 := Next(s2, Run(i));
    var t := State(Free, Free, true, s.pid, s.pcs[i := Asleep]);
    assert s2.lk == s.lk && s2.ptable == By(i) && s3.lk.Free? && s3.ptable == By(i);
    assert Next(s3, Run(i)).pcs == t.pcs;
    LeadsFirst(s3, Run(i), [], t);
    LeadsFirst(s2, Run(i), [Run(i)], t);
    LeadsFirst(s1, Run(i), [Run(i), Run(i)], t);
    LeadsFirst(s, Run(i), [Run(i), Run(i), Run(i)], t);
    assert [Run(i)] + [Run(i), Run(i)] == [Run(i), Run(i), Run(i)];
    assert [Run(i)] + [Run(i), Run(i), Run(i)] == [Run(i), Run(i), Run(i), Run(i)];
  }

  lemma {:induction false} LeadsThen(s: State, a: seq<Step>, m: State, b: seq<Step>, t: State)
    requires Leads(s, a, m) && Leads(m, b, t)
    ensures Leads(s, a + b, t)
    decreases |a|
  {
    hide Enabled, Next;
    if a == [] {
      assert a + b == b;
    } else {
      assert (a + b)[1..] == a[1..] + b;
      LeadsThen(Next(s, a[0]), a[1..], m, b, t);
    }
  }

  lemma ReleaseClears(s: State, i: nat)
    requires i < |s.pcs| && s.pcs[i] == Holder && s.lk.Free?
    ensures Leads(s, [StartRelease(i), Run(i), Run(i)], State(By(i), s.ptable, false, 0, s.pcs[i := Waking]))
  {
    var s1 := Next(s, StartRelease(i));
    var s2 := Next(s1, Run(i));
    var t := State(By(i), s.ptable, false, 0, s.pcs[i := Waking]);
    assert Next(s2, Run(i)).pcs == t.pcs;
    LeadsFirst(s2, Run(i), [], t);
    LeadsFirst(s1, Run(i), [Run(i)], t);
    LeadsFirst(s, StartRelease(i), [Run(i), Run(i)], t);
    assert [StartRelease(i)] + [Run(i), Run(i)] == [StartRelease(i), Run(i), Run(i)];
  }

  lemma UpdatedTwice<T>(s: seq<T>, i: nat, x: T, y: T)
    requires i < |s|
    ensures s[i := x][i := y] == s[i := y]
  {
  }

  lemma WakingTurn(s: State, i: nat)
    requires i < |s.pcs| && s.pcs[i] == Waking && s.ptable.Free?
    ensures var s1 := At(s, i, WakeAll).(ptable := By(i));
      && Enabled(s, Run(i)) && Next(s, Run(i)) == s1 && Enabled(s1, Run(i))
      && Next(s1, Run(i)) == s.(ptable := By(i), pcs := WakeUp(s.pcs[i := WakeAll])[i := WokeAll])
  {
    hide WakeUp;
  }

  lemma WakesFirst(s: State, i: nat)
    requires i < |s.pcs| && s.pcs[i] == Waking && s.ptable.Free?
    ensures Leads(s, [Run(i), Run(i)], s.(ptable := By(i), pcs := WakeUp(s.pcs[i := WakeAll])[i := WokeAll]))
  {
    hide Leads, WakeUp, Enabled, Next;
    var s1 := At(s, i, WakeAll).(ptable := By(i));
    WakingTurn(s, i);
    LeadsOne(s1, Run(i));
    LeadsFirst(s, Run(i), [Run(i)], Next(s1, Run(i)));
    assert [Run(i)] + [Run(i)] == [Run(i), Run(i)];
  }

  lemma GivesBack(s: State, i: nat)
    requires i < |s.pcs| && s.pcs[i] == WokeAll
    ensures Leads(s, [Run(i), Run(i)], s.(lk := Free, ptable := Free, pcs := s.pcs[i := Outside]))
  {
    hide Leads, WakeUp;
    var s1 := Next(s, Run(i));
    var t := s.(lk := Free, ptable := Free, pcs := s.pcs[i := Outside]);
    UpdatedTwice(s.pcs, i, Left, Outside);
    assert s1 == At(s, i, Left).(ptable := Free) && Next(s1, Run(i)) == t;
    LeadsOne(s1, Run(i));
    LeadsFirst(s, Run(i), [Run(i)], t);
    assert [Run(i)] + [Run(i)] == [Run(i), Run(i)];
  }

  lemma WakesAll(s: State, i: nat) returns (t: State)
    requires i < |s.pcs| && s.pcs[i] == Waking && s.ptable.Free?
    ensures Leads(s, [Run(i), Run(i), Run(i), Run(i)], t)
    ensures t.lk.Free? && t.ptable.Free? && t.locked == s.locked && t.pid == s.pid && |t.pcs| == |s.pcs|
    ensures forall j :: 0 <= j < |s.pcs| ==>
      t.pcs[j] == if j == i then Outside else if s.pcs[j] == Asleep then Woken else s.pcs[j]
  {
    hide Leads, Next, Enabled, WakeUp;
    var m := s.(ptable := By(i), pcs := WakeUp(s.pcs[i := WakeAll])[i := WokeAll]);
    t := m.(lk := Free, ptable := Free, pcs := m.pcs[i := Outside]);
    WakesFirst(s, i);
    GivesBack(m, i);
    LeadsThen(s, [Run(i), Run(i)], m, [Run(i), Run(i)], t);
    assert [Run(i), Run(i)] + [Run(i), Run(i)] == [Run(i), Run(i), Run(i), Run(i)];
  }

  /** releasesleep: the lock is free, and every process that slept on it is runnable; the others are where they were. */
  lemma ReleaseWakes(s: State, i: nat) returns (t: State)
    requires i < |s.pcs| && s.pcs[i] == Holder && s.lk.Free? && s.ptable.Free?
    ensures Leads(s, [StartRelease(i), Run(i), Run(i)] + [Run(i), Run(i), Run(i), Run(i)], t)
    ensures t.lk.Free? && t.ptable.Free? && !t.locked && t.pid == 0 && |t.pcs| == |s.pcs|
    ensures forall j :: 0 <= j < |s.pcs| ==>
      t.pcs[j] == if j == i then Outside else if s.pcs[j] == Asleep then Woken else s.pcs[j]
  {
    hide Leads, Next;
    var m := State(By(i), s.ptable, false, 0, s.pcs[i := Waking]);
    ReleaseClears(s, i);
    t := WakesAll(m, i);
    LeadsThen(s, [StartRelease(i), Run(i), Run(i)], m, [Run(i), Run(i), Run(i), Run(i)], t);
  }

  /** The states a run goes through; a step that is not enabled cannot be taken. */
  ghost predicate IsRun(states: seq<State>, steps: seq<Step>) {
    && |states| == |steps| + 1
    && forall k :: 0 <= k < |steps| ==> Enabled(states[k], steps[k]) && states[k + 1] == Next(states[k], steps[k])
  }

  lemma {:induction false} RunKeepsInv(n: nat, states: seq<State>, steps: seq<Step>, k: nat)
    requires IsRun(states, steps) && states[0] == Initial(n) && k < |states|
    ensures Inv(states[k])
    decreases k
  {
    if k > 0 {
      RunKeepsInv(n, states, steps, k - 1);
      StepKeepsInv(states[k - 1], steps[k - 1]);
    }
  }

  /** In every reachable state at most one process is between acquiresleep and releasesleep. */
  lemma MutualExclusion(n: nat, states: seq<State>, steps: seq<Step>, k: nat, i: nat, j: nat)
    requires IsRun(states, steps) && states[0] == Initial(n) && k < |states|
    requires i < |states[k].pcs| && j < |states[k].pcs|
    requires Owns(states[k].pcs[i]) && Owns(states[k].pcs[j])
    ensures i == j
  {
    RunKeepsInv(n, states, steps, k);
  }

  /** In every reachable state with the inner lock free, a process asleep on the sleep lock means it is held. */
  lemma NoLostWakeup(n: nat, states: seq<State>, steps: seq<Step>, k: nat, i: nat)
    requires IsRun(states, steps) && states[0] == Initial(n) && k < |states|
    requires i < |states[k].pcs| && states[k].lk.Free? && Sleeps(states[k].pcs[i])
    ensures states[k].locked && exists j :: 0 <= j < |states[k].pcs| && Owns(states[k].pcs[j])
  {
    RunKeepsInv(n, states, steps, k);
  }

  /** holdingsleep tells the truth in every reachable state. */
  lemma HoldingSleepExact(n: nat, states: seq<State>, steps: seq<Step>, k: nat, i: nat)
    requires IsRun(states, steps) && states[0] == Initial(n) && k < |states|
    requires i < |states[k].pcs| && states[k].pcs[i].Asking?
    ensures HoldingSleep(states[k], i) == states[k].pcs[i].held
  {
    RunKeepsInv(n, states, steps, k);
    var s := states[k];
    if HoldingSleep(s, i) {
      assert Owns(s.pcs[i]);
    }
  }

  /**
   The two spin locks never deadlock: while anyone is inside acquiresleep, releasesleep or holdingsleep and
   not asleep, and ptable.lock is not held elsewhere, some process can run.
   */
  lemma SomeoneRuns(n: nat, states: seq<State>, steps: seq<Step>, k: nat, i: nat)
    requires IsRun(states, steps) && states[0] == Initial(n) && k < |states|
    requires i < |states[k].pcs| && states[k].pcs[i] !in {Outside, Holder, Asleep}
    requires states[k].ptable.By? ==> states[k].ptable.owner < |states[k].pcs|
    ensures exists j: nat :: Enabled(states[k], Step.Run(j))
  {
    RunKeepsInv(n, states, steps, k);
    var s := states[k];
    if s.ptable.By? {
      assert Enabled(s, Step.Run(s.ptable.owner));
    } else if s.lk.By? {
      assert Enabled(s, Step.Run(s.lk.owner));
    } else {
      assert Enabled(s, Step.Run(i));
    }
  }
}
