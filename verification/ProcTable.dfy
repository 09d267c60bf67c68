/**
 The process table of proc.c: fork, exit, wait, sleep, wakeup, kill and the scheduler's choice.

 Each step is one section under ptable.lock, or one write that fork makes to the slot it has reserved.
 The relation of a step says, entry by entry, what becomes of the table; the class carries out the steps
 with the loops of proc.c and is proved to do exactly that.
 */
module ProcTables {

  const NPROC: nat := 64

  datatype ProcState = UNUSED | EMBRYO | SLEEPING | RUNNABLE | RUNNING | ZOMBIE

  datatype Link = Nobody | Slot(i: nat)

  /** A wait channel: the address of a process, used by wait, or any other address. */
  datatype Chan = NoChan | OfProc(i: nat) | OfOther(address: int)

  /** `maker` is the process whose fork is filling this slot, while it is EMBRYO. */
  datatype Proc = Proc(state: ProcState, pid: int, parent: Link, chan: Chan, killed: bool, maker: Link)

  type Table = seq<Proc>

  datatype Step =
    | Reserve(me: nat, slot: nat, pid: int)  // allocproc
    | GiveUp(me: nat, slot: nat)           // allocproc or fork fails
    | Adopt(me: nat, slot: nat)            // fork sets np->parent
    | Start(me: nat, slot: nat)            // fork makes the child RUNNABLE
    | Exit(me: nat)
    | Reap(me: nat, child: nat)            // wait finds a zombie
    | NoWait(me: nat)                      // wait returns -1
    | SleepInWait(me: nat)
    | Sleep(me: nat, chan: Chan)
    | Wakeup(chan: Chan)
    | Kill(slot: nat)
    | Yield(me: nat)
    | Dispatch(slot: nat)

  predicate Live(p: Proc) {
    p.state.RUNNABLE? || p.state.RUNNING? || p.state.SLEEPING?
  }

  /** wakeup1 on chan, for one entry. */
  function Woken(p: Proc, chan: Chan): Proc {
    if p.state.SLEEPING? && p.chan == chan then p.(state := RUNNABLE) else p
  }

  predicate ZombieChild(t: Table, me: nat, c: nat) {
    c < |t| && t[c].parent == Slot(me) && t[c].state.ZOMBIE?
  }

  predicate HasZombie(t: Table, me: nat) {
    exists c :: 0 <= c < |t| && ZombieChild(t, me, c)
  }

  predicate HasChild(t: Table, me: nat) {
    exists c :: 0 <= c < |t| && t[c].parent == Slot(me)
  }

  /** Process me runs and is not in the middle of a fork. */
  predicate Ready(t: Table, me: nat) {
    me < |t| && t[me].state.RUNNING? && forall e :: 0 <= e < |t| ==> t[e].maker != Slot(me)
  }

  predicate Making(t: Table, me: nat, slot: nat) {
    me < |t| && slot < |t| && t[me].state.RUNNING? && t[slot].state.EMBRYO? && t[slot].maker == Slot(me)
  }

  /** exit wakes its parent, and init too if it inherits a zombie. */
  function ExitWakes(p: Proc, init: nat, parent: Link, zombies: bool): Proc {
    var q := if parent.Slot? then Woken(p, OfProc(parent.i)) else p;
    if zombies then Woken(q, OfProc(init)) else q
  }

  /** The entry p after process `me` exits: besides the wakeups, a child of `me` goes to init. */
  function AfterExit(p: Proc, me: nat, init: nat, parent: Link, zombies: bool): Proc {
    var q := ExitWakes(p, init, parent, zombies);
    if p.parent == Slot(me) then q.(parent := Slot(init)) else q
  }

  /** Step `step` takes table s to table t. */
  predicate IsStep(s: Table, t: Table, init: nat, step: Step) {
    match step
    case Reserve(me, e, pid) => Ready(s, me) && e < |s| && s[e].state.UNUSED? &&
      t == s[e := s[e].(state := EMBRYO, pid := pid, maker := Slot(me))]
    case GiveUp(me, e) => Making(s, me, e) && s[e].parent.Nobody? &&
      t == s[e := s[e].(state := UNUSED, maker := Nobody)]
    case Adopt(me, e) => Making(s, me, e) && t == s[e := s[e].(parent := Slot(me))]
    case Start(me, e) => Making(s, me, e) && s[e].parent == Slot(me) &&
      t == s[e := s[e].(state := RUNNABLE, maker := Nobody)]
    case Exit(me) => Ready(s, me) && me != init && |t| == |s| &&
      (forall i {:trigger t[i]} :: 0 <= i < |s| && i != me ==>
         t[i] == AfterExit(s[i], me, init, s[me].parent, HasZombie(s, me))) &&
      t[me] == AfterExit(s[me], me, init, s[me].parent, HasZombie(s, me)).(state := ZOMBIE)
    case Reap(me, c) => Ready(s, me) && ZombieChild(s, me, c) &&
      t == s[c := s[c].(pid := 0, parent := Nobody, killed := false, state := UNUSED)]
    case NoWait(me) => Ready(s, me) && !HasZombie(s, me) && (!HasChild(s, me) || s[me].killed) && t == s
    case SleepInWait(me) => Ready(s, me) && !HasZombie(s, me) && HasChild(s, me) && !s[me].killed &&
      t == s[me := s[me].(chan := OfProc(me), state := SLEEPING)]
    case Sleep(me, chan) => Ready(s, me) && chan.OfOther? && t == s[me := s[me].(chan := chan, state := SLEEPING)]
    case Wakeup(chan) => |t| == |s| && forall i {:trigger t[i]} :: 0 <= i < |s| ==> t[i] == Woken(s[i], chan)
    case Kill(i) => i < |s| &&
      t == s[i := s[i].(killed := true, state := if s[i].state.SLEEPING? then RUNNABLE else s[i].state)]
    case Yield(me) => me < |s| && s[me].state.RUNNING? && t == s[me := s[me].(state := RUNNABLE)]
    case Dispatch(i) => i < |s| && s[i].state.RUNNABLE? && t == s[i := s[i].(state := RUNNING, chan := NoChan)]
  }

  /** What holds of every entry whenever ptable.lock is free. */
  predicate EntryOk(t: Table, init: nat, i: nat)
    requires i < |t|
  {
    match t[i].state
    case UNUSED => t[i].parent.Nobody? && t[i].maker.Nobody?
    case EMBRYO =>
      && t[i].maker.Slot? && t[i].maker.i < |t| && !t[t[i].maker.i].state.SLEEPING? && Live(t[t[i].maker.i])
      && (t[i].parent.Nobody? || t[i].parent == t[i].maker)
    case _ =>
      && t[i].maker.Nobody?
      && if i == init then t[i].parent.Nobody? && Live(t[i])
         else t[i].parent.Slot? && t[i].parent.i < |t| && t[i].parent.i != i && Live(t[t[i].parent.i])
  }

  /** A process asleep in wait has no zombie to reap. */
  predicate WaitOk(t: Table, i: nat)
    requires i < |t|
  {
    t[i].state.SLEEPING? && t[i].chan == OfProc(i) ==> !HasZombie(t, i)
  }

  predicate Inv(t: Table, init: nat) {
    && Entries(t, init)
    && (forall i {:trigger WaitOk(t, i)} :: 0 <= i < |t| ==> WaitOk(t, i))
  }

  predicate Entries(t: Table, init: nat) {
    && |t| == NPROC && init < NPROC && !t[init].state.UNUSED? && !t[init].state.EMBRYO?
    && forall i {:trigger EntryOk(t, init, i)} :: 0 <= i < |t| ==> EntryOk(t, init, i)
  }

  /** The steps of fork and the reaping of a zombie, which change one slot's links. */
  lemma SlotStepKeepsEntry(s: Table, t: Table, init: nat, step: Step, i: nat)
    requires Entries(s, init) && IsStep(s, t, init, step) && i < |s|
    requires step.Reserve? || step.GiveUp? || step.Adopt? || step.Start? || step.Reap?
    ensures |t| == |s| && EntryOk(t, init, i)
  {
    var k := if step.Reap? then step.child else step.slot;
    assert EntryOk(s, init, i) && EntryOk(s, init, init) && EntryOk(s, init, k);
  }

  lemma ExitKeepsEntry(s: Table, t: Table, init: nat, me: nat, i: nat)
    requires Entries(s, init) && IsStep(s, t, init, Exit(me)) && i < |s|
    ensures |t| == |s| && EntryOk(t, init, i)
  {
    hide HasZombie;
    assert EntryOk(s, init, i) && EntryOk(s, init, init) && EntryOk(s, init, me);
  }

  lemma RunStepKeepsEntry(s: Table, t: Table, init: nat, step: Step, i: nat)
    requires Entries(s, init) && IsStep(s, t, init, step) && i < |s|
    requires !step.Reserve? && !step.GiveUp? && !step.Adopt? && !step.Start? && !step.Reap? && !step.Exit?
    ensures |t| == |s| && EntryOk(t, init, i)
  {
    hide HasZombie, HasChild;
    assert EntryOk(s, init, i) && EntryOk(s, init, init);
  }

  lemma EntriesKept(s: Table, t: Table, init: nat, step: Step)
    requires Entries(s, init) && IsStep(s, t, init, step)
    ensures Entries(t, init)
  {
    hide EntryOk, IsStep;
    forall i | 0 <= i < |s| ensures |t| == |s| && EntryOk(t, init, i) {
      if step.Exit? {
        ExitKeepsEntry(s, t, init, step.me, i);
      } else if step.Reserve? || step.GiveUp? || step.Adopt? || step.Start? || step.Reap? {
        SlotStepKeepsEntry(s, t, init, step, i);
      } else {
        RunStepKeepsEntry(s, t, init, step, i);
      }
    }
    InitStays(s, t, init, step);
  }

  lemma InitStays(s: Table, t: Table, init: nat, step: Step)
    requires Entries(s, init) && IsStep(s, t, init, step)
    ensures |t| == |s| && !t[init].state.UNUSED? && !t[init].state.EMBRYO?
  {
    hide HasZombie, HasChild;
    assert EntryOk(s, init, init);
  }

  /** Only an exit makes a zombie child, and it wakes the parent. */
  lemma ExitKeepsWait(s: Table, t: Table, init: nat, me: nat, i: nat, c: nat)
    requires Inv(s, init) && IsStep(s, t, init, Exit(me)) && i < |s| && ZombieChild(t, i, c)
    ensures !(t[i].state.SLEEPING? && t[i].chan == OfProc(i))
  {
    assert EntryOk(s, init, i) && EntryOk(s, init, c) && EntryOk(s, init, me) && WaitOk(s, i);
    if c != me {
      if s[c].parent == Slot(me) {
        assert ZombieChild(s, me, c);
      } else {
        assert ZombieChild(s, i, c);
      }
    }
  }

  lemma OtherStepsKeepWait(s: Table, t: Table, init: nat, step: Step, i: nat, c: nat)
    requires Inv(s, init) && IsStep(s, t, init, step) && !step.Exit? && i < |s| && ZombieChild(t, i, c)
    ensures !(t[i].state.SLEEPING? && t[i].chan == OfProc(i))
  {
    assert WaitOk(s, i);
    if ZombieChild(s, i, c) {
      assert HasZombie(s, i);
    }
  }

  /** What the step Exit does to each entry. */
  lemma ExitMeans(s: Table, t: Table, init: nat, me: nat)
    requires IsStep(s, t, init, Exit(me))
    ensures |t| == |s| && t[me].state.ZOMBIE?
    ensures forall i {:trigger t[i]} :: 0 <= i < |s| ==>
      && t[i].parent == (if s[i].parent == Slot(me) then Slot(init) else s[i].parent)
      && t[i].pid == s[i].pid && t[i].chan == s[i].chan && t[i].killed == s[i].killed && t[i].maker == s[i].maker
    ensures
      var zombie := exists c :: 0 <= c < |s| && s[c].parent == Slot(me) && s[c].state.ZOMBIE?;
      forall i {:trigger t[i]} :: 0 <= i < |s| && i != me ==>
        t[i].state ==
        if s[i].state.SLEEPING? &&
           ((s[me].parent.Slot? && s[i].chan == OfProc(s[me].parent.i)) || (zombie && s[i].chan == OfProc(init)))
        then RUNNABLE else s[i].state
  {
    forall c | 0 <= c < |s| && s[c].parent == Slot(me) && s[c].state.ZOMBIE? ensures ZombieChild(s, me, c) {
    }
  }

  lemma StepKeepsInv(s: Table, t: Table, init: nat, step: Step)
    requires Inv(s, init) && IsStep(s, t, init, step)
    ensures Inv(t, init)
  {
    EntriesKept(s, t, init, step);
    hide IsStep, Entries;
    forall i | 0 <= i < |t| ensures WaitOk(t, i) {
      if HasZombie(t, i) {
        var c :| 0 <= c < |t| && ZombieChild(t, i, c);
        if step.Exit? {
          ExitKeepsWait(s, t, init, step.me, i, c);
        } else {
          OtherStepsKeepWait(s, t, init, step, i, c);
        }
      }
    }
  }

  /** The table once userinit has made the first process in slot `init`. */
  predicate Booted(t: Table, init: nat) {
    && |t| == NPROC && init < NPROC
    && forall i {:trigger t[i]} :: 0 <= i < NPROC ==>
      t[i].parent.Nobody? && t[i].maker.Nobody? && t[i].state == (if i == init then RUNNABLE else UNUSED)
  }

  predicate IsRun(tables: seq<Table>, init: nat, steps: seq<Step>) {
    && |tables| == |steps| + 1 && Booted(tables[0], init)
    && forall k :: 0 <= k < |steps| ==> IsStep(tables[k], tables[k + 1], init, steps[k])
  }

  lemma BootedInv(t: Table, init: nat)
    requires Booted(t, init)
    ensures Inv(t, init)
  {
  }

  lemma {:induction false} RunKeepsInv(tables: seq<Table>, init: nat, steps: seq<Step>, k: nat)
    requires IsRun(tables, init, steps) && k < |tables|
    ensures Inv(tables[k], init)
    decreases k
  {
    if k == 0 {
      BootedInv(tables[0], init);
    } else {
      hide Inv, IsStep, Booted;
      RunKeepsInv(tables, init, steps, k - 1);
      assert IsStep(tables[k - 1], tables[k - 1 + 1], init, steps[k - 1]);
      StepKeepsInv(tables[k - 1], tables[k], init, steps[k - 1]);
    }
  }

  /**
   Wait and exit over whole runs: nobody's parent is a zombie or an unused slot, every process but init has
   a parent that can reap it, and no process sleeps in wait while it has a zombie child.
   */
  lemma WaitExitSafety(tables: seq<Table>, init: nat, steps: seq<Step>, k: nat, i: nat)
    requires IsRun(tables, init, steps) && k < |tables| && i < NPROC
    ensures |tables[k]| == NPROC
    ensures tables[k][i].parent.Slot? ==> tables[k][i].parent.i < NPROC && Live(tables[k][tables[k][i].parent.i])
    ensures (Live(tables[k][i]) || tables[k][i].state.ZOMBIE?) && i != init ==> tables[k][i].parent.Slot?
    ensures Live(tables[k][init])
    ensures tables[k][i].state.SLEEPING? && tables[k][i].chan == OfProc(i) ==> !HasZombie(tables[k], i)
  {
    RunKeepsInv(tables, init, steps, k);
    var t := tables[k];
    assert EntryOk(t, init, i) && EntryOk(t, init, init) && WaitOk(t, i);
    hide IsRun;
  }

  /** A zombie has no children, and neither has a free slot. */
  lemma ZombiesAreChildless(tables: seq<Table>, init: nat, steps: seq<Step>, k: nat, z: nat)
    requires IsRun(tables, init, steps) && k < |tables| && z < NPROC && |tables[k]| == NPROC
    requires tables[k][z].state.ZOMBIE? || tables[k][z].state.UNUSED?
    ensures !HasChild(tables[k], z)
  {
    hide IsRun;
    forall c | 0 <= c < NPROC ensures tables[k][c].parent != Slot(z) {
      WaitExitSafety(tables, init, steps, k, c);
    }
  }

  datatype WaitOutcome = Reaped(pid: int) | NoneToWait | WaitSleeps

  /** wait reaps c, the first zombie child, and returns its pid. */
  ghost predicate Reaps(s: Table, t: Table, init: nat, me: nat, c: nat, pid: int) {
    && IsStep(s, t, init, Reap(me, c)) && s[c].pid == pid
    && forall b :: 0 <= b < c ==> !ZombieChild(s, me, b)
  }

  /** kill hits slot i, the first with the pid. */
  ghost predicate Kills(s: Table, t: Table, init: nat, i: nat, pid: int) {
    && IsStep(s, t, init, Step.Kill(i)) && s[i].pid == pid
    && forall b :: 0 <= b < i ==> s[b].pid != pid
  }

  class ProcTable {
    const proc: array<Proc>
    const init: nat
    var nextpid: int

    ghost predicate Valid()
      reads this, proc
    {
      proc.Length == NPROC && Inv(proc[..], init)
    }

    /** The table once userinit has run. */
    constructor (table: array<Proc>, first: nat)
      requires table.Length == NPROC && Booted(table[..], first)
      ensures Valid() && proc == table && init == first
    {
      proc, init, nextpid := table, first, 2;
      new;
      BootedInv(proc[..], init);
    }

    /** wakeup1: the loop over the table. */
    method WakeOne(chan: Chan)
      requires proc.Length == NPROC
      modifies proc
      ensures forall i {:trigger proc[i]} :: 0 <= i < NPROC ==> proc[i] == Woken(old(proc[i]), chan)
      ensures forall i :: 0 <= i < NPROC && old(proc[i]).state.SLEEPING? && old(proc[i]).chan == chan ==>
        proc[i] == old(proc[i]).(state := RUNNABLE)
      ensures forall i :: 0 <= i < NPROC && !(old(proc[i]).state.SLEEPING? && old(proc[i]).chan == chan) ==>
        proc[i] == old(proc[i])
    {
      var p := 0;
      while p < NPROC
        invariant 0 <= p <= NPROC
        invariant forall i {:trigger proc[i]} :: 0 <= i < p ==> proc[i] == Woken(old(proc[i]), chan)
        invariant forall i {:trigger proc[i]} :: p <= i < NPROC ==> proc[i] == old(proc[i])
      {
        if proc[p].state.SLEEPING? && proc[p].chan == chan {
          proc[p] := proc[p].(state := RUNNABLE);
        }
        p := p + 1;
      }
    }

    method Wakeup(chan: Chan)
      requires Valid()
      modifies proc
      ensures Valid() && IsStep(old(proc[..]), proc[..], init, Step.Wakeup(chan))
      ensures forall i :: 0 <= i < NPROC && old(proc[i]).state.SLEEPING? && old(proc[i]).chan == chan ==>
        proc[i] == old(proc[i]).(state := RUNNABLE)
      ensures forall i :: 0 <= i < NPROC && !(old(proc[i]).state.SLEEPING? && old(proc[i]).chan == chan) ==>
        proc[i] == old(proc[i])
    {
      WakeOne(chan);
      StepKeepsInv(old(proc[..]), proc[..], init, Step.Wakeup(chan));
    }

    /** allocproc: reserves the first unused slot. */
    method AllocProc(me: nat) returns (slot: Link)
      requires Valid() && Ready(proc[..], me)
      modifies this`nextpid, proc
      ensures Valid()
      ensures slot.Slot? ==> IsStep(old(proc[..]), proc[..], init, Reserve(me, slot.i, old(nextpid)))
      ensures slot.Slot? ==> slot.i < NPROC && old(proc[slot.i]).state.UNUSED?
      ensures slot.Slot? ==> forall i :: 0 <= i < slot.i ==> !old(proc[i]).state.UNUSED?
      ensures slot.Slot? ==>
        proc[slot.i] == old(proc[slot.i]).(state := EMBRYO, pid := old(nextpid), maker := Slot(me))
      ensures forall i :: 0 <= i < NPROC && slot != Slot(i) ==> proc[i] == old(proc[i])
      ensures slot.Nobody? ==> proc[..] == old(proc[..]) && forall i :: 0 <= i < NPROC ==> !proc[i].state.UNUSED?
      ensures nextpid == old(nextpid) + if slot.Slot? then 1 else 0
    {
      hide Inv, Ready;
      var p := 0;
      while p < NPROC && !proc[p].state.UNUSED?
        invariant 0 <= p <= NPROC && forall i :: 0 <= i < p ==> !proc[i].state.UNUSED?
      {
        p := p + 1;
      }
      if p == NPROC {
        return Nobody;
      }
      proc[p] := proc[p].(state := EMBRYO, pid := nextpid, maker := Slot(me));
      nextpid := nextpid + 1;
      slot := Slot(p);
      StepKeepsInv(old(proc[..]), proc[..], init, Reserve(me, p, old(nextpid)));
    }

    /** allocproc finds no page for the kernel stack, or fork no memory for the copy. */
    method ForkFails(me: nat, slot: nat)
      requires Valid() && Making(proc[..], me, slot) && proc[slot].parent.Nobody?
      modifies proc
      ensures Valid() && IsStep(old(proc[..]), proc[..], init, GiveUp(me, slot))
      ensures proc[slot] == old(proc[slot]).(state := UNUSED, maker := Nobody)
      ensures forall i :: 0 <= i < NPROC && i != slot ==> proc[i] == old(proc[i])
    {
      hide Inv;
      proc[slot] := proc[slot].(state := UNUSED, maker := Nobody);
      StepKeepsInv(old(proc[..]), proc[..], init, GiveUp(me, slot));
    }

    /** The rest of a fork that got its memory: the parent link, then RUNNABLE under ptable.lock. */
    method ForkCompletes(me: nat, slot: nat) returns (pid: int)
      requires Valid() && Making(proc[..], me, slot)
      modifies proc
      ensures Valid() && pid == proc[slot].pid == old(proc[slot].pid)
      ensures proc[..] ==
        old(proc[..])[slot := old(proc[slot]).(parent := Slot(me), state := RUNNABLE, maker := Nobody)]
    {
      hide Inv;
      proc[slot] := proc[slot].(parent := Slot(me));
      ghost var mid := proc[..];
      StepKeepsInv(old(proc[..]), mid, init, Adopt(me, slot));
      pid := proc[slot].pid;
      proc[slot] := proc[slot].(state := RUNNABLE, maker := Nobody);
      StepKeepsInv(mid, proc[..], init, Start(me, slot));
    }

    /** The section of exit under ptable.lock. */
    method ExitProcess(me: nat)
      requires Valid() && Ready(proc[..], me) && me != init
      modifies proc
      ensures Valid() && IsStep(old(proc[..]), proc[..], init, Exit(me))
      ensures proc[me].state.ZOMBIE?
      ensures forall i {:trigger proc[i]} :: 0 <= i < NPROC ==>
        && proc[i].parent == (if old(proc[i]).parent == Slot(me) then Slot(init) else old(proc[i]).parent)
        && proc[i].pid == old(proc[i]).pid && proc[i].chan == old(proc[i]).chan
        && proc[i].killed == old(proc[i]).killed && proc[i].maker == old(proc[i]).maker
      ensures
        var zombie := exists c :: 0 <= c < NPROC && old(proc[c]).parent == Slot(me) && old(proc[c]).state.ZOMBIE?;
        forall i {:trigger proc[i]} :: 0 <= i < NPROC && i != me ==>
          proc[i].state ==
          if old(proc[i]).state.SLEEPING? &&
             ((old(proc[me]).parent.Slot? && old(proc[i]).chan == OfProc(old(proc[me]).parent.i)) ||
              (zombie && old(proc[i]).chan == OfProc(init)))
          then RUNNABLE else old(proc[i]).state
    {
      ghost var s := proc[..];
      assert EntryOk(s, init, me) && EntryOk(s, init, init);
      hide Inv, Entries, EntryOk;
      var parent := proc[me].parent;
      WakeOne(OfProc(parent.i));
      PassChildren(me, parent, s);
      proc[me] := proc[me].(state := ZOMBIE);
      StepKeepsInv(s, proc[..], init, Exit(me));
      ExitMeans(s, proc[..], init, me);
    }

    /** exit's loop: every child goes to init, which is woken if one of them is a zombie. */
    method PassChildren(me: nat, parent: Link, ghost s: Table)
      requires proc.Length == |s| == NPROC && me < NPROC
      requires forall i :: 0 <= i < NPROC ==> proc[i] == ExitWakes(s[i], init, parent, false)
      modifies proc
      ensures forall i {:trigger proc[i]} :: 0 <= i < NPROC ==>
        proc[i] == AfterExit(s[i], me, init, parent, HasZombie(s, me))
    {
      ghost var zombies := false;
      var p := 0;
      while p < NPROC
        invariant 0 <= p <= NPROC
        invariant zombies <==> exists c :: 0 <= c < p && ZombieChild(s, me, c)
        invariant forall i {:trigger proc[i]} :: 0 <= i < p ==> proc[i] == AfterExit(s[i], me, init, parent, zombies)
        invariant forall i {:trigger proc[i]} :: p <= i < NPROC ==> proc[i] == ExitWakes(s[i], init, parent, zombies)
      {
        if proc[p].parent == Slot(me) {
          proc[p] := proc[p].(parent := Slot(init));
          if proc[p].state.ZOMBIE? {
            assert ZombieChild(s, me, p);
            zombies := true;
            WakeOne(OfProc(init));
          }
        }
        p := p + 1;
      }
    }

    /** One pass of wait: reap the first zombie child, or give up, or sleep on the process itself. */
    method Wait(me: nat) returns (r: WaitOutcome)
      requires Valid() && Ready(proc[..], me)
      modifies proc
      ensures Valid()
      ensures r.Reaped? <==> HasZombie(old(proc[..]), me)
      ensures r.Reaped? ==> exists c :: Reaps(old(proc[..]), proc[..], init, me, c, r.pid)
      ensures r.Reaped? ==> exists c ::
        && 0 <= c < NPROC && old(proc[c]).parent == Slot(me) && old(proc[c]).state.ZOMBIE? && old(proc[c]).pid == r.pid
        && (forall b :: 0 <= b < c ==> old(proc[b]).parent != Slot(me) || !old(proc[b]).state.ZOMBIE?)
        && proc[c] == old(proc[c]).(pid := 0, parent := Nobody, killed := false, state := UNUSED)
        && forall i :: 0 <= i < NPROC && i != c ==> proc[i] == old(proc[i])
      ensures !r.Reaped? ==>
        forall c :: 0 <= c < NPROC ==> old(proc[c]).parent != Slot(me) || !old(proc[c]).state.ZOMBIE?
      ensures !r.Reaped? ==>
        (r.NoneToWait? <==> old(proc[me]).killed || forall c :: 0 <= c < NPROC ==> old(proc[c]).parent != Slot(me))
      ensures r.NoneToWait? ==> IsStep(old(proc[..]), proc[..], init, NoWait(me)) && proc[..] == old(proc[..])
      ensures r.WaitSleeps? ==> IsStep(old(proc[..]), proc[..], init, SleepInWait(me))
      ensures r.WaitSleeps? ==> proc[me] == old(proc[me]).(chan := OfProc(me), state := SLEEPING)
      ensures r.WaitSleeps? ==> forall i :: 0 <= i < NPROC && i != me ==> proc[i] == old(proc[i])
    {
      hide Inv;
      ghost var s := proc[..];
      var havekids := false;
      var p := 0;
      while p < NPROC
        invariant 0 <= p <= NPROC && proc[..] == s
        invariant havekids <==> exists c :: 0 <= c < p && s[c].parent == Slot(me)
        invariant forall c :: 0 <= c < p ==> !ZombieChild(s, me, c)
      {
        if proc[p].parent == Slot(me) {
          havekids := true;
          if proc[p].state.ZOMBIE? {
            assert ZombieChild(s, me, p);
            r := Reaped(proc[p].pid);
            proc[p] := proc[p].(pid := 0, parent := Nobody, killed := false, state := UNUSED);
            StepKeepsInv(s, proc[..], init, Reap(me, p));
            assert Reaps(s, proc[..], init, me, p, r.pid);
            forall b | 0 <= b < p ensures s[b].parent != Slot(me) || !s[b].state.ZOMBIE? {
              assert !ZombieChild(s, me, b);
            }
            assert s[p] == old(proc[p]);
            return;
          }
        }
        p := p + 1;
      }
      forall c | 0 <= c < NPROC ensures s[c].parent != Slot(me) || !s[c].state.ZOMBIE? {
        assert !ZombieChild(s, me, c);
      }
      if !havekids || proc[me].killed {
        return NoneToWait;
      }
      proc[me] := proc[me].(chan := OfProc(me), state := SLEEPING);
      StepKeepsInv(s, proc[..], init, SleepInWait(me));
      r := WaitSleeps;
    }

    /** sleep on any channel but a process, which only wait sleeps on. */
    method SleepOn(me: nat, chan: Chan)
      requires Valid() && Ready(proc[..], me) && chan.OfOther?
      modifies proc
      ensures Valid() && IsStep(old(proc[..]), proc[..], init, Sleep(me, chan))
      ensures proc[me] == old(proc[me]).(chan := chan, state := SLEEPING)
      ensures forall i :: 0 <= i < NPROC && i != me ==> proc[i] == old(proc[i])
    {
      hide Inv;
      proc[me] := proc[me].(chan := chan, state := SLEEPING);
      StepKeepsInv(old(proc[..]), proc[..], init, Sleep(me, chan));
    }

    /** kill: the first slot with the pid is marked, and woken if it sleeps. */
    method KillPid(pid: int) returns (found: bool)
      requires Valid()
      modifies proc
      ensures Valid()
      ensures found <==> exists i :: 0 <= i < NPROC && old(proc[..])[i].pid == pid
      ensures found ==> exists i :: Kills(old(proc[..]), proc[..], init, i, pid)
      ensures found ==> exists i ::
        && 0 <= i < NPROC && old(proc[i]).pid == pid && (forall b :: 0 <= b < i ==> old(proc[b]).pid != pid)
        && proc[i].killed
        && proc[i].state == (if old(proc[i]).state.SLEEPING? then RUNNABLE else old(proc[i]).state)
        && proc[i].pid == pid && proc[i].parent == old(proc[i]).parent && proc[i].chan == old(proc[i]).chan
        && proc[i].maker == old(proc[i]).maker
        && forall j :: 0 <= j < NPROC && j != i ==> proc[j] == old(proc[j])
      ensures !found ==> proc[..] == old(proc[..])
    {
      hide Inv;
      ghost var s := proc[..];
      var p := 0;
      while p < NPROC
        invariant 0 <= p <= NPROC && proc[..] == s
        invariant forall b :: 0 <= b < p ==> s[b].pid != pid
      {
        if proc[p].pid == pid {
          proc[p] := proc[p].(killed := true, state := if proc[p].state.SLEEPING? then RUNNABLE else proc[p].state);
          StepKeepsInv(s, proc[..], init, Step.Kill(p));
          assert Kills(s, proc[..], init, p, pid);
          return true;
        }
        p := p + 1;
      }
      found := false;
    }

    method YieldCpu(me: nat)
      requires Valid() && me < NPROC && proc[me].state.RUNNING?
      modifies proc
      ensures Valid() && IsStep(old(proc[..]), proc[..], init, Yield(me))
      ensures proc[me] == old(proc[me]).(state := RUNNABLE)
      ensures forall i :: 0 <= i < NPROC && i != me ==> proc[i] == old(proc[i])
    {
      hide Inv;
      proc[me] := proc[me].(state := RUNNABLE);
      StepKeepsInv(old(proc[..]), proc[..], init, Yield(me));
    }

    /** The scheduler's scan from slot `from`: the next runnable process runs. */
    method Schedule(from: nat) returns (slot: Link)
      requires Valid() && from <= NPROC
      modifies proc
      ensures Valid()
      ensures slot.Slot? ==> from <= slot.i && IsStep(old(proc[..]), proc[..], init, Dispatch(slot.i))
      ensures slot.Slot? ==> slot.i < NPROC && old(proc[slot.i]).state.RUNNABLE?
      ensures slot.Slot? ==> proc[slot.i] == old(proc[slot.i]).(state := RUNNING, chan := NoChan)
      ensures slot.Slot? ==> forall i :: from <= i < slot.i ==> !old(proc[i]).state.RUNNABLE?
      ensures forall i :: 0 <= i < NPROC && slot != Slot(i) ==> proc[i] == old(proc[i])
      ensures slot.Nobody? ==> proc[..] == old(proc[..]) && forall i :: from <= i < NPROC ==> !proc[i].state.RUNNABLE?
    {
      hide Inv;
      var p := from;
      while p < NPROC && !proc[p].state.RUNNABLE?
        invariant from <= p <= NPROC && forall i :: from <= i < p ==> !proc[i].state.RUNNABLE?
      {
        p := p + 1;
      }
      if p == NPROC {
        return Nobody;
      }
      proc[p] := proc[p].(state := RUNNING, chan := NoChan);
      StepKeepsInv(old(proc[..]), proc[..], init, Dispatch(p));
      slot := Slot(p);
    }
  }
}
