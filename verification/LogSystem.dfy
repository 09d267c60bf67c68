/**
 The log and the buffer cache together, and the atomic disk that they implement.

 A `Sys` is the disk, what the cache shows of it, and the state of the log; its actions are the calls that file
 system code makes, a power loss and a recovery. An `Atomic` is what programs may rely on: `current` is what they
 read, `committed` what a power loss leaves of it. The class `Log` is tied to these actions in its contracts.
 */
module LogSystems {
  import opened Blocks
  import opened LogSpec

  ghost predicate Distinct(blocks: seq<nat>) {
    forall i, j :: 0 <= i < j < |blocks| ==> blocks[i] != blocks[j]
  }

  ghost function Elements(blocks: seq<nat>): set<nat> {
    set b | b in blocks
  }

  /** The current contents of the blocks of a group. */
  ghost function Values(view: Image, blocks: seq<nat>): (vals: seq<Block>)
    requires forall j :: 0 <= j < |blocks| ==> blocks[j] < |view|
    ensures |vals| == |blocks|
  {
    seq(|blocks|, (j: nat) requires j < |blocks| => view[blocks[j]])
  }

  /** While a commit runs, `start` is the disk as it was before, and `done` counts the block writes so far. */
  datatype Phase = Idle | Committing(start: Image, done: nat)

  /** `group` are the blocks logged since the last commit, `held` those whose buffers are held. */
  datatype Sys = Sys(
    disk: Image, view: Image, group: seq<nat>, held: set<nat>, outstanding: nat, phase: Phase, up: bool)

  /** A commit is one action for each block write; `writes` counts those of a recovery before power is lost. */
  datatype Action =
    | BeginOp
    | Bread(b: nat)
    | Modify(b: nat, data: Block)
    | LogWrite(b: nat)
    | Brelse(b: nat)
    | EndOp
    | CommitWrite
    | PowerLoss
    | Recover(writes: nat)

  /** A machine whose memory holds nothing but what is on the disk. */
  function Fresh(disk: Image, up: bool): Sys {
    Sys(disk, disk, [], {}, 0, Idle, up)
  }

  // ----- the single block writes of commit -----

  /** The block that write k of the commit of a group goes to: log blocks, the header, home blocks, the header. */
  function Target(g: Geometry, group: seq<nat>, k: nat): nat
    requires k < CommitWrites(|group|)
  {
    var n := |group|;
    if k < n then g.start + k + 1 else if n < k <= 2 * n then group[k - n - 1] else g.start
  }

  /** The block that it is copied from; the header is changed in place. */
  function Origin(g: Geometry, group: seq<nat>, k: nat): nat
    requires k < CommitWrites(|group|)
  {
    var n := |group|;
    if k < n then group[k] else if n < k <= 2 * n then g.start + k - n else g.start
  }

  /** What it stores, taken from the cache. */
  ghost function Copied(g: Geometry, view: Image, group: seq<nat>, k: nat): Block
    requires Loggable(g, |view|, group) && k < CommitWrites(|group|)
  {
    var n := |group|;
    var data := view[Origin(g, group, k)];
    if k == n then EncodeHeader(data, group) else if k == 2 * n + 1 then EncodeHeader(data, []) else data
  }

  /** What the code allows, and what it asks of its callers: a buffer is released unchanged or logged. */
  ghost predicate Can(g: Geometry, s: Sys, a: Action) {
    match a
    case BeginOp => s.up && s.phase.Idle? && |s.group| + (s.outstanding + 1) * MAXOPBLOCKS <= LOGSIZE
    case Bread(b) => s.up && b < |s.view| && b !in s.held
    case Modify(b, _) => s.up && s.phase.Idle? && b < |s.view| && b in s.held
    case LogWrite(b) =>
      s.up && b < |s.view| && b in s.held && !g.InLog(b) && s.outstanding >= 1 &&
      |s.group| < LOGSIZE && |s.group| + 1 < g.size
    case Brelse(b) =>
      s.up && b < |s.view| == |s.disk| && b in s.held && (s.view[b] == s.disk[b] || b in s.group)
    case EndOp => s.up && s.outstanding >= 1 && (s.outstanding == 1 ==> Settled(s))
    case CommitWrite =>
      s.up && s.phase.Committing? && s.phase.done < CommitWrites(|s.group|) &&
      Target(g, s.group, s.phase.done) !in s.held && Origin(g, s.group, s.phase.done) !in s.held
    case PowerLoss => true
    case Recover(_) => !s.up
  }

  /** Buffers that are held, by readers that belong to no operation say, are unchanged or logged. */
  ghost predicate Settled(s: Sys) {
    forall b :: b in s.held && b < |s.view| == |s.disk| ==> s.view[b] == s.disk[b] || b in s.group
  }

  /** The header of a group reaches the disk, or the last outstanding operation ends with nothing logged. */
  predicate Commits(s: Sys, a: Action) {
    (a.EndOp? && s.outstanding == 1 && s.group == []) ||
    (a.CommitWrite? && s.phase.Committing? && s.phase.done == |s.group|)
  }

  ghost function After(g: Geometry, s: Sys, a: Action): Sys
    requires Inv(g, s) && Can(g, s, a)
  {
    match a
    case BeginOp => s.(outstanding := s.outstanding + 1)
    case Bread(b) => s.(held := s.held + {b})
    case Modify(b, data) => s.(view := s.view[b := data])
    case LogWrite(b) => s.(group := if b in s.group then s.group else s.group + [b])
    case Brelse(b) => s.(held := s.held - {b})
    case EndOp =>
      s.(outstanding := s.outstanding - 1,
         phase := if s.outstanding > 1 || s.group == [] then Idle else Committing(s.disk, 0))
    case CommitWrite => AfterWrite(g, s)
    case PowerLoss => Fresh(s.disk, false)
    case Recover(writes) =>
      var total := RecoverWrites(g, s.disk);
      Fresh(RecoverImage(g, s.disk, if writes < total then writes else total), writes >= total)
  }

  /** One turn of write_log or install_trans, or write_head: the block goes through the cache to the disk. */
  ghost function AfterWrite(g: Geometry, s: Sys): Sys
    requires |s.view| == |s.disk| && Loggable(g, |s.view|, s.group)
    requires s.phase.Committing? && s.phase.done < CommitWrites(|s.group|)
  {
    var k := s.phase.done;
    var to, data := Target(g, s.group, k), Copied(g, s.view, s.group, k);
    var last := k + 1 == CommitWrites(|s.group|);
    s.(disk := s.disk[to := data], view := s.view[to := data], group := if last then [] else s.group,
       phase := if last then Idle else s.phase.(done := k + 1))
  }

  /** The cache differs from the disk only at blocks that are logged or held; nothing is logged between operations. */
  ghost predicate Inv(g: Geometry, s: Sys) {
    && WellFormed(g, s.disk) && |s.view| == |s.disk|
    && (s.up ==> Loggable(g, |s.disk|, s.group) && Distinct(s.group))
    && (forall b :: 0 <= b < |s.view| && s.view[b] != s.disk[b] ==> b in s.group || b in s.held)
    && (s.outstanding == 0 && s.phase.Idle? ==> s.group == [])
    && (s.up && s.phase.Idle? ==> Clean(g, s.disk))
    && (s.phase.Committing? ==> s.up && s.outstanding == 0 && Underway(g, s))
  }

  /** In the middle of a commit the disk is as the specification of its writes says. */
  ghost predicate Underway(g: Geometry, s: Sys)
    requires s.phase.Committing? && |s.view| == |s.disk| && Loggable(g, |s.disk|, s.group)
  {
    var start, k := s.phase.start, s.phase.done;
    && k < CommitWrites(|s.group|) && Clean(g, start) && |start| == |s.disk|
    && s.disk == CommitImage(g, start, s.group, Values(s.view, s.group), k)
    && (forall b: nat :: g.InLog(b) ==> s.view[b] == s.disk[b])
    && (forall b :: 0 <= b < |start| && !g.InLog(b) && s.view[b] != start[b] ==> b in s.group)
  }

  /** Action a is possible in s and leads to t. */
  ghost predicate Does(g: Geometry, s: Sys, a: Action, t: Sys) {
    Inv(g, s) && Can(g, s, a) && t == After(g, s, a)
  }

  lemma LogWriteDoes(g: Geometry, s: Sys, b: nat, t: Sys)
    requires Inv(g, s) && Can(g, s, Action.LogWrite(b))
    requires t == s.(group := if b in s.group then s.group else s.group + [b])
    ensures Does(g, s, Action.LogWrite(b), t)
  {
    hide Inv;
  }

  lemma RecoveryDoes(g: Geometry, disk: Image)
    requires WellFormed(g, disk)
    ensures Does(g, Fresh(disk, false), Action.Recover(RecoverWrites(g, disk)), Fresh(Recovered(g, disk), true))
  {
    hide RecoverImage, DecodeHeader;
  }

  // ----- the atomic disk -----

  datatype Atomic = Atomic(committed: Image, current: Image)

  /** A store changes what programs read; the header write commits it; a power loss goes back. */
  function AtomicAfter(s: Sys, d: Atomic, a: Action): Atomic {
    match a
    case Modify(b, data) => if b < |d.current| then d.(current := d.current[b := data]) else d
    case PowerLoss => Atomic(d.committed, d.committed)
    case _ => if Commits(s, a) then Atomic(d.current, d.current) else d
  }

  ghost predicate Refines(g: Geometry, s: Sys, d: Atomic) {
    && Inv(g, s)
    && SameHome(g, Recovered(g, s.disk), d.committed)
    && SameHome(g, if s.up then s.view else Recovered(g, s.disk), d.current)
    && (s.up && s.phase.Idle? ==> SameHome(g, s.disk, d.committed))
    && (s.phase.Committing? ==> SameHome(g, if s.phase.done <= |s.group| then s.phase.start else s.view, d.committed))
  }

  /** If the cache differs from the disk only at blocks of the group, the group makes the disk what the cache shows. */
  lemma {:induction false} GroupShowsView(disk: Image, view: Image, blocks: seq<nat>, k: nat)
    requires |view| == |disk| && k <= |blocks| && forall j :: 0 <= j < |blocks| ==> blocks[j] < |disk|
    ensures |ApplyGroup(disk, blocks[..k], Values(view, blocks)[..k])| == |disk|
    ensures forall b :: 0 <= b < |disk| ==>
      ApplyGroup(disk, blocks[..k], Values(view, blocks)[..k])[b] == if b in blocks[..k] then view[b] else disk[b]
  {
    if k > 0 {
      GroupShowsView(disk, view, blocks, k - 1);
      assert blocks[..k][..k - 1] == blocks[..k - 1];
      assert Values(view, blocks)[..k][..k - 1] == Values(view, blocks)[..k - 1];
      assert blocks[..k] == blocks[..k - 1] + [blocks[k - 1]];
    }
  }

  lemma GroupIsView(disk: Image, view: Image, blocks: seq<nat>)
    requires |view| == |disk| && forall j :: 0 <= j < |blocks| ==> blocks[j] < |disk|
    requires forall b :: 0 <= b < |view| && view[b] != disk[b] ==> b in blocks
    ensures ApplyGroup(disk, blocks, Values(view, blocks)) == view
  {
    GroupShowsView(disk, view, blocks, |blocks|);
    assert blocks[..|blocks|] == blocks && Values(view, blocks)[..|blocks|] == Values(view, blocks);
  }

  /** The home blocks of one image with the log of another. */
  ghost function WithLog(g: Geometry, home: Image, log: Image): (r: Image)
    requires |home| == |log|
    ensures |r| == |home|
    ensures forall b :: 0 <= b < |r| ==> r[b] == if g.InLog(b) then log[b] else home[b]
  {
    seq(|home|, (b: nat) requires b < |home| => if g.InLog(b) then log[b] else home[b])
  }

  /** The cache differs from the old disk at home blocks of the group only. */
  ghost predicate Covers(g: Geometry, disk: Image, view: Image, blocks: seq<nat>) {
    && |view| == |disk|
    && forall b :: 0 <= b < |view| && !g.InLog(b) && view[b] != disk[b] ==> b in blocks
  }

  /**
   A crash at any write of a commit: recovery gives the old home blocks or what the cache showed, and the latter
   exactly from the header write on.
   */
  lemma CommitIsAtomic(g: Geometry, disk: Image, view: Image, blocks: seq<nat>, k: nat)
    requires Clean(g, disk) && Loggable(g, |disk|, blocks) && Covers(g, disk, view, blocks)
    requires k <= CommitWrites(|blocks|)
    ensures WellFormed(g, CommitImage(g, disk, blocks, Values(view, blocks), k))
    ensures SameHome(g, Recovered(g, CommitImage(g, disk, blocks, Values(view, blocks), k)),
                     if k <= |blocks| then disk else view)
  {
    hide CommitImage, RecoverImage, Recovered, ApplyGroup, DecodeHeader;
    CommitCrash(g, disk, blocks, Values(view, blocks), k);
    GroupGivesView(g, disk, view, blocks);
  }

  lemma GroupGivesView(g: Geometry, disk: Image, view: Image, blocks: seq<nat>)
    requires Loggable(g, |disk|, blocks) && Covers(g, disk, view, blocks)
    ensures SameHome(g, ApplyGroup(disk, blocks, Values(view, blocks)), view)
  {
    var home := WithLog(g, view, disk);
    assert Values(home, blocks) == Values(view, blocks);
    GroupIsView(disk, home, blocks);
  }

  /** A commit that is not interrupted leaves on the disk what the cache showed, and an empty log. */
  lemma CommitStoresView(g: Geometry, disk: Image, view: Image, blocks: seq<nat>)
    requires Clean(g, disk) && Loggable(g, |disk|, blocks) && Covers(g, disk, view, blocks)
    ensures var r := CommitImage(g, disk, blocks, Values(view, blocks), CommitWrites(|blocks|));
      Clean(g, r) && SameHome(g, r, view)
  {
    hide CommitImage, ApplyGroup;
    CommitCompletes(g, disk, blocks, Values(view, blocks));
    GroupGivesView(g, disk, view, blocks);
  }

  // ----- one write of a commit -----

  /** Copying one block through the cache is the next write of the specification, and changes no home block in it. */
  lemma WriteIsNext(g: Geometry, start: Image, view: Image, disk: Image, group: seq<nat>, k: nat)
    requires |view| == |disk| == |start| && Loggable(g, |disk|, group) && Distinct(group) && k < CommitWrites(|group|)
    requires disk == CommitImage(g, start, group, Values(view, group), k)
    requires forall b: nat :: g.InLog(b) ==> view[b] == disk[b]
    ensures var to, data := Target(g, group, k), Copied(g, view, group, k);
      && to < |disk|
      && disk[to := data] == CommitImage(g, start, group, Values(view, group), k + 1)
      && (!g.InLog(to) ==> data == view[to])
  {
    var n, vals := |group|, Values(view, group);
    var head := WriteHeader(g, WriteLogUpTo(g, start, vals, n), group);
    if k < n {
      assert g.InLog(g.start + k + 1);
    } else if k == n {
      assert g.InLog(g.start);
    } else if k <= 2 * n {
      InstallWrite(g, start, view, disk, group, k);
    } else {
      assert g.InLog(g.start);
    }
  }

  /** An installing write takes from the log what the cache shows at the home block. */
  lemma InstallWrite(g: Geometry, start: Image, view: Image, disk: Image, group: seq<nat>, k: nat)
    requires |view| == |disk| == |start| && Loggable(g, |disk|, group) && |group| < k <= 2 * |group|
    requires disk == CommitImage(g, start, group, Values(view, group), k)
    requires forall b: nat :: g.InLog(b) ==> view[b] == disk[b]
    ensures var to, data := group[k - |group| - 1], view[g.start + k - |group|];
      disk[to := data] == CommitImage(g, start, group, Values(view, group), k + 1) && data == view[to]
  {
    hide EncodeHeader;
    var n, vals, j := |group|, Values(view, group), k - |group| - 1;
    var head := WriteHeader(g, WriteLogUpTo(g, start, vals, n), group);
    InstallKeepsLog(g, head, group, j);
    assert g.InLog(g.start + j + 1);
    assert head[g.start + 1 + j] == vals[j];
  }

  // ----- every action refines -----

  /** EndOp of the last operation starts the commit; with nothing logged there is nothing to do. */
  lemma EndRefines(g: Geometry, s: Sys, d: Atomic)
    requires Refines(g, s, d) && Can(g, s, EndOp)
    ensures Refines(g, After(g, s, EndOp), AtomicAfter(s, d, EndOp))
  {
    hide Recovered, RecoverImage, DecodeHeader, EncodeHeader, WellFormed, Clean;
    assert s.group != [] ==> CommitWrites(|s.group|) > 0;
    assert s.group == [] && s.outstanding == 1 ==> SameHome(g, s.view, s.disk);
  }

  /** No write of a commit changes what the cache shows of the home blocks. */
  lemma WriteKeepsView(g: Geometry, s: Sys)
    requires Inv(g, s) && Can(g, s, CommitWrite)
    ensures SameHome(g, After(g, s, CommitWrite).view, s.view)
  {
    hide CommitImage, Copied, Target, Origin, WellFormed, Clean;
    WriteIsNext(g, s.phase.start, s.view, s.disk, s.group, s.phase.done);
  }

  lemma WriteRefines(g: Geometry, s: Sys, d: Atomic)
    requires Refines(g, s, d) && Can(g, s, CommitWrite)
    ensures Refines(g, After(g, s, CommitWrite), AtomicAfter(s, d, CommitWrite))
  {
    hide CommitImage, Copied, Target, Origin, WellFormed, Clean, Recovered;
    var t, start, k := After(g, s, CommitWrite), s.phase.start, s.phase.done;
    WriteIsNext(g, start, s.view, s.disk, s.group, k);
    SameValues(g, s.view, t.view, s.group);
    CommitIsAtomic(g, start, s.view, s.group, k + 1);
    CommitStoresView(g, start, s.view, s.group);
  }

  lemma RecoverRefines(g: Geometry, s: Sys, d: Atomic, writes: nat)
    requires Refines(g, s, d) && Can(g, s, Action.Recover(writes))
    ensures Refines(g, After(g, s, Action.Recover(writes)), AtomicAfter(s, d, Action.Recover(writes)))
  {
    hide RecoverImage, DecodeHeader, EncodeHeader, WellFormed;
    var total := RecoverWrites(g, s.disk);
    RecoverCrash(g, s.disk, if writes < total then writes else total);
  }

  /** Each action of log and cache is one action of the atomic disk. */
  lemma ActionRefines(g: Geometry, s: Sys, d: Atomic, a: Action)
    requires Refines(g, s, d) && Can(g, s, a)
    ensures Refines(g, After(g, s, a), AtomicAfter(s, d, a))
  {
    hide Recovered, CommitImage, RecoverImage, DecodeHeader, WellFormed, Clean, AfterWrite;
    match a
    case EndOp => EndRefines(g, s, d);
    case CommitWrite => WriteRefines(g, s, d);
    case Recover(writes) => RecoverRefines(g, s, d, writes);
    case _ =>
  }

  // ----- whole runs -----

  /** The states ss[0], ss[1], ... that the actions go through; that Inv holds in each is proved below. */
  ghost predicate Behaviour(g: Geometry, ss: seq<Sys>, actions: seq<Action>) {
    && |ss| == |actions| + 1
    && forall i :: 0 <= i < |actions| ==>
         Inv(g, ss[i]) ==> Can(g, ss[i], actions[i]) && ss[i + 1] == After(g, ss[i], actions[i])
  }

  ghost function AtomicRun(ss: seq<Sys>, actions: seq<Action>, d: Atomic, i: nat): Atomic
    requires i <= |actions| < |ss|
  {
    if i == 0 then d else AtomicAfter(ss[i - 1], AtomicRun(ss, actions, d, i - 1), actions[i - 1])
  }

  /** At every moment of every run, with power losses anywhere, log and cache are the atomic disk. */
  lemma {:induction false} BehaviourRefines(g: Geometry, ss: seq<Sys>, actions: seq<Action>, d: Atomic, i: nat)
    requires Behaviour(g, ss, actions) && i < |ss| && Refines(g, ss[0], d)
    ensures Refines(g, ss[i], AtomicRun(ss, actions, d, i)) && Inv(g, ss[i])
  {
    hide Refines, Inv, Can, After, AtomicAfter;
    if i > 0 {
      BehaviourRefines(g, ss, actions, d, i - 1);
      StepAt(g, ss, actions, i - 1);
      ActionRefines(g, ss[i - 1], AtomicRun(ss, actions, d, i - 1), actions[i - 1]);
    }
    RefinesInv(g, ss[i], AtomicRun(ss, actions, d, i));
  }

  lemma StepAt(g: Geometry, ss: seq<Sys>, actions: seq<Action>, i: nat)
    requires Behaviour(g, ss, actions) && i < |actions| && Inv(g, ss[i])
    ensures Can(g, ss[i], actions[i]) && ss[i + 1] == After(g, ss[i], actions[i])
  {
    hide Inv, Can, After;
  }

  lemma RefinesInv(g: Geometry, s: Sys, d: Atomic)
    requires Refines(g, s, d)
    ensures Inv(g, s)
  {
  }

  /** How many of the first i actions there are up to the last one that reached a commit point. */
  function LastCommit(ss: seq<Sys>, actions: seq<Action>, i: nat): (k: nat)
    requires i <= |actions| < |ss|
    ensures k <= i && (k > 0 ==> Commits(ss[k - 1], actions[k - 1]))
    ensures forall j :: k <= j < i ==> !Commits(ss[j], actions[j])
  {
    if i == 0 then 0 else if Commits(ss[i - 1], actions[i - 1]) then i else LastCommit(ss, actions, i - 1)
  }

  /**
   Crash safety of log and cache: from a machine just booted, whenever power fails, recovery shows what the cache
   showed when the last operation of the last committed group ended, and nothing of the operations after that.
   */
  lemma CrashSafety(g: Geometry, ss: seq<Sys>, actions: seq<Action>, i: nat)
    requires Behaviour(g, ss, actions) && i < |ss| && Clean(g, ss[0].disk) && ss[0] == Fresh(ss[0].disk, true)
    ensures WellFormed(g, ss[i].disk)
    ensures var k := LastCommit(ss, actions, i);
      SameHome(g, Recovered(g, ss[i].disk), if k == 0 then ss[0].disk else ss[k - 1].view)
  {
    hide Refines, Inv, Can, After, Recovered, SameHome, WellFormed, AtomicRun, LastCommit;
    var d := Atomic(ss[0].disk, ss[0].disk);
    BootRefines(g, ss[0].disk);
    BehaviourRefines(g, ss, actions, d, i);
    CommittedIs(g, ss, actions, d, i);
    var k := LastCommit(ss, actions, i);
    RecoversCommitted(g, ss[i], AtomicRun(ss, actions, d, i), if k == 0 then ss[0].disk else ss[k - 1].view);
  }

  lemma BootRefines(g: Geometry, disk: Image)
    requires Clean(g, disk)
    ensures Refines(g, Fresh(disk, true), Atomic(disk, disk))
  {
    hide Recovered;
    CleanRecovers(g, disk);
  }

  lemma RecoversCommitted(g: Geometry, s: Sys, d: Atomic, shown: Image)
    requires Refines(g, s, d) && SameHome(g, shown, d.committed)
    ensures WellFormed(g, s.disk) && SameHome(g, Recovered(g, s.disk), shown)
  {
    hide Recovered;
  }

  lemma CommittedStep(g: Geometry, s: Sys, d: Atomic, a: Action)
    requires Refines(g, s, d) && Can(g, s, a)
    ensures if Commits(s, a) then SameHome(g, s.view, AtomicAfter(s, d, a).committed)
            else AtomicAfter(s, d, a).committed == d.committed
  {
    hide Inv, Recovered;
  }

  /** `committed` is what the cache showed at the last commit point. */
  lemma {:induction false} CommittedIs(g: Geometry, ss: seq<Sys>, actions: seq<Action>, d: Atomic, i: nat)
    requires Behaviour(g, ss, actions) && i < |ss| && Refines(g, ss[0], d)
    ensures var k := LastCommit(ss, actions, i);
      SameHome(g, if k == 0 then d.committed else ss[k - 1].view, AtomicRun(ss, actions, d, i).committed)
  {
    hide Refines, Can, Commits, AtomicAfter, After, Inv, Recovered;
    if i == 0 {
      SameHomeSelf(g, d.committed);
    } else {
      CommittedIs(g, ss, actions, d, i - 1);
      BehaviourRefines(g, ss, actions, d, i - 1);
      StepAt(g, ss, actions, i - 1);
      CommittedStep(g, ss[i - 1], AtomicRun(ss, actions, d, i - 1), actions[i - 1]);
    }
  }

  lemma SameHomeSelf(g: Geometry, a: Image)
    ensures SameHome(g, a, a)
  {
  }

  /** When no operation runs, no commit is under way and no held buffer is modified, a power loss takes nothing away. */
  lemma IdleIsCommitted(g: Geometry, s: Sys, d: Atomic)
    requires Refines(g, s, d) && s.outstanding == 0 && s.phase.Idle? && Settled(s)
    ensures SameHome(g, d.committed, d.current)
  {
    hide Recovered;
    if s.up {
      assert s.view == s.disk;
    }
  }

  // ----- how file system code uses them -----

  /** The actions can lead from s to t. */
  ghost predicate RunsTo(g: Geometry, s: Sys, actions: seq<Action>, t: Sys) {
    exists ss :: Behaviour(g, ss, actions) && ss[0] == s && ss[|actions|] == t
  }

  /** A transaction's update of one block: bread, a store, log_write, brelse. */
  ghost function Updated(s: Sys, b: nat, data: Block): Sys
    requires b < |s.view|
  {
    s.(view := s.view[b := data], group := if b in s.group then s.group else s.group + [b])
  }

  function UpdateActions(b: nat, data: Block): seq<Action> {
    [Action.Bread(b), Modify(b, data), Action.LogWrite(b), Action.Brelse(b)]
  }

  /** An update inside a transaction, with room in the log, is a run of the four actions. */
  lemma UpdateRuns(g: Geometry, s: Sys, b: nat, data: Block)
    requires Inv(g, s) && s.up && b < |s.view| && b !in s.held && !g.InLog(b) && s.outstanding >= 1
    requires |s.group| < LOGSIZE && |s.group| + 1 < g.size
    ensures RunsTo(g, s, UpdateActions(b, data), Updated(s, b, data))
  {
    hide WellFormed, Clean;
    var read := s.(held := s.held + {b});
    var stored := read.(view := s.view[b := data]);
    var logged := stored.(group := if b in s.group then s.group else s.group + [b]);
    var ss := [s, read, stored, logged, Updated(s, b, data)];
    assert Does(g, ss[0], Action.Bread(b), ss[1]);
    assert Does(g, ss[1], Modify(b, data), ss[2]);
    assert Does(g, ss[2], Action.LogWrite(b), ss[3]);
    assert s.held + {b} - {b} == s.held;
    assert Does(g, ss[3], Action.Brelse(b), ss[4]);
    FourSteps(g, ss, UpdateActions(b, data));
  }

  lemma FourSteps(g: Geometry, ss: seq<Sys>, actions: seq<Action>)
    requires |ss| == 5 && |actions| == 4
    requires Does(g, ss[0], actions[0], ss[1]) && Does(g, ss[1], actions[1], ss[2])
    requires Does(g, ss[2], actions[2], ss[3]) && Does(g, ss[3], actions[3], ss[4])
    ensures Behaviour(g, ss, actions)
  {
    hide Inv, Can, After;
  }

  /** A commit that need not wait for anyone: end_op and then all its block writes. */
  function EndActions(s: Sys): seq<Action> {
    [EndOp] + seq(if s.outstanding == 1 then CommitWrites(|s.group|) else 0, _ => CommitWrite)
  }

  /** The state after the last end_op and k block writes, with nobody else in between. */
  ghost function Midway(g: Geometry, s: Sys, k: nat): Sys
    requires |s.view| == |s.disk| && Loggable(g, |s.disk|, s.group) && k <= CommitWrites(|s.group|)
  {
    var img := CommitImage(g, s.disk, s.group, Values(s.view, s.group), k);
    var done := k == CommitWrites(|s.group|);
    Sys(img, WithLog(g, s.view, img), if done then [] else s.group, s.held, 0,
        if done then Idle else Committing(s.disk, k), true)
  }

  /** Nobody holds a block that the commit reads or writes. */
  ghost predicate OutOfTheWay(g: Geometry, s: Sys) {
    forall b :: b in s.held ==> !g.InLog(b) && b !in s.group
  }

  lemma MidwayWrites(g: Geometry, s: Sys, k: nat)
    requires Inv(g, s) && s.up && s.phase.Idle? && OutOfTheWay(g, s) && k < CommitWrites(|s.group|)
    requires Inv(g, Midway(g, s, k))
    ensures Can(g, Midway(g, s, k), CommitWrite) && After(g, Midway(g, s, k), CommitWrite) == Midway(g, s, k + 1)
  {
    hide Inv, CommitImage, Copied, Target, Origin, Values, WithLog;
    UpFacts(g, s);
    var m := Midway(g, s, k);
    var to, data := Target(g, s.group, k), Copied(g, m.view, s.group, k);
    SameValues(g, s.view, m.view, s.group);
    WriteIsNext(g, s.disk, m.view, m.disk, s.group, k);
    TargetsUsed(g, s.group, k);
    StoredView(g, s.view, m.disk, to, data);
  }

  lemma UpFacts(g: Geometry, s: Sys)
    requires Inv(g, s) && s.up
    ensures |s.view| == |s.disk| && Loggable(g, |s.disk|, s.group) && Distinct(s.group)
  {
  }

  lemma SameValues(g: Geometry, a: Image, b: Image, group: seq<nat>)
    requires Loggable(g, |a|, group) && SameHome(g, a, b)
    ensures Values(a, group) == Values(b, group)
  {
  }

  /** A store in both the log and the cache, or of what the cache shows already. */
  lemma StoredView(g: Geometry, home: Image, log: Image, to: nat, data: Block)
    requires |home| == |log| && to < |log| && (!g.InLog(to) ==> data == home[to])
    ensures WithLog(g, home, log)[to := data] == WithLog(g, home, log[to := data])
  {
  }

  lemma TargetsUsed(g: Geometry, group: seq<nat>, k: nat)
    requires k < CommitWrites(|group|) && |group| + 1 <= g.size
    ensures g.InLog(Target(g, group, k)) || Target(g, group, k) in group
    ensures g.InLog(Origin(g, group, k)) || Origin(g, group, k) in group
  {
  }

  /** end_op as one piece is a run of its actions. */
  lemma EndRuns(g: Geometry, s: Sys)
    requires Inv(g, s) && Can(g, s, EndOp)
    requires s.outstanding == 1 ==> OutOfTheWay(g, s)
    ensures RunsTo(g, s, EndActions(s), if s.outstanding == 1 then Midway(g, s, CommitWrites(|s.group|))
                                       else s.(outstanding := s.outstanding - 1))
  {
    if s.outstanding == 1 {
      CommitRuns(g, s);
    } else {
      var t := s.(outstanding := s.outstanding - 1);
      var ss := [s, t];
      assert Behaviour(g, ss, EndActions(s)) && ss[0] == s && ss[1] == t;
    }
  }

  /** The states of an uninterrupted commit. */
  ghost function MidwayStates(g: Geometry, s: Sys): (ss: seq<Sys>)
    requires |s.view| == |s.disk| && Loggable(g, |s.disk|, s.group)
    ensures |ss| == CommitWrites(|s.group|) + 2 && ss[0] == s
    ensures forall k :: 0 <= k <= CommitWrites(|s.group|) ==> ss[k + 1] == Midway(g, s, k)
  {
    [s] + seq(CommitWrites(|s.group|) + 1, (k: nat) requires k <= CommitWrites(|s.group|) => Midway(g, s, k))
  }

  lemma CommitRuns(g: Geometry, s: Sys)
    requires Inv(g, s) && Can(g, s, EndOp) && s.outstanding == 1 && OutOfTheWay(g, s)
    ensures RunsTo(g, s, EndActions(s), Midway(g, s, CommitWrites(|s.group|)))
  {
    hide Inv, Midway, After, Can, CommitWrites, MidwayStates;
    UpNow(g, s);
    UpFacts(g, s);
    var ss, actions := MidwayStates(g, s), EndActions(s);
    forall i | 0 <= i < |actions| && Inv(g, ss[i])
      ensures Can(g, ss[i], actions[i]) && ss[i + 1] == After(g, ss[i], actions[i])
    {
      CommitStep(g, s, i);
    }
    assert Behaviour(g, ss, actions) && ss[0] == s && ss[|actions|] == Midway(g, s, CommitWrites(|s.group|));
  }

  lemma UpNow(g: Geometry, s: Sys)
    requires Can(g, s, EndOp)
    ensures s.up
  {
  }

  lemma CommitStep(g: Geometry, s: Sys, i: nat)
    requires Inv(g, s) && Can(g, s, EndOp) && s.outstanding == 1 && OutOfTheWay(g, s) && i < |EndActions(s)|
    requires |s.view| == |s.disk| && Loggable(g, |s.disk|, s.group) && Inv(g, MidwayStates(g, s)[i])
    ensures Can(g, MidwayStates(g, s)[i], EndActions(s)[i])
    ensures MidwayStates(g, s)[i + 1] == After(g, MidwayStates(g, s)[i], EndActions(s)[i])
  {
    hide Inv, Midway, After, Can, CommitWrites, MidwayStates;
    StartsMidway(g, s);
    if i > 0 {
      MidwayWrites(g, s, i - 1);
    }
  }

  lemma StartsMidway(g: Geometry, s: Sys)
    requires Inv(g, s) && Can(g, s, EndOp) && s.outstanding == 1 && OutOfTheWay(g, s)
    ensures After(g, s, EndOp) == Midway(g, s, 0) && s.up && s.phase.Idle?
  {
    hide WellFormed, Clean;
    assert CommitImage(g, s.disk, s.group, Values(s.view, s.group), 0) == s.disk;
    assert WithLog(g, s.view, s.disk) == s.view;
  }

  /** After its last write a commit leaves cache and disk alike. */
  lemma MidwayEnd(g: Geometry, s: Sys)
    requires Inv(g, s) && s.up && s.phase.Idle? && Settled(s)
    ensures var img := CommitImage(g, s.disk, s.group, Values(s.view, s.group), CommitWrites(|s.group|));
      Midway(g, s, CommitWrites(|s.group|)) == Sys(img, img, [], s.held, 0, Idle, true)
  {
    hide CommitImage, WellFormed;
    CommitStoresView(g, s.disk, s.view, s.group);
  }
}
