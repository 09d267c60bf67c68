/**
 Crash safety of the file system: the blocks alone are the file system, log and cache lose or keep whole groups of
 operations, so recovery finds a sound file system whatever block write a power loss comes after.
 */
module FsCrash {
  import opened Blocks
  import opened FsSpec
  import opened FsInodes
  import opened FsJournal
  import opened FileSystems
  import opened LogSpec
  import L = LogSystems

  /** A disk that holds a file system: every block has one owner, as bitmap and inodes say, and files have no holes. */
  ghost predicate SoundDisk(sb: Super, img: Image) {
    sb.Valid() && |img| == sb.size && exists owner :: SoundWith(sb, img, owner)
  }

  ghost predicate SoundWith(sb: Super, img: Image, owner: seq<Owner>)
    requires sb.Valid() && |img| == sb.size
  {
    && Owned(sb, img, TableOf(sb, img), owner) && NoneHeld(owner)
    && forall i :: 0 <= i < sb.ninodes ==> Mapped(img, TableOf(sb, img)[i])
  }

  /** Between operations the blocks of the running file system are a sound disk. */
  lemma SoundIsOnDisk(fs: FileSystem)
    requires fs.Sound()
    ensures SoundDisk(fs.sb, fs.blocks)
  {
    hide InodeAt;
    assert fs.dinodes == TableOf(fs.sb, fs.blocks);
    assert SoundWith(fs.sb, fs.blocks, fs.owner);
  }

  /** The log lies before the inode blocks, as mkfs places it. */
  predicate Layout(g: Geometry, sb: Super) {
    sb.Valid() && g.start + g.size <= sb.inodestart
  }

  /** The same inodes with the same contents. */
  ghost predicate SameFiles(sb: Super, a: Image, b: Image) {
    && sb.Valid() && |a| == |b| == sb.size && TableOf(sb, b) == TableOf(sb, a)
    && forall i :: 0 <= i < sb.ninodes ==>
         && TableOf(sb, a)[i].Valid() && Content(b, TableOf(sb, a)[i]) == Content(a, TableOf(sb, a)[i])
  }

  /** The log blocks do not matter: a disk with the same home blocks holds the same file system. */
  lemma SoundAtHome(g: Geometry, sb: Super, a: Image, b: Image)
    requires Layout(g, sb) && SameHome(g, a, b) && SoundDisk(sb, a)
    ensures SoundDisk(sb, b) && SameFiles(sb, a, b)
  {
    hide Ref, Bit;
    var owner :| SoundWith(sb, a, owner);
    var t := TableOf(sb, a);
    SameTable(g, sb, a, b);
    HomeUntouched(g, sb, a, b, t, owner);
    SameBits(g, sb, a, b);
    SameRefsOwned(a, b, t, owner);
    forall i | 0 <= i < sb.ninodes ensures Mapped(b, t[i]) && Content(b, t[i]) == Content(a, t[i]) {
      UntouchedContent(a, b, t[i]);
    }
    assert SoundWith(sb, b, owner);
  }

  lemma SameTable(g: Geometry, sb: Super, a: Image, b: Image)
    requires Layout(g, sb) && SameHome(g, a, b) && |a| == sb.size
    ensures TableOf(sb, b) == TableOf(sb, a)
  {
    hide GetInode;
    forall i | 0 <= i < sb.ninodes ensures InodeAt(sb, b, i) == InodeAt(sb, a, i) {
      sb.IBlockIsInode(i);
    }
  }

  lemma SameBits(g: Geometry, sb: Super, a: Image, b: Image)
    requires Layout(g, sb) && SameHome(g, a, b) && |a| == sb.size
    ensures forall x :: 0 <= x < sb.size ==> Bit(sb, b, x) == Bit(sb, a, x)
  {
    hide TestBit;
    forall x | 0 <= x < sb.size ensures Bit(sb, b, x) == Bit(sb, a, x) {
      sb.BBlockIsBitmap(x);
    }
  }

  /** No file has a block in the log. */
  lemma HomeUntouched(g: Geometry, sb: Super, a: Image, b: Image, t: Table, owner: seq<Owner>)
    requires Layout(g, sb) && SameHome(g, a, b) && Owned(sb, a, t, owner)
    ensures forall i :: 0 <= i < |t| ==> Untouched(a, b, t[i])
  {
    forall i | 0 <= i < |t| ensures Untouched(a, b, t[i]) {
      var d := t[i];
      assert Ref(a, d, NDIRECT) == d.addrs[NDIRECT];
      forall s {:trigger Ref(b, d, s)} | 0 <= s < NSLOTS
        ensures Ref(b, d, s) == Ref(a, d, s)
        ensures s != NDIRECT && 0 < Ref(a, d, s) < |a| ==> b[Ref(a, d, s)] == a[Ref(a, d, s)]
      {
        if Ref(a, d, s) != 0 {
          assert owner[Ref(a, d, s)] == By(i, s);
        }
      }
    }
  }

  // ----- runs -----

  /** Whenever the last operation of a group ends, what the cache shows is a sound file system. */
  ghost predicate SoundEnds(sb: Super, ss: seq<L.Sys>, actions: seq<L.Action>) {
    && |ss| == |actions| + 1
    && forall j :: 0 <= j < |actions| && actions[j].EndOp? && ss[j].outstanding == 1 ==> SoundDisk(sb, ss[j].view)
  }

  /** It stays so while the group is committed: no write of the commit changes a home block in the cache. */
  lemma CommittingStep(g: Geometry, sb: Super, s: L.Sys, a: L.Action)
    requires L.Inv(g, s) && L.Can(g, s, a) && Layout(g, sb) && L.After(g, s, a).phase.Committing?
    requires s.phase.Committing? ==> SoundDisk(sb, s.view)
    requires a.EndOp? && s.outstanding == 1 ==> SoundDisk(sb, s.view)
    ensures SoundDisk(sb, L.After(g, s, a).view)
  {
    hide SoundDisk;
    if a.CommitWrite? {
      L.WriteKeepsView(g, s);
      SoundAtHome(g, sb, s.view, L.After(g, s, a).view);
    }
  }

  lemma {:induction false} CommittingIsSound(g: Geometry, sb: Super, ss: seq<L.Sys>, actions: seq<L.Action>, i: nat)
    requires L.Behaviour(g, ss, actions) && i < |ss| && Layout(g, sb) && SoundEnds(sb, ss, actions)
    requires Clean(g, ss[0].disk) && ss[0] == L.Fresh(ss[0].disk, true)
    ensures L.Inv(g, ss[i]) && (ss[i].phase.Committing? ==> SoundDisk(sb, ss[i].view))
  {
    hide SoundDisk, L.Inv, L.Can, L.After;
    L.BootRefines(g, ss[0].disk);
    L.BehaviourRefines(g, ss, actions, L.Atomic(ss[0].disk, ss[0].disk), i);
    if i > 0 && ss[i].phase.Committing? {
      CommittingIsSound(g, sb, ss, actions, i - 1);
      L.StepAt(g, ss, actions, i - 1);
      CommittingStep(g, sb, ss[i - 1], actions[i - 1]);
    }
  }

  /**
   From a machine booted on a sound file system: whenever power fails, between any two block writes of a commit or of
   an earlier recovery, recovery gives a sound file system again, as long as every group of operations leaves one. Its
   inodes and files are those that the cache showed when the last committed group ended.
   */
  lemma CrashKeepsFileSystem(g: Geometry, sb: Super, ss: seq<L.Sys>, actions: seq<L.Action>, i: nat)
    requires L.Behaviour(g, ss, actions) && i < |ss| && Layout(g, sb) && SoundEnds(sb, ss, actions)
    requires Clean(g, ss[0].disk) && ss[0] == L.Fresh(ss[0].disk, true) && SoundDisk(sb, ss[0].disk)
    ensures WellFormed(g, ss[i].disk) && SoundDisk(sb, Recovered(g, ss[i].disk))
    ensures var k := L.LastCommit(ss, actions, i);
      SameFiles(sb, if k == 0 then ss[0].disk else ss[k - 1].view, Recovered(g, ss[i].disk))
  {
    hide SoundDisk, Recovered, L.Inv, L.Behaviour, WellFormed, Clean;
    L.CrashSafety(g, ss, actions, i);
    var k := L.LastCommit(ss, actions, i);
    var shown := if k == 0 then ss[0].disk else ss[k - 1].view;
    if k > 0 {
      CommittingIsSound(g, sb, ss, actions, k - 1);
    }
    SameHomeBack(g, Recovered(g, ss[i].disk), shown);
    SoundAtHome(g, sb, shown, Recovered(g, ss[i].disk));
  }

  lemma SameHomeBack(g: Geometry, a: Image, b: Image)
    requires SameHome(g, a, b)
    ensures SameHome(g, b, a)
  {
  }

  // ----- the operations of the file system as such runs -----

  lemma RunsThen(g: Geometry, s: L.Sys, a: seq<L.Action>, t: L.Sys, b: seq<L.Action>, u: L.Sys)
    requires L.RunsTo(g, s, a, t) && L.RunsTo(g, t, b, u)
    ensures L.RunsTo(g, s, a + b, u)
  {
    hide L.Inv, L.Can, L.After;
    var ss :| L.Behaviour(g, ss, a) && ss[0] == s && ss[|a|] == t;
    var ts :| L.Behaviour(g, ts, b) && ts[0] == t && ts[|b|] == u;
    var us := ss + ts[1..];
    forall i | 0 <= i < |a + b| && L.Inv(g, us[i])
      ensures L.Can(g, us[i], (a + b)[i]) && us[i + 1] == L.After(g, us[i], (a + b)[i])
    {
      if i < |a| {
        L.StepAt(g, ss, a, i);
        assert us[i] == ss[i] && us[i + 1] == ss[i + 1] && (a + b)[i] == a[i];
      } else {
        assert us[i] == ts[i - |a|] && us[i + 1] == ts[i - |a| + 1] && (a + b)[i] == b[i - |a|];
        L.StepAt(g, ts, b, i - |a|);
      }
    }
    assert L.Behaviour(g, us, a + b) && us[0] == s && us[|a + b|] == u;
  }

  /** A run from a good state ends in one. */
  lemma RunsKeepInv(g: Geometry, s: L.Sys, actions: seq<L.Action>, t: L.Sys)
    requires L.RunsTo(g, s, actions, t) && L.Inv(g, s) && s.up && s.phase.Idle?
    ensures L.Inv(g, t)
  {
    hide L.Inv, L.Can, L.After;
    var ss :| L.Behaviour(g, ss, actions) && ss[0] == s && ss[|actions|] == t;
    IdleRefines(g, s);
    L.BehaviourRefines(g, ss, actions, L.Atomic(s.disk, s.view), |actions|);
  }

  lemma IdleRefines(g: Geometry, s: L.Sys)
    requires L.Inv(g, s) && s.up && s.phase.Idle?
    ensures L.Refines(g, s, L.Atomic(s.disk, s.view))
  {
    hide Recovered;
    CleanRecovers(g, s.disk);
  }

  /** The blocks that a transaction logs, one update each. */
  lemma {:induction false} UpdatesRun(g: Geometry, s: L.Sys, after: Image, logged: set<nat>)
    returns (actions: seq<L.Action>, t: L.Sys)
    requires L.Inv(g, s) && s.up && s.phase.Idle? && s.outstanding >= 1 && |after| == |s.view|
    requires forall b :: b in logged ==> b < |s.view| && b !in s.held && !g.InLog(b)
    requires forall b :: 0 <= b < |after| && after[b] != s.view[b] ==> b in logged
    requires |s.group| + |logged| <= LOGSIZE && |s.group| + |logged| < g.size
    ensures L.RunsTo(g, s, actions, t) && L.Inv(g, t) && t == s.(view := after, group := t.group)
    ensures |t.group| <= |s.group| + |logged|
    ensures forall b :: b in t.group <==> b in s.group || b in logged
    decreases |logged|
  {
    hide L.Inv;
    if logged == {} {
      actions, t := [], s;
      assert after == s.view;
      assert L.Behaviour(g, [s], []) && [s][0] == s && [s][|actions|] == t;
    } else {
      var b :| b in logged;
      var s1 := L.Updated(s, b, after[b]);
      L.UpdateRuns(g, s, b, after[b]);
      RunsKeepInv(g, s, L.UpdateActions(b, after[b]), s1);
      actions, t := UpdatesRun(g, s1, after, logged - {b});
      RunsThen(g, s, L.UpdateActions(b, after[b]), s1, actions, t);
      actions := L.UpdateActions(b, after[b]) + actions;
    }
  }

  /**
   A transaction of the file system is a run of log and cache: from what the cache shows at its begin_op to the blocks
   that the transaction leaves, `calls` being its calls of log_write.
   */
  lemma TransactionRuns(g: Geometry, sb: Super, s: L.Sys, after: Image, calls: multiset<nat>)
    requires L.Inv(g, s) && s.up && s.phase.Idle? && s.outstanding >= 1
    requires Layout(g, sb) && |s.view| == sb.size && Journaled(s.view, multiset{}, after, calls)
    requires forall b :: b in Since(multiset{}, calls) ==> sb.inodestart <= b < sb.size && b !in s.held
    requires |s.group| + |Since(multiset{}, calls)| <= LOGSIZE && |s.group| + |Since(multiset{}, calls)| < g.size
    ensures exists actions, t: L.Sys ::
      && L.RunsTo(g, s, actions, t) && t == s.(view := after, group := t.group)
      && forall b :: b in t.group <==> b in s.group || b in Since(multiset{}, calls)
  {
    hide L.Inv, L.RunsTo;
    var actions, t := UpdatesRun(g, s, after, Since(multiset{}, calls));
  }
}
