/** The write-ahead log of log.c, working through the buffer cache. */
module Logs {
  import opened Blocks
  import opened Disks
  import Sets
  import opened BufferCaches
  import opened LogSpec
  import opened LogSystems

  class Log {
    const cache: BufferCache
    const g: Geometry
    const block: array<nat>
    var n: nat
    var outstanding: nat
    var committing: bool

    ghost predicate Valid()
      reads this, block, cache, cache.bufs, cache.disk
    {
      && cache.Valid()
      && block.Length == LOGSIZE && n <= LOGSIZE
      && Loggable(g, |cache.disk.blocks|, block[..n])
      && Distinct(block[..n])
      && g.size <= NBUF
      && cache.dirty == Elements(block[..n])
    }

    /** Other processes hold no buffer that belongs to the log or is one of these blocks. */
    ghost predicate Apart(blocks: seq<nat>)
      reads cache
    {
      forall b :: b in cache.held ==> !g.InLog(b) && b !in blocks
    }

    /** How many buffers may not be recycled. */
    ghost function Used(): nat
      reads cache
    {
      |InUse(cache.dirty, cache.held, cache.waiting)|
    }

    /** The buffers that are held show what the disk holds, as those of readers do. */
    ghost predicate Unmodified()
      reads cache, cache.disk
    {
      forall b :: b in cache.held ==> b < |cache.view| == |cache.disk.blocks| && cache.view[b] == cache.disk.blocks[b]
    }

    /** commit can run without waiting: nothing is in the log on the disk, and readers are out of its way. */
    ghost predicate Unhindered()
      reads this, block, cache, cache.bufs, cache.disk
    {
      Valid() && Clean(g, cache.disk.blocks) && Apart(block[..n]) && Unmodified() && Used() < NBUF
    }

    /** Between two calls; buffers may be held. */
    ghost predicate Ready()
      reads this, block, cache, cache.bufs, cache.disk
    {
      Valid() && Clean(g, cache.disk.blocks) && !committing && (outstanding == 0 ==> n == 0)
    }

    /** The state of log and cache as the specification sees it. */
    ghost function Abs(): Sys
      requires block.Length == LOGSIZE && n <= LOGSIZE
      reads this, block, cache, cache.disk
    {
      Sys(cache.disk.blocks, cache.view, block[..n], cache.held, outstanding, Idle, true)
    }

    lemma ReadyInv()
      requires Ready()
      ensures LogSystems.Inv(g, Abs())
    {
      CleanRecovers(g, cache.disk.blocks);
    }

    /** With nothing pinned or held, the cache shows the disk. */
    lemma NothingPinned()
      requires Valid() && n == 0 && cache.Unused()
      ensures cache.view == cache.disk.blocks
    {
    }

    constructor (cache: BufferCache, g: Geometry)
      ensures this.cache == cache && this.g == g && fresh(block)
      ensures block.Length == LOGSIZE && n == 0 && outstanding == 0 && !committing
    {
      this.cache, this.g := cache, g;
      this.block := new nat[LOGSIZE];
      this.n, this.outstanding, this.committing := 0, 0, false;
    }

    /** Bring block b in; there is room as long as it is pinned already or fewer than NBUF blocks are in use. */
    method BreadInRoom(b: nat) returns (i: nat)
      requires cache.Valid() && b < |cache.disk.blocks| && b !in cache.held
      requires b in cache.dirty || Used() < NBUF
      modifies cache, cache.bufs
      ensures cache.Valid()
      ensures cache.view == old(cache.view) && cache.dirty == old(cache.dirty)
      ensures cache.waiting == old(cache.waiting)
      ensures cache.held == old(cache.held) + {b} && cache.Has(i, b) && cache.bufs[i].data == cache.view[b]
      ensures forall j: nat, c: nat :: old(cache.Has(j, c)) ==>
        cache.Has(j, c) && cache.bufs[j].data == old(cache.bufs[j].data)
    {
      hide Ring;
      if Used() < NBUF {
        RoomForOneMore(cache.bufs[..], cache.disk.blocks, cache.view, cache.dirty, cache.held, cache.waiting);
      }
      var ok;
      ok, i := cache.Bread(b);
    }

    /** Copy block `from` to block `to` through the cache and write it out: the body of the two copy loops. */
    method CopyBlock(to: nat, from: nat, fromFirst: bool)
      requires cache.Valid() && to < |cache.disk.blocks| && from < |cache.disk.blocks|
      requires to !in cache.held && from !in cache.held && to != from
      requires Used() < NBUF
      requires if fromFirst then to in cache.dirty || Used() + 1 < NBUF
               else from in cache.dirty
      modifies cache, cache.bufs, cache.disk
      ensures cache.Valid() && cache.held == old(cache.held) && cache.waiting == old(cache.waiting)
      ensures Used() <= old(Used())
      ensures cache.view == old(cache.view)[to := old(cache.view)[from]]
      ensures cache.dirty == old(cache.dirty) - {to}
      ensures cache.disk.blocks == old(cache.disk.blocks)[to := old(cache.view)[from]]
      ensures cache.disk.trace == old(cache.disk.trace) + [cache.disk.blocks]
    {
      hide Ring, Agrees, InUse;
      var tbuf, fbuf;
      InUseAtMost(cache.dirty, cache.held, cache.waiting, to, from);
      if from !in cache.dirty {
        cache.CleanView(from);
      }
      if fromFirst {
        fbuf := BreadInRoom(from);
        tbuf := BreadInRoom(to);
      } else {
        tbuf := BreadInRoom(to);
        fbuf := BreadInRoom(from);
      }
      cache.Modify(tbuf, cache.bufs[fbuf].data, to);
      cache.Bwrite(tbuf, to);
      cache.Brelse(fbuf, from);
      cache.Brelse(tbuf, to);
      assert cache.held == old(cache.held);
    }

    /** write_head: one block write that stores n and block[0..n) in the header. */
    method WriteHead()
      requires cache.Valid() && block.Length == LOGSIZE && n <= LOGSIZE
      requires Loggable(g, |cache.disk.blocks|, block[..n])
      requires Used() < NBUF && g.start !in cache.dirty && g.start !in cache.held
      modifies cache, cache.bufs, cache.disk
      ensures cache.Valid() && cache.held == old(cache.held)
      ensures cache.waiting == old(cache.waiting) && cache.dirty == old(cache.dirty)
      ensures cache.disk.blocks == WriteHeader(g, old(cache.disk.blocks), block[..n])
      ensures g.start < |cache.disk.blocks| && GetWord(cache.disk.blocks[g.start], 0) == n
      ensures forall j :: 0 <= j < n ==> GetWord(cache.disk.blocks[g.start], 1 + j) == block[j]
      ensures forall b :: 0 <= b < |old(cache.disk.blocks)| && b != g.start ==>
        b < |cache.disk.blocks| && cache.disk.blocks[b] == old(cache.disk.blocks)[b]
      ensures |cache.disk.blocks| == |old(cache.disk.blocks)|
      ensures cache.disk.trace == old(cache.disk.trace) + [cache.disk.blocks]
      ensures SameHome(g, cache.view, old(cache.view))
    {
      hide Ring, Agrees;
      cache.CleanView(g.start);
      var buf := BreadInRoom(g.start);
      var hb := FillHeader(cache.bufs[buf].data);
      Replace(buf, g.start, hb);
      assert cache.held == old(cache.held);
    }

    /** Store new data in a held buffer, write it through and release it. */
    method Replace(i: nat, b: nat, data: Block)
      requires cache.Valid() && cache.Has(i, b) && b < |cache.disk.blocks|
      modifies cache, cache.bufs, cache.disk
      ensures cache.Valid() && cache.held == old(cache.held) - {b} && cache.dirty == old(cache.dirty) - {b}
      ensures cache.waiting == old(cache.waiting)
      ensures b < |old(cache.view)| && cache.view == old(cache.view)[b := data]
      ensures cache.disk.blocks == old(cache.disk.blocks)[b := data]
      ensures cache.disk.trace == old(cache.disk.trace) + [cache.disk.blocks]
    {
      hide Ring, Agrees;
      cache.Modify(i, data, b);
      cache.Bwrite(i, b);
      cache.Brelse(i, b);
    }

    /** The assignments of write_head to the header block. */
    method FillHeader(data: Block) returns (hb: Block)
      requires block.Length == LOGSIZE && n <= LOGSIZE
      requires forall j :: 0 <= j < n ==> block[j] < 0x1_0000_0000
      ensures hb == EncodeHeader(data, block[..n])
      ensures GetWord(hb, 0) == n && forall j :: 0 <= j < n ==> GetWord(hb, 1 + j) == block[j]
    {
      ghost var blocks := block[..n];
      hb := PutWord(data, 0, n);
      var i := 0;
      while i < n
        invariant i <= n
        invariant hb == EncodeEntries(PutWord(data, 0, n), blocks, i)
      {
        hb := PutWord(hb, 1 + i, block[i]);
        i := i + 1;
      }
      HeaderWords(data, blocks);
    }

    /** read_head: the in-memory log becomes what the header on disk lists. */
    method ReadHead()
      requires cache.Valid() && cache.Unused() && cache.dirty == {} && block.Length == LOGSIZE
      requires WellFormed(g, cache.disk.blocks)
      modifies this`n, block, cache, cache.bufs
      ensures cache.Valid() && cache.Unused() && cache.dirty == {} && cache.view == old(cache.view)
      ensures n <= LOGSIZE && block[..n] == DecodeHeader(cache.disk.blocks[g.start])
      ensures n == GetWord(cache.disk.blocks[g.start], 0)
      ensures forall j :: 0 <= j < n ==> block[j] == GetWord(cache.disk.blocks[g.start], 1 + j)
    {
      hide Ring;
      var buf := BreadInRoom(g.start);
      LoadHeader(cache.bufs[buf].data);
      cache.Brelse(buf, g.start);
    }

    /** The assignments of read_head from the header block. */
    method LoadHeader(lh: Block)
      requires block.Length == LOGSIZE && GetWord(lh, 0) <= LOGSIZE
      modifies this`n, block
      ensures n <= LOGSIZE && block[..n] == DecodeHeader(lh)
      ensures n == GetWord(lh, 0) && forall j :: 0 <= j < n ==> block[j] == GetWord(lh, 1 + j)
    {
      n := GetWord(lh, 0);
      var i := 0;
      while i < n
        invariant 0 <= i <= n
        invariant forall j :: 0 <= j < i ==> block[j] == GetWord(lh, 1 + j)
        modifies block
      {
        block[i] := GetWord(lh, 1 + i);
        i := i + 1;
      }
    }

    ghost function State(): Copy
      reads cache, cache.disk
    {
      Copy(cache.disk.blocks, cache.view, cache.disk.trace)
    }

    method LogBlock(tail: nat, from: nat, ghost c0: Copy, ghost blocks: seq<nat>)
      requires cache.Valid() && Apart(blocks) && cache.dirty == Elements(blocks) && Used() < NBUF
      requires LoggedUpTo(g, c0, State(), blocks, tail) && tail < |blocks| && from == blocks[tail]
      modifies cache, cache.bufs, cache.disk
      ensures cache.Valid() && cache.held == old(cache.held)
      ensures cache.waiting == old(cache.waiting) && cache.dirty == old(cache.dirty)
      ensures LoggedUpTo(g, c0, State(), blocks, tail + 1)
    {
      hide Ring, Agrees, LoggedUpTo, InUse;
      LogOne(g, c0, State(), blocks, tail);
      CopyBlock(g.start + tail + 1, from, false);
    }

    method InstallBlock(tail: nat, to: nat, ghost c0: Copy, ghost blocks: seq<nat>)
      requires cache.Valid() && Apart(blocks) && Used() < NBUF && (to in cache.dirty || Used() + 1 < NBUF)
      requires InstalledUpTo(g, c0, State(), blocks, tail) && tail < |blocks| && to == blocks[tail]
      modifies cache, cache.bufs, cache.disk
      ensures cache.Valid() && cache.held == old(cache.held) && cache.waiting == old(cache.waiting)
      ensures cache.dirty == old(cache.dirty) - {to} && Used() <= old(Used())
      ensures InstalledUpTo(g, c0, State(), blocks, tail + 1)
    {
      hide Ring, Agrees, InstalledUpTo, InUse;
      InstallOne(g, c0, State(), blocks, tail);
      CopyBlock(to, g.start + tail + 1, true);
    }

    /** write_log: copy the modified blocks from the cache to the log, one write each. */
    method WriteLog()
      requires cache.Valid() && block.Length == LOGSIZE && n <= LOGSIZE && Apart(block[..n])
      requires Loggable(g, |cache.disk.blocks|, block[..n]) && Used() < NBUF
      requires cache.dirty == Elements(block[..n])
      modifies cache, cache.bufs, cache.disk
      ensures cache.Valid() && cache.held == old(cache.held)
      ensures cache.waiting == old(cache.waiting) && cache.dirty == old(cache.dirty)
      ensures |cache.disk.blocks| == |old(cache.disk.blocks)|
      ensures LoggedUpTo(g, old(State()), State(), block[..n], n)
      ensures g.start + n < |cache.disk.blocks| && forall j :: 0 <= j < n ==>
        block[j] < |old(cache.view)| && cache.disk.blocks[g.start + 1 + j] == old(cache.view)[block[j]]
      ensures forall b :: 0 <= b < |old(cache.disk.blocks)| && !(g.start < b <= g.start + n) ==>
        b < |cache.disk.blocks| && cache.disk.blocks[b] == old(cache.disk.blocks)[b]
    {
      hide Ring, Agrees, LoggedUpTo, InUse, Loggable, Elements;
      ghost var c0 := State();
      ghost var blocks := block[..n];
      var tail := 0;
      LogStart(g, c0, blocks);
      while tail < n
        invariant tail <= n
        invariant cache.Valid() && cache.held == old(cache.held) && cache.waiting == old(cache.waiting)
        invariant cache.dirty == old(cache.dirty)
        invariant LoggedUpTo(g, c0, State(), blocks, tail)
      {
        LogBlock(tail, block[tail], c0, blocks);
        tail := tail + 1;
      }
      LoggedMeans(g, c0, State(), blocks);
      assert forall j :: 0 <= j < n ==> blocks[j] == block[j];
    }

    /** install_trans: copy the logged blocks to their home locations, one write each. */
    method InstallTrans()
      requires cache.Valid() && block.Length == LOGSIZE && n <= LOGSIZE && Apart(block[..n])
      requires Loggable(g, |cache.disk.blocks|, block[..n]) && Used() < NBUF
      requires cache.dirty == {} || (Distinct(block[..n]) && Elements(block[..n]) == cache.dirty)
      requires cache.dirty == {} ==> Used() + 1 < NBUF
      modifies cache, cache.bufs, cache.disk
      ensures cache.Valid() && cache.held == old(cache.held) && cache.waiting == old(cache.waiting) && cache.dirty == {}
      ensures Used() <= old(Used())
      ensures |cache.disk.blocks| == |old(cache.disk.blocks)|
      ensures InstalledUpTo(g, old(State()), State(), block[..n], n)
    {
      hide Ring, Agrees, InstalledUpTo, StillPinned, Loggable, Distinct, InUse;
      ghost var c0 := State();
      ghost var blocks := block[..n];
      var tail := 0;
      InstallStart(g, c0, blocks, cache.bufs[..], cache.dirty, cache.held, cache.waiting);
      while tail < n
        invariant tail <= n
        invariant cache.Valid() && cache.held == old(cache.held)
        invariant cache.waiting == old(cache.waiting) && Used() <= old(Used())
        invariant StillPinned(cache.dirty, old(cache.dirty), blocks, tail)
        invariant InstalledUpTo(g, c0, State(), blocks, tail)
      {
        UnpinOne(cache.dirty, old(cache.dirty), blocks, tail);
        InstallBlock(tail, block[tail], c0, blocks);
        tail := tail + 1;
      }
      InstallEnd(blocks, cache.dirty, old(cache.dirty));
      InstalledSize(g, c0, State(), blocks, n);
    }

    /**
     commit: a crash after any of its block writes leaves a disk from which recovery gives the old home
     blocks, or what the cache showed, and the latter exactly from the header write on.
     */
    method Commit()
      requires Unhindered()
      modifies this`n, cache, cache.bufs, cache.disk
      ensures Unhindered() && n == 0 && cache.held == old(cache.held) && cache.waiting == old(cache.waiting)
      ensures SameHome(g, cache.view, old(cache.view)) && cache.view == cache.disk.blocks
      ensures g.start < |cache.disk.blocks| && GetWord(cache.disk.blocks[g.start], 0) == 0
      ensures forall b :: 0 <= b < |old(cache.view)| && !(g.start <= b < g.start + g.size) ==>
        b < |cache.disk.blocks| && cache.disk.blocks[b] == old(cache.view)[b]
      ensures CommitTraced(g, old(State()), State(), old(block[..n]))
      ensures CrashesAtomically(g, old(State()), State(), old(block[..n]))
    {
      hide Ring, Agrees, LoggedUpTo, InstalledUpTo, WriteHeader, CommitTraced, CrashesAtomically, InUse;
      ghost var c0, blocks := State(), block[..n];
      Differences();
      if n > 0 {
        CommitGroup();
      } else {
        assert blocks == [];
        NothingTraced(g, c0);
      }
      assert block[..n] == [];
      TracedCrashes(g, c0, State(), blocks);
      ShowsDisk(c0, blocks);
    }

    /** The four parts of commit, when there is something to commit. */
    method CommitGroup()
      requires Unhindered() && n > 0
      modifies this`n, cache, cache.bufs, cache.disk
      ensures cache.Valid() && n == 0 && cache.held == old(cache.held) && cache.waiting == old(cache.waiting)
      ensures cache.dirty == {} && Used() <= old(Used()) && |cache.disk.blocks| == |old(cache.disk.blocks)|
      ensures SameHome(g, cache.view, old(cache.view)) && Clean(g, cache.disk.blocks)
      ensures CommitTraced(g, old(State()), State(), old(block[..n]))
    {
      hide Ring, Agrees, LoggedUpTo, InstalledUpTo, WriteHeader, CommitTraced, InUse, SameHome, GetWord;
      ghost var c0, blocks := State(), block[..n];
      assert blocks[0] in cache.dirty;
      WriteLog();
      ghost var c1 := State();
      WriteHead();  // the commit point
      ghost var c2 := State();
      InstallTrans();
      ghost var c3 := State();
      n := 0;
      WriteHead();
      CommitAssembled(g, c0, c1, c2, c3, State(), blocks);
    }

    /** After the commit the cache shows what the disk holds, log blocks included. */
    lemma ShowsDisk(c0: Copy, blocks: seq<nat>)
      requires cache.Valid() && cache.dirty == {} && Apart([]) && SameHome(g, cache.view, c0.view)
      requires CommitTraced(g, c0, State(), blocks) && Clean(g, c0.disk) && Covers(g, c0.disk, c0.view, blocks)
      ensures cache.view == cache.disk.blocks
    {
      hide CommitImage;
      CommitStoresView(g, c0.disk, c0.view, blocks);
    }

    lemma Differences()
      requires Valid() && Unmodified()
      ensures forall b :: 0 <= b < |cache.view| && cache.view[b] != cache.disk.blocks[b] ==> b in block[..n]
    {
    }

    /** recover_from_log, on a freshly booted machine. */
    method RecoverFromLog()
      requires cache.Valid() && cache.Unused() && cache.dirty == {} && block.Length == LOGSIZE
      requires WellFormed(g, cache.disk.blocks) && g.size <= NBUF && outstanding == 0 && !committing
      modifies this`n, block, cache, cache.bufs, cache.disk
      ensures Ready() && n == 0 && cache.Unused()
      ensures cache.disk.blocks == Recovered(g, old(cache.disk.blocks))
      ensures g.start < |cache.disk.blocks| && GetWord(cache.disk.blocks[g.start], 0) == 0
      ensures forall b :: 0 <= b < |cache.disk.blocks| && b != g.start ==>
        b < |old(cache.disk.blocks)| &&
        (b !in DecodeHeader(old(cache.disk.blocks)[g.start]) ==> cache.disk.blocks[b] == old(cache.disk.blocks)[b])
      ensures RecoveryTraced(g, old(State()), State())
      ensures var down := Fresh(old(cache.disk.blocks), false);
        Does(g, down, Action.Recover(RecoverWrites(g, down.disk)), Abs())
    {
      hide Ring, Agrees, InstalledUpTo, WriteHeader, RecoveryTraced, Does, Recovered, DecodeHeader;
      ghost var c0 := State();
      RecoveryDoes(g, cache.disk.blocks);
      assert InUse({}, {}, multiset{}) == {};
      ReadHead();
      ghost var blocks := block[..n];
      InstallTrans();
      ghost var c1 := State();
      n := 0;
      WriteHead();
      RecoveryAssembled(g, c0, c1, State());
      RecoveredMeans(g, c0.disk);
      assert block[..n] == [];
      NothingPinned();
    }

    /** begin_op, one test of its loop: the operation starts, or it must sleep. */
    method BeginOp() returns (started: bool)
      requires Valid()
      modifies this`outstanding
      ensures Valid()
      ensures started <==> !committing && n + (old(outstanding) + 1) * MAXOPBLOCKS <= LOGSIZE
      ensures outstanding == if started then old(outstanding) + 1 else old(outstanding)
      ensures old(Ready()) ==> Ready()
      ensures old(Ready()) && started ==> Does(g, old(Abs()), Action.BeginOp, Abs())
    {
      hide Ring, Agrees, LogSystems.Inv;
      if Ready() {
        ReadyInv();
      }
      if committing {
        started := false;
      } else if n + (outstanding + 1) * MAXOPBLOCKS > LOGSIZE {
        started := false;
      } else {
        outstanding := outstanding + 1;
        started := true;
      }
    }

    /** end_op: the last outstanding operation commits everything logged since the last commit. */
    method EndOp()
      requires Ready() && outstanding >= 1 && (outstanding == 1 ==> Unhindered())
      modifies this`n, this`outstanding, this`committing, cache, cache.bufs, cache.disk
      ensures Ready() && outstanding == old(outstanding) - 1
      ensures cache.held == old(cache.held) && cache.waiting == old(cache.waiting)
      ensures outstanding > 0 ==> n == old(n) && State() == old(State())
      ensures outstanding == 0 ==> n == 0 && CommitTraced(g, old(State()), State(), old(block[..n]))
      ensures outstanding == 0 ==> CrashesAtomically(g, old(State()), State(), old(block[..n]))
      ensures RunsTo(g, old(Abs()), EndActions(old(Abs())), Abs())
    {
      hide Ring, Agrees, CrashesAtomically, LogSystems.Inv, CommitImage, RunsTo, EndActions, InUse;
      ReadyInv();
      ghost var s := Abs();
      if outstanding == 1 {
        Differences();
      }
      EndRuns(g, s);
      outstanding := outstanding - 1;
      if outstanding == 0 {
        committing := true;
        Commit();
        committing := false;
        assert block[..n] == [];
        MidwayEnd(g, s);
      }
    }

    /**
     log_write: pin a modified buffer and append its block to the group unless it is there already.
     ok == false is one of the two panics; the capacity test comes before the search, so a full
     group refuses even a block that it already contains.
     */
    method LogWrite(i: nat, b: nat) returns (ok: bool)
      requires Valid() && cache.Has(i, b) && b < |cache.disk.blocks| && !g.InLog(b)
      modifies this`n, block, cache, cache.bufs
      ensures Valid() && State() == old(State()) && cache.held == old(cache.held) && cache.Has(i, b)
      ensures cache.waiting == old(cache.waiting)
      ensures ok <==> old(n) < LOGSIZE && old(n) < g.size - 1 && outstanding >= 1
      ensures !ok ==> block[..n] == old(block[..n])
      ensures ok ==> block[..n] == if b in old(block[..n]) then old(block[..n]) else old(block[..n]) + [b]
      ensures ok ==> b in cache.dirty
      ensures old(Ready()) ==> Ready()
      ensures old(Ready()) && ok ==> Does(g, old(Abs()), Action.LogWrite(b), Abs())
    {
      hide Ring, Agrees, LogSystems.Inv, Does, Loggable, Distinct, Elements;
      if Ready() {
        ReadyInv();
      }
      if n >= LOGSIZE || n >= g.size - 1 || outstanding < 1 {
        return false;
      }
      GroupGrows(g, |cache.disk.blocks|, block[..n], b);
      AddToGroup(b);
      cache.Pin(i, b);
      ok := true;
      if old(Ready()) {
        LogWriteDoes(g, old(Abs()), b, Abs());
      }
    }

    /** Reading as file system code does it, bread and brelse: what was last stored in the block. */
    method ReadBlock(b: nat) returns (data: Block)
      requires Ready() && b < |cache.view| && b !in cache.held
      requires b in cache.dirty || Used() < NBUF
      modifies cache, cache.bufs
      ensures Ready() && Abs() == old(Abs()) && b < |cache.view| && data == cache.view[b]
    {
      hide Ring, Agrees, Loggable, Distinct;
      if b !in cache.dirty {
        cache.CleanView(b);
      }
      var i := BreadInRoom(b);
      data := cache.bufs[i].data;
      cache.Brelse(i, b);
      assert cache.held == old(cache.held);
    }

    /**
     An update as file system code does it, bread, a store, log_write and brelse; ok == false is the
     panic of log_write.
     */
    method UpdateBlock(b: nat, data: Block) returns (ok: bool)
      requires Ready() && b < |cache.view| && b !in cache.held && !g.InLog(b) && outstanding >= 1
      requires b in cache.dirty || Used() < NBUF
      modifies this`n, block, cache, cache.bufs
      ensures ok <==> old(n) < LOGSIZE && old(n) < g.size - 1
      ensures ok ==> Ready() && Abs() == old(LogSystems.Updated(Abs(), b, data))
      ensures ok ==> RunsTo(g, old(Abs()), UpdateActions(b, data), Abs())
    {
      hide Ring, Agrees, Loggable, Distinct, LogSystems.Inv, RunsTo, Does, UpdateActions, Elements, Clean, InUse;
      ReadyInv();
      ghost var s := Abs();
      if n < LOGSIZE && n < g.size - 1 {
        UpdateRuns(g, s, b, data);
      }
      var i := BreadInRoom(b);
      cache.Modify(i, data, b);
      ok := LogWrite(i, b);
      if ok {
        cache.Brelse(i, b);
        assert cache.held == old(cache.held);
      }
    }

    /** The search and the assignments of log_write. */
    method AddToGroup(b: nat)
      requires block.Length == LOGSIZE && n < LOGSIZE
      modifies this`n, block
      ensures n <= LOGSIZE
      ensures block[..n] == if b in old(block[..n]) then old(block[..n]) else old(block[..n]) + [b]
    {
      ghost var blocks := block[..n];
      var k := 0;
      while k < n && block[k] != b
        invariant k <= n && b !in blocks[..k]
      {
        k := k + 1;
      }
      block[k] := b;
      if k == n {
        n := n + 1;
        assert block[..n] == blocks + [b];
      } else {
        assert block[..n] == blocks;
      }
    }
  }

  lemma GroupGrows(g: Geometry, size: nat, blocks: seq<nat>, b: nat)
    requires Loggable(g, size, blocks) && Distinct(blocks) && b < size && !g.InLog(b)
    requires |blocks| < LOGSIZE && |blocks| < g.size - 1
    ensures var more := if b in blocks then blocks else blocks + [b];
      Loggable(g, size, more) && Distinct(more) && Elements(more) == Elements(blocks) + {b}
  {
  }

  /** Holding one more block takes at most one more buffer, and writing a block out none. */
  lemma InUseAtMost(dirty: set<nat>, held: set<nat>, waiting: multiset<nat>, to: nat, from: nat)
    ensures |InUse(dirty, held + {from}, waiting)| <= |InUse(dirty, held, waiting)| + 1
    ensures |InUse(dirty - {to}, held, waiting)| <= |InUse(dirty, held, waiting)|
  {
    assert InUse(dirty, held + {from}, waiting) == InUse(dirty, held, waiting) + {from};
    Sets.SubsetSize(InUse(dirty - {to}, held, waiting), InUse(dirty, held, waiting));
  }

  lemma HeaderWords(data: Block, blocks: seq<nat>)
    requires |blocks| <= LOGSIZE && forall j :: 0 <= j < |blocks| ==> blocks[j] < 0x1_0000_0000
    ensures var hb := EncodeHeader(data, blocks);
      GetWord(hb, 0) == |blocks| && forall j :: 0 <= j < |blocks| ==> GetWord(hb, 1 + j) == blocks[j]
  {
    GetPut(data, 0, |blocks|, 0);
    hide GetWord, PutWord;
  }

  // ----- the copy loops on values -----

  /** What the copy loops change: the disk, the cache's view of it and the history of the disk. */
  datatype Copy = Copy(disk: Image, view: Image, trace: seq<Image>) {
    ghost predicate Fits(g: Geometry, blocks: seq<nat>) {
      |view| == |disk| && Loggable(g, |disk|, blocks)
    }
  }

  /** c is c0 after write_log has copied the first `tail` blocks. */
  ghost predicate LoggedUpTo(g: Geometry, c0: Copy, c: Copy, blocks: seq<nat>, tail: nat) {
    && c0.Fits(g, blocks) && tail <= |blocks|
    && SameHome(g, c.view, c0.view)
    && c.disk == WriteLogUpTo(g, c0.disk, Values(c0.view, blocks), tail)
    && c.trace == c0.trace + WriteLogTrace(g, c0.disk, Values(c0.view, blocks), tail)
  }

  lemma LogStart(g: Geometry, c: Copy, blocks: seq<nat>)
    requires c.Fits(g, blocks)
    ensures LoggedUpTo(g, c, c, blocks, 0)
  {
  }

  lemma LoggedValue(g: Geometry, img: Image, vals: seq<Block>, k: nat, j: nat)
    requires g.Fits(|img|) && |vals| + 1 <= g.size && j < k <= |vals|
    ensures WriteLogUpTo(g, img, vals, k)[g.start + 1 + j] == vals[j]
  {
    hide WriteLogUpTo;
    var i := g.start + 1 + j;
    assert WriteLogUpTo(g, img, vals, k)[i] == vals[i - g.start - 1];
  }

  lemma LoggedMeans(g: Geometry, c0: Copy, c: Copy, blocks: seq<nat>)
    requires LoggedUpTo(g, c0, c, blocks, |blocks|)
    ensures g.start + |blocks| < |c.disk| && forall j :: 0 <= j < |blocks| ==>
      blocks[j] < |c0.view| && c.disk[g.start + 1 + j] == c0.view[blocks[j]]
    ensures forall b :: 0 <= b < |c0.disk| && !(g.start < b <= g.start + |blocks|) ==>
      b < |c.disk| && c.disk[b] == c0.disk[b]
    ensures |c.disk| == |c0.disk|
  {
    hide WriteLogTrace, WriteLogUpTo;
    forall j | 0 <= j < |blocks| ensures blocks[j] < |c0.view| && c.disk[g.start + 1 + j] == c0.view[blocks[j]] {
      LoggedValue(g, c0.disk, Values(c0.view, blocks), |blocks|, j);
    }
  }

  lemma LogOne(g: Geometry, c0: Copy, c: Copy, blocks: seq<nat>, tail: nat)
    requires LoggedUpTo(g, c0, c, blocks, tail) && tail < |blocks|
    ensures var to, from := g.start + tail + 1, blocks[tail];
      && to < |c.disk| && from < |c.view| == |c.disk| && to != from
      && to !in Elements(blocks) && g.InLog(to)
      && LoggedUpTo(g, c0, Copy(c.disk[to := c.view[from]], c.view[to := c.view[from]],
                                c.trace + [c.disk[to := c.view[from]]]), blocks, tail + 1)
  {
    var to, from := g.start + tail + 1, blocks[tail];
    assert g.InLog(to) && !g.InLog(from);
    assert c.view[from] == Values(c0.view, blocks)[tail];
  }

  /** c is c0 after install_trans has copied the first `tail` blocks home. */
  ghost predicate InstalledUpTo(g: Geometry, c0: Copy, c: Copy, blocks: seq<nat>, tail: nat) {
    && c0.Fits(g, blocks) && tail <= |blocks|
    && |c.view| == |c0.view|
    && c.disk == InstallUpTo(g, c0.disk, blocks, tail)
    && c.trace == c0.trace + InstallTrace(g, c0.disk, blocks, tail)
    && (forall i: nat :: g.InLog(i) ==> c.view[i] == c.disk[i])
    && (forall b :: 0 <= b < |c.view| && b !in blocks[..tail] ==> c.view[b] == c0.view[b])
    && forall b :: b in blocks[..tail] ==> b < |c.view| && c.view[b] == c.disk[b]
  }

  lemma InstalledMeans(g: Geometry, c0: Copy, c: Copy, blocks: seq<nat>)
    requires InstalledUpTo(g, c0, c, blocks, |blocks|)
    ensures g.start + |blocks| < |c.disk| == |c0.disk|
    ensures Distinct(blocks) ==> forall j :: 0 <= j < |blocks| ==>
      blocks[j] < |c.disk| && c.disk[blocks[j]] == c0.disk[g.start + 1 + j]
    ensures forall b :: 0 <= b < |c0.disk| && b !in blocks ==> b < |c.disk| && c.disk[b] == c0.disk[b]
  {
    hide InstallTrace;
    assert blocks[..|blocks|] == blocks;
    if Distinct(blocks) {
      forall j | 0 <= j < |blocks| ensures c.disk[blocks[j]] == c0.disk[g.start + 1 + j] {
        InstalledValue(g, c0.disk, blocks, |blocks|, j);
      }
    }
  }

  /** Recovery: the blocks that the header lists have come home, the header lists none, and the others are untouched. */
  lemma RecoveredMeans(g: Geometry, img: Image)
    requires WellFormed(g, img)
    ensures var r, blocks := Recovered(g, img), DecodeHeader(img[g.start]);
      && |r| == |img| && GetWord(r[g.start], 0) == 0
      && |blocks| == GetWord(img[g.start], 0) && g.start + |blocks| < |img|
      && (forall j :: 0 <= j < |blocks| ==> blocks[j] == GetWord(img[g.start], 1 + j))
      && (Distinct(blocks) ==> forall j :: 0 <= j < |blocks| ==>
            blocks[j] < |r| && r[blocks[j]] == img[g.start + 1 + j])
      && forall b :: 0 <= b < |img| && b !in blocks && b != g.start ==> r[b] == img[b]
  {
    hide Recovered, DecodeHeader, EncodeHeader, InstallUpTo, GetWord;
    var blocks := DecodeHeader(img[g.start]);
    HeaderRoundTrip(InstallUpTo(g, img, blocks, |blocks|)[g.start], []);
    InstalledAll(g, img, blocks);
    RecoveredIs(g, img);
  }

  lemma RecoveredIs(g: Geometry, img: Image)
    requires WellFormed(g, img)
    ensures var blocks := DecodeHeader(img[g.start]);
      && |blocks| == GetWord(img[g.start], 0)
      && (forall j :: 0 <= j < |blocks| ==> blocks[j] == GetWord(img[g.start], 1 + j))
      && var after := InstallUpTo(g, img, blocks, |blocks|);
      Recovered(g, img) == after[g.start := EncodeHeader(after[g.start], [])]
  {
    hide InstallUpTo, GetWord, EncodeHeader;
  }

  lemma InstalledAll(g: Geometry, img: Image, blocks: seq<nat>)
    requires Loggable(g, |img|, blocks)
    ensures g.start + |blocks| < |img|
    ensures var after := InstallUpTo(g, img, blocks, |blocks|);
      && (Distinct(blocks) ==> forall j :: 0 <= j < |blocks| ==> after[blocks[j]] == img[g.start + 1 + j])
      && forall b :: 0 <= b < |img| && b !in blocks ==> after[b] == img[b]
  {
    hide InstallUpTo;
    assert blocks[..|blocks|] == blocks;
    if Distinct(blocks) {
      forall j | 0 <= j < |blocks|
        ensures InstallUpTo(g, img, blocks, |blocks|)[blocks[j]] == img[g.start + 1 + j]
      {
        InstalledValue(g, img, blocks, |blocks|, j);
      }
    }
  }

  /** The log region is neither pinned nor held, so the cache shows what the disk holds there. */
  lemma LogBlocksAgree(g: Geometry, bs: seq<Buf>, c: Copy, blocks: seq<nat>,
                       dirty: set<nat>, held: set<nat>, waiting: multiset<nat>)
    requires Agrees(bs, c.disk, c.view, dirty, held, waiting) && dirty <= Elements(blocks) && c.Fits(g, blocks)
    requires forall b :: b in held ==> !g.InLog(b)
    ensures forall i: nat :: g.InLog(i) ==> c.view[i] == c.disk[i]
  {
  }

  lemma InstallOne(g: Geometry, c0: Copy, c: Copy, blocks: seq<nat>, tail: nat)
    requires InstalledUpTo(g, c0, c, blocks, tail) && tail < |blocks|
    ensures var to, from := blocks[tail], g.start + tail + 1;
      && from < |c.disk| && to < |c.view| == |c.disk| && to != from && g.InLog(from)
      && InstalledUpTo(g, c0, Copy(c.disk[to := c.view[from]], c.view[to := c.view[from]],
                                   c.trace + [c.disk[to := c.view[from]]]), blocks, tail + 1)
  {
    hide InstallUpTo, InstallTrace;
    var to, from := blocks[tail], g.start + tail + 1;
    assert g.InLog(from) && !g.InLog(to);
    InstallNext(g, c0.disk, blocks, tail);
    InstalledViews(g, c0, c, blocks, tail, c.view[from]);
  }

  lemma InstallNext(g: Geometry, img: Image, blocks: seq<nat>, tail: nat)
    requires Loggable(g, |img|, blocks) && tail < |blocks|
    ensures var to, from, now := blocks[tail], g.start + tail + 1, InstallUpTo(g, img, blocks, tail);
      && to < |img| && from < |img| == |now| && InstallUpTo(g, img, blocks, tail + 1) == now[to := now[from]]
      && InstallTrace(g, img, blocks, tail + 1) == InstallTrace(g, img, blocks, tail) + [now[to := now[from]]]
  {
    InstallKeepsLog(g, img, blocks, tail);
  }

  /** Storing a value in cache and disk alike at the next block of the group. */
  lemma InstalledViews(g: Geometry, c0: Copy, c: Copy, blocks: seq<nat>, tail: nat, val: Block)
    requires InstalledUpTo(g, c0, c, blocks, tail) && tail < |blocks| && blocks[tail] < |c.view| == |c.disk|
    ensures var disk, view, done := c.disk[blocks[tail] := val], c.view[blocks[tail] := val], blocks[..tail + 1];
      && (forall i: nat :: g.InLog(i) ==> i < |view| && view[i] == disk[i])
      && (forall b :: 0 <= b < |view| && b !in done ==> view[b] == c0.view[b])
      && forall b :: b in done ==> b < |view| && view[b] == disk[b]
  {
    hide InstallUpTo, InstallTrace;
    assert blocks[..tail + 1] == blocks[..tail] + [blocks[tail]];
  }

  /** The disk writes between two states are exactly those of commit() for this group. */
  ghost predicate CommitTraced(g: Geometry, c0: Copy, c: Copy, blocks: seq<nat>) {
    && c0.Fits(g, blocks)
    && var vals := Values(c0.view, blocks);
       var total := CommitWrites(|blocks|);
       && c.disk == CommitImage(g, c0.disk, blocks, vals, total)
       && |c.trace| == |c0.trace| + total && c.trace[..|c0.trace|] == c0.trace
       && forall k :: 1 <= k <= total ==> c.trace[|c0.trace| + k - 1] == CommitImage(g, c0.disk, blocks, vals, k)
  }

  /** The disk writes between two states are exactly those of recover_from_log(). */
  ghost predicate RecoveryTraced(g: Geometry, c0: Copy, c: Copy) {
    && WellFormed(g, c0.disk)
    && var total := RecoverWrites(g, c0.disk);
       && |c.trace| == |c0.trace| + total && c.trace[..|c0.trace|] == c0.trace
       && forall k :: 1 <= k <= total ==> c.trace[|c0.trace| + k - 1] == RecoverImage(g, c0.disk, k)
  }

  ghost predicate RecoversTo(g: Geometry, img: Image, home: Image) {
    WellFormed(g, img) && SameHome(g, Recovered(g, img), home)
  }

  /** Recovery from the disk after any write of a commit gives the old home blocks, or what the cache showed. */
  ghost predicate CrashesAtomically(g: Geometry, c0: Copy, c: Copy, blocks: seq<nat>) {
    && |c.trace| == |c0.trace| + CommitWrites(|blocks|)
    && forall i :: |c0.trace| <= i < |c.trace| ==>
         RecoversTo(g, c.trace[i], if i - |c0.trace| < |blocks| then c0.disk else c0.view)
  }

  lemma TracedCrashes(g: Geometry, c0: Copy, c: Copy, blocks: seq<nat>)
    requires CommitTraced(g, c0, c, blocks) && Clean(g, c0.disk)
    requires forall b :: 0 <= b < |c0.view| && c0.view[b] != c0.disk[b] ==> b in blocks
    ensures CrashesAtomically(g, c0, c, blocks)
  {
    hide CommitImage, Recovered, WellFormed, SameHome, Clean;
    forall i | |c0.trace| <= i < |c.trace|
      ensures RecoversTo(g, c.trace[i], if i - |c0.trace| < |blocks| then c0.disk else c0.view)
    {
      var k := i - |c0.trace| + 1;
      assert c.trace[|c0.trace| + k - 1] == CommitImage(g, c0.disk, blocks, Values(c0.view, blocks), k);
      CommitIsAtomic(g, c0.disk, c0.view, blocks, k);
    }
  }

  lemma NothingTraced(g: Geometry, c: Copy)
    requires c.Fits(g, [])
    ensures CommitTraced(g, c, c, [])
  {
  }

  lemma CommitAssembled(g: Geometry, c0: Copy, c1: Copy, c2: Copy, c3: Copy, c4: Copy, blocks: seq<nat>)
    requires blocks != [] && Distinct(blocks) && Clean(g, c0.disk)
    requires LoggedUpTo(g, c0, c1, blocks, |blocks|)
    requires c2.Fits(g, blocks) && c2.disk == WriteHeader(g, c1.disk, blocks) && SameHome(g, c2.view, c1.view)
    requires c2.trace == c1.trace + [c2.disk]
    requires InstalledUpTo(g, c2, c3, blocks, |blocks|)
    requires Loggable(g, |c3.disk|, []) && c4.disk == WriteHeader(g, c3.disk, []) && SameHome(g, c4.view, c3.view)
    requires c4.trace == c3.trace + [c4.disk]
    ensures CommitTraced(g, c0, c4, blocks) && SameHome(g, c4.view, c0.view) && Clean(g, c4.disk)
  {
    ClearHeader(g, c3.disk);
    CommitTraceJoined(g, c0, c1, c2, c3, c4, blocks);
    CommitKeepsView(g, c0, c1, c2, c3, blocks);
  }

  lemma CommitTraceJoined(g: Geometry, c0: Copy, c1: Copy, c2: Copy, c3: Copy, c4: Copy, blocks: seq<nat>)
    requires blocks != []
    requires LoggedUpTo(g, c0, c1, blocks, |blocks|)
    requires c2.Fits(g, blocks) && c2.disk == WriteHeader(g, c1.disk, blocks) && c2.trace == c1.trace + [c2.disk]
    requires InstalledUpTo(g, c2, c3, blocks, |blocks|)
    requires Loggable(g, |c3.disk|, []) && c4.disk == WriteHeader(g, c3.disk, []) && c4.trace == c3.trace + [c4.disk]
    ensures CommitTraced(g, c0, c4, blocks)
  {
    hide WriteLogUpTo, InstallUpTo, WriteHeader, WriteLogTrace, InstallTrace, CommitImage, Values;
    TraceIsCommit(g, c0.disk, blocks, Values(c0.view, blocks), c0.trace, c4.trace);
    CommitImageAt(g, c0.disk, blocks, Values(c0.view, blocks), CommitWrites(|blocks|));
  }

  lemma TraceIsCommit(g: Geometry, img: Image, blocks: seq<nat>, vals: seq<Block>, t: seq<Image>, r: seq<Image>)
    requires Loggable(g, |img|, blocks) && |vals| == |blocks| > 0
    requires var n := |blocks|;
      var head := WriteHeader(g, WriteLogUpTo(g, img, vals, n), blocks);
      var last := WriteHeader(g, InstallUpTo(g, head, blocks, n), []);
      r == t + WriteLogTrace(g, img, vals, n) + [head] + InstallTrace(g, head, blocks, n) + [last]
    ensures var total := CommitWrites(|blocks|);
      && |r| == |t| + total && r[..|t|] == t
      && forall k :: 1 <= k <= total ==> r[|t| + k - 1] == CommitImage(g, img, blocks, vals, k)
  {
    hide WriteLogUpTo, InstallUpTo, WriteHeader, WriteLogTrace, InstallTrace, CommitImage;
    var n := |blocks|;
    var head := WriteHeader(g, WriteLogUpTo(g, img, vals, n), blocks);
    var last := WriteHeader(g, InstallUpTo(g, head, blocks, n), []);
    var t1, t3 := WriteLogTrace(g, img, vals, n), InstallTrace(g, head, blocks, n);
    FourParts(t, t1, head, t3, last, r);
    forall k | 1 <= k <= CommitWrites(n) ensures r[|t| + k - 1] == CommitImage(g, img, blocks, vals, k) {
      CommitImageAt(g, img, blocks, vals, k);
      TraceAt(t, t1, head, t3, last, n, k);
    }
  }

  /** The kth write of a commit is one of the log, the header, one of the installation, or the empty header. */
  lemma CommitImageAt(g: Geometry, img: Image, blocks: seq<nat>, vals: seq<Block>, k: nat)
    requires Loggable(g, |img|, blocks) && |vals| == |blocks| > 0 && 1 <= k <= CommitWrites(|blocks|)
    ensures var n := |blocks|;
      var head := WriteHeader(g, WriteLogUpTo(g, img, vals, n), blocks);
      CommitImage(g, img, blocks, vals, k) ==
        if k <= n then WriteLogTrace(g, img, vals, n)[k - 1]
        else if k == n + 1 then head
        else if k <= 2 * n + 1 then InstallTrace(g, head, blocks, n)[k - n - 2]
        else WriteHeader(g, InstallUpTo(g, head, blocks, n), [])
  {
  }

  lemma TraceAt(t: seq<Image>, t1: seq<Image>, a: Image, t3: seq<Image>, b: Image, n: nat, k: nat)
    requires |t1| == |t3| == n && 1 <= k <= 2 * n + 2
    ensures (t + t1 + [a] + t3 + [b])[|t| + k - 1] ==
            if k <= n then t1[k - 1] else if k == n + 1 then a else if k <= 2 * n + 1 then t3[k - n - 2] else b
  {
  }

  lemma FourParts(t: seq<Image>, t1: seq<Image>, a: Image, t3: seq<Image>, b: Image, r: seq<Image>)
    requires r == t + t1 + [a] + t3 + [b]
    ensures |r| == |t| + |t1| + |t3| + 2 && r[..|t|] == t
  {
  }

  lemma CommitKeepsView(g: Geometry, c0: Copy, c1: Copy, c2: Copy, c3: Copy, blocks: seq<nat>)
    requires Distinct(blocks)
    requires LoggedUpTo(g, c0, c1, blocks, |blocks|)
    requires c2.Fits(g, blocks) && c2.disk == WriteHeader(g, c1.disk, blocks) && SameHome(g, c2.view, c1.view)
    requires InstalledUpTo(g, c2, c3, blocks, |blocks|)
    ensures SameHome(g, c3.view, c0.view)
  {
    hide InstalledUpTo, LoggedUpTo, WriteHeader, InstallUpTo, WriteLogUpTo;
    CopySizes(g, c0, c1, c2, c3, blocks);
    forall i | 0 <= i < |c3.view| && !g.InLog(i) ensures c3.view[i] == c0.view[i] {
      if i in blocks {
        var j :| 0 <= j < |blocks| && blocks[j] == i;
        GroupBlockKept(g, c0, c1, c2, c3, blocks, j);
      } else {
        OtherBlockKept(g, c0, c1, c2, c3, blocks, i);
      }
    }
  }

  lemma CopySizes(g: Geometry, c0: Copy, c1: Copy, c2: Copy, c3: Copy, blocks: seq<nat>)
    requires LoggedUpTo(g, c0, c1, blocks, |blocks|) && SameHome(g, c2.view, c1.view)
    requires InstalledUpTo(g, c2, c3, blocks, |blocks|)
    ensures |c0.view| == |c3.view|
  {
  }

  /** The value of a block of the group goes to the log, and from there home. */
  lemma GroupBlockKept(g: Geometry, c0: Copy, c1: Copy, c2: Copy, c3: Copy, blocks: seq<nat>, j: nat)
    requires Distinct(blocks) && j < |blocks| && LoggedUpTo(g, c0, c1, blocks, |blocks|)
    requires c2.Fits(g, blocks) && c2.disk == WriteHeader(g, c1.disk, blocks) && SameHome(g, c2.view, c1.view)
    requires InstalledUpTo(g, c2, c3, blocks, |blocks|)
    ensures blocks[j] < |c3.view| == |c0.view| && c3.view[blocks[j]] == c0.view[blocks[j]]
  {
    LogHolds(g, c0, c1, c2, blocks, j);
    HomeHolds(g, c2, c3, blocks, j);
    CopySizes(g, c0, c1, c2, c3, blocks);
  }

  lemma LogHolds(g: Geometry, c0: Copy, c1: Copy, c2: Copy, blocks: seq<nat>, j: nat)
    requires j < |blocks| && LoggedUpTo(g, c0, c1, blocks, |blocks|)
    requires c2.Fits(g, blocks) && c2.disk == WriteHeader(g, c1.disk, blocks)
    ensures blocks[j] < |c0.view| && g.start + 1 + j < |c2.disk| && c2.disk[g.start + 1 + j] == c0.view[blocks[j]]
  {
    hide EncodeHeader, WriteLogTrace;
    assert g.InLog(g.start + 1 + j);
  }

  lemma HomeHolds(g: Geometry, c2: Copy, c3: Copy, blocks: seq<nat>, j: nat)
    requires Distinct(blocks) && j < |blocks| && InstalledUpTo(g, c2, c3, blocks, |blocks|)
    ensures blocks[j] < |c3.view| && g.start + 1 + j < |c2.disk| && c3.view[blocks[j]] == c2.disk[g.start + 1 + j]
  {
    hide InstallTrace;
    assert blocks[..|blocks|] == blocks;
    InstalledValue(g, c2.disk, blocks, |blocks|, j);
  }

  lemma OtherBlockKept(g: Geometry, c0: Copy, c1: Copy, c2: Copy, c3: Copy, blocks: seq<nat>, i: nat)
    requires i !in blocks && i < |c3.view| && !g.InLog(i) && LoggedUpTo(g, c0, c1, blocks, |blocks|)
    requires SameHome(g, c2.view, c1.view) && InstalledUpTo(g, c2, c3, blocks, |blocks|)
    ensures |c0.view| == |c3.view| && c3.view[i] == c0.view[i]
  {
    assert blocks[..|blocks|] == blocks;
  }

  lemma RecoveryAssembled(g: Geometry, c0: Copy, c1: Copy, c2: Copy)
    requires WellFormed(g, c0.disk)
    requires var blocks := DecodeHeader(c0.disk[g.start]); InstalledUpTo(g, c0, c1, blocks, |blocks|)
    requires Loggable(g, |c1.disk|, []) && c2.disk == WriteHeader(g, c1.disk, []) && c2.trace == c1.trace + [c2.disk]
    ensures RecoveryTraced(g, c0, c2) && c2.disk == Recovered(g, c0.disk) && Clean(g, c2.disk)
  {
    hide WriteHeader, InstallUpTo, InstallTrace, RecoverImage, InstalledUpTo, DecodeHeader;
    ClearHeader(g, c1.disk);
    var blocks := DecodeHeader(c0.disk[g.start]);
    InstalledDisk(g, c0, c1, blocks);
    var t := InstallTrace(g, c0.disk, blocks, |blocks|);
    assert c2.trace == c0.trace + t + [c2.disk];
    RecoverImageAt(g, c0.disk, |blocks| + 1);
    TraceIsRecovery(g, c0.disk, c0.trace, t, c2.disk, c2.trace);
  }

  lemma InstalledDisk(g: Geometry, c0: Copy, c: Copy, blocks: seq<nat>)
    requires Loggable(g, |c0.disk|, blocks) && InstalledUpTo(g, c0, c, blocks, |blocks|)
    ensures c.disk == InstallUpTo(g, c0.disk, blocks, |blocks|)
    ensures c.trace == c0.trace + InstallTrace(g, c0.disk, blocks, |blocks|)
  {
  }

  lemma TraceIsRecovery(g: Geometry, img: Image, t0: seq<Image>, t: seq<Image>, last: Image, r: seq<Image>)
    requires WellFormed(g, img) && r == t0 + t + [last] && last == RecoverImage(g, img, RecoverWrites(g, img))
    requires var blocks := DecodeHeader(img[g.start]); t == InstallTrace(g, img, blocks, |blocks|)
    ensures |r| == |t0| + RecoverWrites(g, img) && r[..|t0|] == t0
    ensures forall k :: 1 <= k <= RecoverWrites(g, img) ==> r[|t0| + k - 1] == RecoverImage(g, img, k)
  {
    assert RecoverWrites(g, img) == |t| + 1;
    hide RecoverImage, InstallTrace, WellFormed, DecodeHeader, RecoverWrites;
    LastParts(t0, t, last, r);
    forall k | 1 <= k <= RecoverWrites(g, img) ensures r[|t0| + k - 1] == RecoverImage(g, img, k) {
      RecoverImageAt(g, img, k);
      LastAt(t0, t, last, k);
    }
  }

  lemma LastParts(t0: seq<Image>, t: seq<Image>, last: Image, r: seq<Image>)
    requires r == t0 + t + [last]
    ensures |r| == |t0| + |t| + 1 && r[..|t0|] == t0
  {
  }

  lemma RecoverImageAt(g: Geometry, img: Image, k: nat)
    requires WellFormed(g, img) && 1 <= k <= RecoverWrites(g, img)
    ensures var blocks := DecodeHeader(img[g.start]);
      RecoverImage(g, img, k) ==
        if k <= |blocks| then InstallTrace(g, img, blocks, |blocks|)[k - 1]
        else WriteHeader(g, InstallUpTo(g, img, blocks, |blocks|), [])
  {
  }

  lemma LastAt(t0: seq<Image>, t: seq<Image>, a: Image, k: nat)
    requires 1 <= k <= |t| + 1
    ensures (t0 + t + [a])[|t0| + k - 1] == if k <= |t| then t[k - 1] else a
  {
  }

  lemma {:induction false} InstalledValue(g: Geometry, img: Image, blocks: seq<nat>, k: nat, j: nat)
    requires Loggable(g, |img|, blocks) && Distinct(blocks) && j < k <= |blocks|
    ensures InstallUpTo(g, img, blocks, k)[blocks[j]] == img[g.start + 1 + j]
  {
    hide InstallUpTo;
    InstallLast(g, img, blocks, k);
    if j < k - 1 {
      InstalledValue(g, img, blocks, k - 1, j);
      assert blocks[j] != blocks[k - 1];
    }
  }

  lemma InstallLast(g: Geometry, img: Image, blocks: seq<nat>, k: nat)
    requires Loggable(g, |img|, blocks) && 0 < k <= |blocks|
    ensures InstallUpTo(g, img, blocks, k) == InstallUpTo(g, img, blocks, k - 1)[blocks[k - 1] := img[g.start + k]]
  {
  }

  /** Blocks of the group lose their pin one by one (recovery starts with none pinned). */
  ghost predicate StillPinned(dirty: set<nat>, dirty0: set<nat>, blocks: seq<nat>, tail: nat) {
    && tail <= |blocks| && dirty == dirty0 - Elements(blocks[..tail])
    && (dirty0 == {} || (Distinct(blocks) && Elements(blocks) == dirty0))
  }

  lemma InstallStart(g: Geometry, c: Copy, blocks: seq<nat>, bs: seq<Buf>,
                     dirty: set<nat>, held: set<nat>, waiting: multiset<nat>)
    requires Agrees(bs, c.disk, c.view, dirty, held, waiting) && forall b :: b in held ==> !g.InLog(b)
    requires c.Fits(g, blocks)
    requires dirty == {} || (Distinct(blocks) && Elements(blocks) == dirty)
    ensures InstalledUpTo(g, c, c, blocks, 0) && StillPinned(dirty, dirty, blocks, 0)
  {
    LogBlocksAgree(g, bs, c, blocks, dirty, held, waiting);
  }

  lemma InstalledSize(g: Geometry, c0: Copy, c: Copy, blocks: seq<nat>, tail: nat)
    requires InstalledUpTo(g, c0, c, blocks, tail)
    ensures |c.disk| == |c0.disk|
  {
  }

  lemma InstallEnd(blocks: seq<nat>, dirty: set<nat>, dirty0: set<nat>)
    requires StillPinned(dirty, dirty0, blocks, |blocks|)
    ensures dirty == {}
  {
    assert blocks[..|blocks|] == blocks;
  }

  lemma UnpinOne(dirty: set<nat>, dirty0: set<nat>, blocks: seq<nat>, tail: nat)
    requires StillPinned(dirty, dirty0, blocks, tail) && tail < |blocks|
    ensures blocks[tail] in dirty || dirty0 == {}
    ensures StillPinned(dirty - {blocks[tail]}, dirty0, blocks, tail + 1)
  {
    assert blocks[..tail + 1] == blocks[..tail] + [blocks[tail]];
  }
}
