/**
 The write-ahead log of log.c as a sequence of atomic block writes.

 `CommitImage` and `RecoverImage` give the disk after any number of the writes that commit() and
 recover_from_log() issue, so a crash between two writes is a choice of that number.
 The class `Log` proves that its methods put exactly these images on the disk; the lemmas here say
 what any crash leaves behind.
 */
module LogSpec {
  import opened Blocks

  const MAXOPBLOCKS: nat := 10
  const LOGSIZE: nat := 30  // MAXOPBLOCKS * 3

  /** The superblock fields of the log: first block (the header) and number of blocks. */
  datatype Geometry = Geometry(start: nat, size: nat) {
    predicate Fits(diskSize: nat) {
      1 <= size && start + size <= diskSize <= 0x1_0000_0000
    }

    predicate InLog(b: nat) {
      start <= b < start + size
    }

    /** What log_write enforces: n stays below LOGSIZE and below size - 1 before an append. */
    predicate Capacity(n: nat) {
      n <= LOGSIZE && n + 1 <= size
    }
  }

  /** A group of block numbers that the log may hold. */
  ghost predicate Loggable(g: Geometry, diskSize: nat, blocks: seq<nat>) {
    && g.Fits(diskSize)
    && g.Capacity(|blocks|)
    && forall j :: 0 <= j < |blocks| ==> blocks[j] < diskSize && !g.InLog(blocks[j])
  }

  // ----- the on-disk header -----

  function EncodeEntries(b: Block, blocks: seq<nat>, k: nat): (r: Block)
    requires k <= |blocks| <= LOGSIZE
    requires forall j :: 0 <= j < |blocks| ==> blocks[j] < 0x1_0000_0000
    ensures forall i :: 0 <= i < WORDS ==>
      GetWord(r, i) == if 1 <= i <= k then blocks[i - 1] else GetWord(b, i)
  {
    if k == 0 then b else
      var p := EncodeEntries(b, blocks, k - 1);
      var q := PutWord(p, k, blocks[k - 1]);
      assert forall i :: 0 <= i < WORDS ==> GetWord(q, i) == if i == k then blocks[k - 1] else GetWord(p, i) by {
        forall i | 0 <= i < WORDS
          ensures GetWord(q, i) == if i == k then blocks[k - 1] else GetWord(p, i)
        {
          GetPut(p, k, blocks[k - 1], i);
        }
      }
      q
  }

  /** write_head: the header block after n and block[0..n) are stored over its old contents. */
  function EncodeHeader(b: Block, blocks: seq<nat>): (r: Block)
    requires |blocks| <= LOGSIZE
    requires forall j :: 0 <= j < |blocks| ==> blocks[j] < 0x1_0000_0000
  {
    EncodeEntries(PutWord(b, 0, |blocks|), blocks, |blocks|)
  }

  /** The logged block numbers that a header block lists, when its count is in range. */
  function DecodeHeader(b: Block): (blocks: seq<nat>)
    ensures |blocks| <= LOGSIZE
  {
    var n := GetWord(b, 0);
    if n > LOGSIZE then [] else seq(n, (j: nat) requires j < n => GetWord(b, 1 + j))
  }

  lemma HeaderRoundTrip(b: Block, blocks: seq<nat>)
    requires |blocks| <= LOGSIZE
    requires forall j :: 0 <= j < |blocks| ==> blocks[j] < 0x1_0000_0000
    ensures GetWord(EncodeHeader(b, blocks), 0) == |blocks|
    ensures DecodeHeader(EncodeHeader(b, blocks)) == blocks
  {
    GetPut(b, 0, |blocks|, 0);
  }

  ghost predicate WellFormed(g: Geometry, img: Image) {
    && g.Fits(|img|)
    && GetWord(img[g.start], 0) <= LOGSIZE
    && Loggable(g, |img|, DecodeHeader(img[g.start]))
  }

  /** No committed transaction waits in the log. */
  ghost predicate Clean(g: Geometry, img: Image) {
    g.Fits(|img|) && GetWord(img[g.start], 0) == 0
  }

  // ----- the writes of write_log, write_head and install_trans -----

  function WriteLogUpTo(g: Geometry, img: Image, vals: seq<Block>, k: nat): (r: Image)
    requires g.Fits(|img|) && |vals| + 1 <= g.size && k <= |vals|
    ensures |r| == |img|
    ensures forall i :: 0 <= i < |img| ==>
      r[i] == if g.start < i <= g.start + k then vals[i - g.start - 1] else img[i]
  {
    if k == 0 then img else WriteLogUpTo(g, img, vals, k - 1)[g.start + k := vals[k - 1]]
  }

  function WriteHeader(g: Geometry, img: Image, blocks: seq<nat>): (r: Image)
    requires Loggable(g, |img|, blocks)
    ensures |r| == |img|
  {
    img[g.start := EncodeHeader(img[g.start], blocks)]
  }

  function InstallUpTo(g: Geometry, img: Image, blocks: seq<nat>, k: nat): (r: Image)
    requires Loggable(g, |img|, blocks) && k <= |blocks|
    ensures |r| == |img|
    ensures forall i :: 0 <= i < |img| && i !in blocks[..k] ==> r[i] == img[i]
  {
    if k == 0 then img else
      assert blocks[..k] == blocks[..k - 1] + [blocks[k - 1]];
      InstallUpTo(g, img, blocks, k - 1)[blocks[k - 1] := img[g.start + k]]
  }

  /** The images that write_log and install_trans put on the disk, one per block write. */
  ghost function WriteLogTrace(g: Geometry, img: Image, vals: seq<Block>, k: nat): (t: seq<Image>)
    requires g.Fits(|img|) && |vals| + 1 <= g.size && k <= |vals|
    ensures |t| == k && forall j :: 0 <= j < k ==> t[j] == WriteLogUpTo(g, img, vals, j + 1)
  {
    if k == 0 then [] else WriteLogTrace(g, img, vals, k - 1) + [WriteLogUpTo(g, img, vals, k)]
  }

  ghost function InstallTrace(g: Geometry, img: Image, blocks: seq<nat>, k: nat): (t: seq<Image>)
    requires Loggable(g, |img|, blocks) && k <= |blocks|
    ensures |t| == k && forall j :: 0 <= j < k ==> t[j] == InstallUpTo(g, img, blocks, j + 1)
  {
    if k == 0 then [] else InstallTrace(g, img, blocks, k - 1) + [InstallUpTo(g, img, blocks, k)]
  }

  /** Number of block writes that commit() issues for a group of n blocks. */
  function CommitWrites(n: nat): nat {
    if n == 0 then 0 else 2 * n + 2
  }

  /** The disk after the first k block writes of commit(). */
  function CommitImage(g: Geometry, img: Image, blocks: seq<nat>, vals: seq<Block>, k: nat): (r: Image)
    requires Loggable(g, |img|, blocks) && |vals| == |blocks|
    requires k <= CommitWrites(|blocks|)
    ensures |r| == |img|
  {
    var n := |blocks|;
    if k <= n then WriteLogUpTo(g, img, vals, k) else
      var head := WriteHeader(g, WriteLogUpTo(g, img, vals, n), blocks);
      if k <= 2 * n + 1 then InstallUpTo(g, head, blocks, k - n - 1)
      else WriteHeader(g, InstallUpTo(g, head, blocks, n), [])
  }

  /** Number of block writes of recover_from_log() started on img. */
  function RecoverWrites(g: Geometry, img: Image): nat
    requires WellFormed(g, img)
  {
    |DecodeHeader(img[g.start])| + 1
  }

  /** The disk after the first k block writes of recover_from_log(). */
  function RecoverImage(g: Geometry, img: Image, k: nat): (r: Image)
    requires WellFormed(g, img) && k <= RecoverWrites(g, img)
    ensures |r| == |img|
  {
    var blocks := DecodeHeader(img[g.start]);
    if k <= |blocks| then InstallUpTo(g, img, blocks, k)
    else WriteHeader(g, InstallUpTo(g, img, blocks, |blocks|), [])
  }

  function Recovered(g: Geometry, img: Image): (r: Image)
    requires WellFormed(g, img)
    ensures |r| == |img|
  {
    RecoverImage(g, img, RecoverWrites(g, img))
  }

  // ----- the atomic disk that the log implements -----

  /** Equal outside the log region. */
  ghost predicate SameHome(g: Geometry, a: Image, b: Image) {
    |a| == |b| && forall i :: 0 <= i < |a| && !g.InLog(i) ==> a[i] == b[i]
  }

  /** One atomic step of the abstract disk: every block of the group takes its new value. */
  function ApplyGroup(img: Image, blocks: seq<nat>, vals: seq<Block>): (r: Image)
    requires |blocks| == |vals|
    requires forall j :: 0 <= j < |blocks| ==> blocks[j] < |img|
    ensures |r| == |img|
  {
    if blocks == [] then img else
      ApplyGroup(img, blocks[..|blocks| - 1], vals[..|blocks| - 1])[blocks[|blocks| - 1] := vals[|blocks| - 1]]
  }

  lemma {:induction false} ApplyGroupSame(g: Geometry, a: Image, b: Image, blocks: seq<nat>, vals: seq<Block>)
    requires |blocks| == |vals|
    requires SameHome(g, a, b)
    requires forall j :: 0 <= j < |blocks| ==> blocks[j] < |a|
    ensures SameHome(g, ApplyGroup(a, blocks, vals), ApplyGroup(b, blocks, vals))
  {
    if blocks != [] {
      ApplyGroupSame(g, a, b, blocks[..|blocks| - 1], vals[..|blocks| - 1]);
    }
  }

  // ----- what a crash leaves behind -----

  /** Installing is idempotent over any partial installation of the same group. */
  lemma {:induction false} InstallOverPartial(g: Geometry, a: Image, b: Image, blocks: seq<nat>, k: nat)
    requires Loggable(g, |a|, blocks) && |a| == |b| && k <= |blocks|
    requires forall i :: 0 <= i < |a| && i !in blocks ==> a[i] == b[i]
    ensures forall i :: 0 <= i < |a| && (i !in blocks || i in blocks[..k]) ==>
      InstallUpTo(g, a, blocks, k)[i] == InstallUpTo(g, b, blocks, k)[i]
  {
    if k > 0 {
      InstallOverPartial(g, a, b, blocks, k - 1);
      assert blocks[..k] == blocks[..k - 1] + [blocks[k - 1]];
      assert g.InLog(g.start + k) && g.start + k !in blocks;
    }
  }

  lemma InstallKeepsLog(g: Geometry, img: Image, blocks: seq<nat>, k: nat)
    requires Loggable(g, |img|, blocks) && k <= |blocks|
    ensures forall i: nat :: g.InLog(i) ==> InstallUpTo(g, img, blocks, k)[i] == img[i]
  {
    forall i: nat | g.InLog(i) ensures i !in blocks[..k] {
    }
  }

  /** Clearing the header empties the log and changes no home block. */
  lemma ClearHeader(g: Geometry, img: Image)
    requires g.Fits(|img|)
    ensures Loggable(g, |img|, [])
    ensures Clean(g, WriteHeader(g, img, []))
    ensures SameHome(g, WriteHeader(g, img, []), img)
  {
    HeaderRoundTrip(img[g.start], []);
  }

  lemma CleanRecovers(g: Geometry, img: Image)
    requires Clean(g, img)
    ensures WellFormed(g, img) && DecodeHeader(img[g.start]) == []
    ensures SameHome(g, Recovered(g, img), img) && Clean(g, Recovered(g, img))
  {
    ClearHeader(g, img);
  }

  /** A crash inside recovery loses nothing: recovering again ends in the same home blocks. */
  lemma RecoverCrash(g: Geometry, img: Image, k: nat)
    requires WellFormed(g, img) && k <= RecoverWrites(g, img)
    ensures WellFormed(g, RecoverImage(g, img, k))
    ensures SameHome(g, Recovered(g, RecoverImage(g, img, k)), Recovered(g, img))
    ensures Clean(g, Recovered(g, img))
  {
    var blocks := DecodeHeader(img[g.start]);
    var full := InstallUpTo(g, img, blocks, |blocks|);
    ClearHeader(g, full);
    var mid := RecoverImage(g, img, k);
    if k <= |blocks| {
      InstallKeepsLog(g, img, blocks, k);
      assert mid[g.start] == img[g.start];
      InstallOverPartial(g, img, mid, blocks, |blocks|);
      assert blocks[..|blocks|] == blocks;
      ClearHeader(g, InstallUpTo(g, mid, blocks, |blocks|));
    } else {
      CleanRecovers(g, mid);
    }
  }

  /** Installing a group from the log is exactly the abstract atomic step. */
  lemma {:induction false} InstallApplies(g: Geometry, a: Image, b: Image, blocks: seq<nat>, vals: seq<Block>, k: nat)
    requires Loggable(g, |a|, blocks) && |vals| == |blocks| && k <= |blocks|
    requires SameHome(g, a, b)
    requires forall j :: 0 <= j < |vals| ==> a[g.start + 1 + j] == vals[j]
    ensures SameHome(g, InstallUpTo(g, a, blocks, k), ApplyGroup(b, blocks[..k], vals[..k]))
  {
    if k > 0 {
      InstallApplies(g, a, b, blocks, vals, k - 1);
      assert blocks[..k][..k - 1] == blocks[..k - 1];
      assert vals[..k][..k - 1] == vals[..k - 1];
    }
  }

  /** The header write of commit(): from here on recovery finds the whole group. */
  lemma HeaderCommits(g: Geometry, img: Image, blocks: seq<nat>, vals: seq<Block>)
    requires Clean(g, img) && Loggable(g, |img|, blocks) && |vals| == |blocks|
    ensures var head := WriteHeader(g, WriteLogUpTo(g, img, vals, |vals|), blocks);
      && |head| == |img| && WellFormed(g, head) && DecodeHeader(head[g.start]) == blocks
      && SameHome(g, InstallUpTo(g, head, blocks, |blocks|), ApplyGroup(img, blocks, vals))
  {
    hide InstallUpTo, ApplyGroup, WriteLogUpTo, SameHome;
    HeadIs(g, img, blocks, vals);
    InstallAppliesAll(g, WriteHeader(g, WriteLogUpTo(g, img, vals, |vals|), blocks), img, blocks, vals);
  }

  /** The image at the commit point: the new values are in the log, the header lists the blocks, home is as before. */
  lemma HeadIs(g: Geometry, img: Image, blocks: seq<nat>, vals: seq<Block>)
    requires g.Fits(|img|) && Loggable(g, |img|, blocks) && |vals| == |blocks|
    ensures var head := WriteHeader(g, WriteLogUpTo(g, img, vals, |vals|), blocks);
      && |head| == |img| && GetWord(head[g.start], 0) == |blocks| && DecodeHeader(head[g.start]) == blocks
      && SameHome(g, head, img) && forall j :: 0 <= j < |vals| ==> head[g.start + 1 + j] == vals[j]
  {
    hide WriteLogUpTo, EncodeHeader, DecodeHeader;
    HeaderRoundTrip(WriteLogUpTo(g, img, vals, |vals|)[g.start], blocks);
  }

  lemma InstallAppliesAll(g: Geometry, a: Image, b: Image, blocks: seq<nat>, vals: seq<Block>)
    requires Loggable(g, |a|, blocks) && |vals| == |blocks| && SameHome(g, a, b)
    requires forall j :: 0 <= j < |vals| ==> a[g.start + 1 + j] == vals[j]
    ensures SameHome(g, InstallUpTo(g, a, blocks, |blocks|), ApplyGroup(b, blocks, vals))
  {
    hide InstallUpTo, ApplyGroup;
    InstallApplies(g, a, b, blocks, vals, |blocks|);
    assert blocks[..|blocks|] == blocks && vals[..|vals|] == vals;
  }

  /**
   Crash atomicity of commit(): whatever number of its block writes reached the disk, recovery
   yields the old home blocks if the header write is missing, and the whole group otherwise.
   */
  lemma CommitCrash(g: Geometry, img: Image, blocks: seq<nat>, vals: seq<Block>, k: nat)
    requires Clean(g, img) && Loggable(g, |img|, blocks) && |vals| == |blocks|
    requires k <= CommitWrites(|blocks|)
    ensures WellFormed(g, CommitImage(g, img, blocks, vals, k))
    ensures SameHome(g, Recovered(g, CommitImage(g, img, blocks, vals, k)),
                     if k <= |blocks| then img else ApplyGroup(img, blocks, vals))
  {
    if k <= |blocks| {
      CrashBeforeHeader(g, img, blocks, vals, k);
    } else {
      CrashAfterHeader(g, img, blocks, vals, k);
    }
  }

  lemma CrashBeforeHeader(g: Geometry, img: Image, blocks: seq<nat>, vals: seq<Block>, k: nat)
    requires Clean(g, img) && Loggable(g, |img|, blocks) && |vals| == |blocks| && k <= |blocks|
    ensures WellFormed(g, CommitImage(g, img, blocks, vals, k))
    ensures SameHome(g, Recovered(g, CommitImage(g, img, blocks, vals, k)), img)
  {
    hide InstallUpTo, WriteLogUpTo, WriteHeader, Recovered;
    var mid := CommitImage(g, img, blocks, vals, k);
    assert mid[g.start] == img[g.start];
    CleanRecovers(g, mid);
    assert SameHome(g, mid, img);
  }

  lemma CrashAfterHeader(g: Geometry, img: Image, blocks: seq<nat>, vals: seq<Block>, k: nat)
    requires Clean(g, img) && Loggable(g, |img|, blocks) && |vals| == |blocks|
    requires |blocks| < k <= CommitWrites(|blocks|)
    ensures WellFormed(g, CommitImage(g, img, blocks, vals, k))
    ensures SameHome(g, Recovered(g, CommitImage(g, img, blocks, vals, k)), ApplyGroup(img, blocks, vals))
  {
    HeaderCommits(g, img, blocks, vals);
    InstallsAsRecovery(g, img, blocks, vals, k);
    var head := WriteHeader(g, WriteLogUpTo(g, img, vals, |vals|), blocks);
    hide *;
    CrashRecovers(g, head, img, blocks, vals, k - |blocks| - 1);
  }

  /** A crash during recovery of a committed group ends in the whole group all the same. */
  lemma CrashRecovers(g: Geometry, head: Image, img: Image, blocks: seq<nat>, vals: seq<Block>, k: nat)
    requires WellFormed(g, head) && DecodeHeader(head[g.start]) == blocks && k <= RecoverWrites(g, head)
    requires |head| == |img| && Loggable(g, |img|, blocks) && |vals| == |blocks|
    requires SameHome(g, InstallUpTo(g, head, blocks, |blocks|), ApplyGroup(img, blocks, vals))
    ensures WellFormed(g, RecoverImage(g, head, k))
    ensures SameHome(g, Recovered(g, RecoverImage(g, head, k)), ApplyGroup(img, blocks, vals))
  {
    assert forall j :: 0 <= j < |blocks| ==> blocks[j] < |img|;
    hide *;
    RecoverCrash(g, head, k);
    RecoveredIs(g, head, blocks);
    SameHomeChain(g, Recovered(g, RecoverImage(g, head, k)), Recovered(g, head),
                  InstallUpTo(g, head, blocks, |blocks|), ApplyGroup(img, blocks, vals));
  }

  /** After the header write, commit() does what recovery from its image would do. */
  lemma InstallsAsRecovery(g: Geometry, img: Image, blocks: seq<nat>, vals: seq<Block>, k: nat)
    requires Loggable(g, |img|, blocks) && |vals| == |blocks| < k <= CommitWrites(|blocks|)
    requires var head := WriteHeader(g, WriteLogUpTo(g, img, vals, |vals|), blocks);
      WellFormed(g, head) && DecodeHeader(head[g.start]) == blocks
    ensures var head := WriteHeader(g, WriteLogUpTo(g, img, vals, |vals|), blocks);
      && k - |blocks| - 1 <= RecoverWrites(g, head)
      && CommitImage(g, img, blocks, vals, k) == RecoverImage(g, head, k - |blocks| - 1)
  {
    hide InstallUpTo, WriteLogUpTo, WriteHeader, DecodeHeader;
  }

  /** Recovery of a committed group is its installation, as far as home blocks go. */
  lemma RecoveredIs(g: Geometry, head: Image, blocks: seq<nat>)
    requires WellFormed(g, head) && DecodeHeader(head[g.start]) == blocks
    ensures SameHome(g, Recovered(g, head), InstallUpTo(g, head, blocks, |blocks|))
  {
    hide InstallUpTo, DecodeHeader;
    ClearHeader(g, InstallUpTo(g, head, blocks, |blocks|));
  }

  lemma SameHomeChain(g: Geometry, a: Image, b: Image, c: Image, d: Image)
    requires SameHome(g, a, b) && SameHome(g, b, c) && SameHome(g, c, d)
    ensures SameHome(g, a, d)
  {
  }

  /** A completed commit leaves an empty log and the group installed. */
  lemma CommitCompletes(g: Geometry, img: Image, blocks: seq<nat>, vals: seq<Block>)
    requires Clean(g, img) && Loggable(g, |img|, blocks) && |vals| == |blocks|
    ensures var r := CommitImage(g, img, blocks, vals, CommitWrites(|blocks|));
      Clean(g, r) && SameHome(g, r, ApplyGroup(img, blocks, vals))
  {
    if blocks != [] {
      HeaderCommits(g, img, blocks, vals);
      var head := WriteHeader(g, WriteLogUpTo(g, img, vals, |blocks|), blocks);
      ClearHeader(g, InstallUpTo(g, head, blocks, |blocks|));
    }
  }

  // ----- whole runs with crashes anywhere -----

  /** `writes` is how many block writes reach the disk before power is lost, if it is. */
  datatype Event =
    | Commit(blocks: seq<nat>, vals: seq<Block>, writes: nat)
    | Recover(writes: nat)
    | PowerLoss

  datatype Machine = Machine(img: Image, up: bool)

  ghost predicate Enabled(g: Geometry, m: Machine, e: Event) {
    match e
    case Commit(blocks, vals, _) => m.up && Loggable(g, |m.img|, blocks) && |vals| == |blocks|
    case Recover(_) => !m.up && WellFormed(g, m.img)
    case PowerLoss => true
  }

  function Step(g: Geometry, m: Machine, e: Event): Machine
    requires Enabled(g, m, e)
  {
    match e
    case Commit(blocks, vals, writes) =>
      var total := CommitWrites(|blocks|);
      if writes >= total then Machine(CommitImage(g, m.img, blocks, vals, total), true)
      else Machine(CommitImage(g, m.img, blocks, vals, writes), false)
    case Recover(writes) =>
      if writes >= RecoverWrites(g, m.img) then Machine(Recovered(g, m.img), true)
      else Machine(RecoverImage(g, m.img, writes), false)
    case PowerLoss => Machine(m.img, false)
  }

  /** The abstract disk: a group counts exactly when its header write completed. */
  function AtomicStep(disk: Image, e: Event): (r: Image)
    requires e.Commit? ==> |e.blocks| == |e.vals| && forall j :: 0 <= j < |e.blocks| ==> e.blocks[j] < |disk|
    ensures |r| == |disk|
  {
    if e.Commit? && 0 < |e.blocks| < e.writes then ApplyGroup(disk, e.blocks, e.vals) else disk
  }

  /** What relates the machine to the abstract disk at every moment of every run. */
  ghost predicate Refines(g: Geometry, m: Machine, disk: Image) {
    && WellFormed(g, m.img)
    && SameHome(g, Recovered(g, m.img), disk)
    && (m.up ==> Clean(g, m.img) && SameHome(g, m.img, disk))
  }

  lemma StepRefines(g: Geometry, m: Machine, disk: Image, e: Event)
    requires Refines(g, m, disk) && Enabled(g, m, e)
    ensures Refines(g, Step(g, m, e), AtomicStep(disk, e))
  {
    match e
    case Commit(blocks, vals, writes) =>
      ApplyGroupSame(g, m.img, disk, blocks, vals);
      var k := if writes >= CommitWrites(|blocks|) then CommitWrites(|blocks|) else writes;
      CommitCrash(g, m.img, blocks, vals, k);
      CommitCompletes(g, m.img, blocks, vals);
    case Recover(writes) =>
      var k := if writes >= RecoverWrites(g, m.img) then RecoverWrites(g, m.img) else writes;
      RecoverCrash(g, m.img, k);
    case PowerLoss =>
  }

  /** Every event of the run is enabled when it happens. */
  ghost predicate IsRun(g: Geometry, m: Machine, es: seq<Event>)
    decreases |es|
  {
    es == [] || (Enabled(g, m, es[0]) && IsRun(g, Step(g, m, es[0]), es[1..]))
  }

  function RunMachine(g: Geometry, m: Machine, es: seq<Event>): Machine
    requires IsRun(g, m, es)
    decreases |es|
  {
    if es == [] then m else RunMachine(g, Step(g, m, es[0]), es[1..])
  }

  ghost predicate AtomicRunDefined(size: nat, es: seq<Event>) {
    forall i :: 0 <= i < |es| && es[i].Commit? ==>
      |es[i].blocks| == |es[i].vals| && forall j :: 0 <= j < |es[i].blocks| ==> es[i].blocks[j] < size
  }

  function RunAtomic(disk: Image, es: seq<Event>): Image
    requires AtomicRunDefined(|disk|, es)
    decreases |es|
  {
    if es == [] then disk else RunAtomic(AtomicStep(disk, es[0]), es[1..])
  }

  lemma {:induction false} RunRefines(g: Geometry, m: Machine, disk: Image, es: seq<Event>)
    requires Refines(g, m, disk) && IsRun(g, m, es)
    ensures AtomicRunDefined(|disk|, es)
    ensures Refines(g, RunMachine(g, m, es), RunAtomic(disk, es))
    decreases |es|
  {
    if es != [] {
      StepRefines(g, m, disk, es[0]);
      RunRefines(g, Step(g, m, es[0]), AtomicStep(disk, es[0]), es[1..]);
      assert AtomicRunDefined(|disk|, es) by {
        forall i | 0 <= i < |es| && es[i].Commit? ensures
          |es[i].blocks| == |es[i].vals| && forall j :: 0 <= j < |es[i].blocks| ==> es[i].blocks[j] < |disk|
        {
          if i > 0 { assert es[i] == es[1..][i - 1]; }
        }
      }
    }
  }

  /**
   Crash atomicity over whole runs: from a freshly made file system, after any sequence of commits,
   power losses between any two block writes and (possibly interrupted) recoveries, the home blocks
   that recovery produces are those of the atomic disk on which exactly the groups whose header
   write completed have been applied, in order.
   */
  lemma CrashAtomicity(g: Geometry, img: Image, es: seq<Event>)
    requires Clean(g, img)
    requires IsRun(g, Machine(img, true), es)
    ensures AtomicRunDefined(|img|, es)
    ensures var m := RunMachine(g, Machine(img, true), es);
      && WellFormed(g, m.img)
      && SameHome(g, Recovered(g, m.img), RunAtomic(img, es))
      && (m.up ==> SameHome(g, m.img, RunAtomic(img, es)))
  {
    CleanRecovers(g, img);
    RunRefines(g, Machine(img, true), img, es);
  }
}
