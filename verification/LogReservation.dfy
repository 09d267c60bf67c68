/**
 Space reservation in log.c with any number of interleaved file system operations.

 Every atomic section is one step. The capacity test of log_write runs outside the lock, so it is a
 step of its own (`Test`), apart from the locked search and append (`Append`).
 */
module LogReservation {
  import LogSpec
  import Sets

  const MAXOPBLOCKS: nat := LogSpec.MAXOPBLOCKS
  const LOGSIZE: nat := LogSpec.LOGSIZE
  /** log.size - 1 with nlog == LOGSIZE, as mkfs makes it: one block of the log is the header. */
  const CAPACITY: nat := LOGSIZE - 1

  datatype Option<T> = None | Some(value: T)

  /** An operation between begin_op and end_op: the blocks it has logged, and the one it is logging. */
  datatype Op = Op(logged: set<nat>, pending: Option<nat>)

  /** log.lh.block[0..n), the outstanding operations, log.committing. */
  datatype State = State(block: seq<nat>, ops: seq<Op>, committing: bool)

  datatype Step =
    | Begin
    | Test(i: nat, b: nat)
    | Append(i: nat)
    | End(i: nat)
    | CommitDone

  const INITIAL := State([], [], false)

  /** Operation i may call log_write(b) next without exceeding its limit of `most` distinct blocks. */
  ghost predicate MayLog(s: State, i: nat, b: nat, most: nat) {
    i < |s.ops| && s.ops[i].pending.None? && |s.ops[i].logged + {b}| <= most
  }

  /** The panic "too big a transaction" of log_write. */
  predicate TooBig(s: State) {
    |s.block| >= LOGSIZE || |s.block| >= CAPACITY
  }

  /** What the code lets a step do, however many blocks an operation logs. */
  ghost predicate Ready(s: State, step: Step) {
    match step
    case Begin => !s.committing && |s.block| + (|s.ops| + 1) * MAXOPBLOCKS <= LOGSIZE
    case Test(i, _) => i < |s.ops| && s.ops[i].pending.None? && !TooBig(s)
    case Append(i) => i < |s.ops| && s.ops[i].pending.Some?
    case End(i) => i < |s.ops| && s.ops[i].pending.None?
    case CommitDone => s.committing
  }

  ghost predicate Enabled(s: State, step: Step, most: nat) {
    Ready(s, step) && (step.Test? ==> MayLog(s, step.i, step.b, most))
  }

  function Remove<T>(s: seq<T>, i: nat): seq<T>
    requires i < |s|
  {
    s[..i] + s[i + 1..]
  }

  function Next(s: State, step: Step): State
    requires Ready(s, step)
  {
    match step
    case Begin => s.(ops := s.ops + [Op({}, None)])
    case Test(i, b) => s.(ops := s.ops[i := s.ops[i].(pending := Some(b))])
    case Append(i) =>
      var b := s.ops[i].pending.value;
      State(if b in s.block then s.block else s.block + [b],
            s.ops[i := Op(s.ops[i].logged + {b}, None)], s.committing)
    case End(i) =>
      var rest := Remove(s.ops, i);
      s.(ops := rest, committing := rest == [])
    case CommitDone => s.(block := [], committing := false)
  }

  ghost predicate IsRun(s: State, steps: seq<Step>, most: nat)
    decreases |steps|
  {
    steps == [] || (Enabled(s, steps[0], most) && IsRun(Next(s, steps[0]), steps[1..], most))
  }

  function Run(s: State, steps: seq<Step>, most: nat): State
    requires IsRun(s, steps, most)
    decreases |steps|
  {
    if steps == [] then s else Run(Next(s, steps[0]), steps[1..], most)
  }

  ghost predicate Reachable(s: State, most: nat) {
    exists steps :: IsRun(INITIAL, steps, most) && Run(INITIAL, steps, most) == s
  }

  // ----- the invariant -----

  /** How many more distinct blocks the outstanding operations may still log. */
  ghost function Slack(ops: seq<Op>, most: nat): (r: int)
    requires forall i :: 0 <= i < |ops| ==> |ops[i].logged| <= most
    ensures r >= 0
    ensures r <= |ops| * most
  {
    if ops == [] then 0 else
      assert |ops| * most == (|ops| - 1) * most + most;
      Slack(ops[..|ops| - 1], most) + most - |ops[|ops| - 1].logged|
  }

  lemma {:induction false} SlackSplit(ops: seq<Op>, i: nat, most: nat)
    requires i < |ops|
    requires forall j :: 0 <= j < |ops| ==> |ops[j].logged| <= most
    ensures Slack(ops, most) == Slack(Remove(ops, i), most) + most - |ops[i].logged|
  {
    if i == |ops| - 1 {
      assert Remove(ops, i) == ops[..i];
    } else {
      var last := |ops| - 1;
      SlackSplit(ops[..last], i, most);
      assert Remove(ops, i)[..last - 1] == Remove(ops[..last], i);
      assert Remove(ops, i)[last - 1] == ops[last];
    }
  }

  ghost predicate Inv(s: State, most: nat) {
    && (forall i :: 0 <= i < |s.ops| ==> |s.ops[i].logged| <= most)
    && (forall i :: 0 <= i < |s.ops| ==> s.ops[i].pending.Some? ==>
          |s.ops[i].logged + {s.ops[i].pending.value}| <= most)
    && (forall i, b :: 0 <= i < |s.ops| && b in s.ops[i].logged ==> b in s.block)
    && (forall i, j :: 0 <= i < j < |s.block| ==> s.block[i] != s.block[j])
    && (s.committing ==> s.ops == [])
    && (s.ops == [] && !s.committing ==> s.block == [])
    && |s.block| + Slack(s.ops, most) <= MAXOPBLOCKS + 2 * most
  }

  lemma BeginKeepsInv(s: State, most: nat)
    requires Inv(s, most) && Enabled(s, Begin, most) && most <= MAXOPBLOCKS
    ensures Inv(Next(s, Begin), most)
  {
    hide Slack;
    SlackBegin(s.ops, most);
    SlackSmall(s.ops, most);
  }

  lemma SlackSmall(ops: seq<Op>, most: nat)
    requires |ops| <= 2 && forall i :: 0 <= i < |ops| ==> |ops[i].logged| <= most
    ensures Slack(ops, most) <= if ops == [] then 0 else if |ops| == 1 then most else 2 * most
  {
    if |ops| == 2 {
      assert Slack(ops[..1], most) <= most;
    }
  }

  lemma SlackBegin(ops: seq<Op>, most: nat)
    requires forall i :: 0 <= i < |ops| ==> |ops[i].logged| <= most
    ensures Slack(ops + [Op({}, None)], most) == Slack(ops, most) + most
  {
    assert (ops + [Op({}, None)])[..|ops|] == ops;
  }

  lemma TestKeepsInv(s: State, i: nat, b: nat, most: nat)
    requires Inv(s, most) && Enabled(s, Test(i, b), most)
    ensures Inv(Next(s, Test(i, b)), most)
  {
    var t := Next(s, Test(i, b));
    SlackSplit(s.ops, i, most);
    SlackSplit(t.ops, i, most);
    assert Remove(s.ops, i) == Remove(t.ops, i);
  }

  lemma AppendKeepsInv(s: State, i: nat, most: nat)
    requires Inv(s, most) && Enabled(s, Append(i), most)
    ensures Inv(Next(s, Append(i)), most)
  {
    var t := Next(s, Append(i));
    var b, logged := s.ops[i].pending.value, s.ops[i].logged;
    SlackSplit(s.ops, i, most);
    SlackSplit(t.ops, i, most);
    assert Remove(s.ops, i) == Remove(t.ops, i);
    assert t.block == s.block || t.block == s.block + [b];
    forall j, c | 0 <= j < |t.ops| && c in t.ops[j].logged ensures c in t.block {
      if j != i { assert c in s.ops[j].logged; }
    }
    if b in logged {
      assert logged + {b} == logged && b in s.block;
    } else {
      assert |logged + {b}| == |logged| + 1;
    }
    hide Slack, Remove;
  }

  lemma EndKeepsInv(s: State, i: nat, most: nat)
    requires Inv(s, most) && Enabled(s, End(i), most)
    ensures Inv(Next(s, End(i)), most)
  {
    SlackSplit(s.ops, i, most);
  }

  lemma StepKeepsInv(s: State, step: Step, most: nat)
    requires Inv(s, most) && Enabled(s, step, most) && most <= MAXOPBLOCKS
    ensures Inv(Next(s, step), most)
  {
    match step
    case Begin => BeginKeepsInv(s, most);
    case Test(i, b) => TestKeepsInv(s, i, b, most);
    case Append(i) => AppendKeepsInv(s, i, most);
    case End(i) => EndKeepsInv(s, i, most);
    case CommitDone =>
  }

  lemma {:induction false} RunKeepsInv(s: State, steps: seq<Step>, most: nat)
    requires Inv(s, most) && IsRun(s, steps, most) && most <= MAXOPBLOCKS
    ensures Inv(Run(s, steps, most), most)
    decreases |steps|
  {
    if steps != [] {
      StepKeepsInv(s, steps[0], most);
      RunKeepsInv(Next(s, steps[0]), steps[1..], most);
    }
  }

  /** What holds however many blocks the operations log. */
  ghost predicate Orderly(s: State) {
    && (s.committing ==> s.ops == [])
    && (forall i, j :: 0 <= i < j < |s.block| ==> s.block[i] != s.block[j])
    && (forall i, b :: 0 <= i < |s.ops| && b in s.ops[i].logged ==> b in s.block)
  }

  lemma StepKeepsOrder(s: State, step: Step)
    requires Orderly(s) && Ready(s, step)
    ensures Orderly(Next(s, step))
  {
    var t := Next(s, step);
    if step.Append? {
      var b := s.ops[step.i].pending.value;
      assert t.block == s.block || t.block == s.block + [b];
      forall j, c | 0 <= j < |t.ops| && c in t.ops[j].logged ensures c in t.block {
        if j != step.i {
          assert c in s.ops[j].logged;
        }
      }
    }
  }

  lemma {:induction false} RunKeepsOrder(s: State, steps: seq<Step>, most: nat)
    requires Orderly(s) && IsRun(s, steps, most)
    ensures Orderly(Run(s, steps, most))
    decreases |steps|
  {
    if steps != [] {
      StepKeepsOrder(s, steps[0]);
      RunKeepsOrder(Next(s, steps[0]), steps[1..], most);
    }
  }

  /**
   In every reachable state, whatever the operations log: nothing is outstanding while committing, the group
   has no duplicates, and it holds every logged block.
   */
  lemma CommitRunsAlone(s: State, most: nat)
    requires Reachable(s, most)
    ensures s.committing ==> s.ops == []
    ensures forall i, j :: 0 <= i < j < |s.block| ==> s.block[i] != s.block[j]
    ensures forall i, b :: 0 <= i < |s.ops| && b in s.ops[i].logged ==> b in s.block
  {
    var steps :| IsRun(INITIAL, steps, most) && Run(INITIAL, steps, most) == s;
    RunKeepsOrder(INITIAL, steps, most);
  }

  /** With the reservation kept, block[LOGSIZE] never overflows, not even by a test that was made outside the lock. */
  lemma GroupInBounds(s: State, most: nat)
    requires Reachable(s, most) && most <= MAXOPBLOCKS
    ensures |s.block| <= MAXOPBLOCKS + 2 * most <= LOGSIZE
  {
    var steps :| IsRun(INITIAL, steps, most) && Run(INITIAL, steps, most) == s;
    RunKeepsInv(INITIAL, steps, most);
  }

  /**
   If every operation logs at most MAXOPBLOCKS - 1 distinct blocks, no log_write ever panics, and the
   entry that an append writes is inside block[LOGSIZE], although the test is made outside the lock.
   */
  lemma ReservationSuffices(s: State, most: nat)
    requires Reachable(s, most) && most < MAXOPBLOCKS
    ensures !TooBig(s)
    ensures forall i :: 0 <= i < |s.ops| ==> |s.ops[i].logged| <= most
    ensures forall i :: Enabled(s, Append(i), most) ==> |Next(s, Append(i)).block| < CAPACITY
  {
    var steps :| IsRun(INITIAL, steps, most) && Run(INITIAL, steps, most) == s;
    RunKeepsInv(INITIAL, steps, most);
    forall i | Enabled(s, Append(i), most) ensures |Next(s, Append(i)).block| < CAPACITY {
      StepKeepsInv(s, Append(i), most);
    }
  }

  // ----- the bound is exact -----

  lemma {:induction false} RunThen(s: State, a: seq<Step>, b: seq<Step>, most: nat)
    requires IsRun(s, a, most) && IsRun(Run(s, a, most), b, most)
    ensures IsRun(s, a + b, most) && Run(s, a + b, most) == Run(Run(s, a, most), b, most)
    decreases |a|
  {
    hide Next;
    if a == [] {
      assert a + b == b;
    } else {
      RunThen(Next(s, a[0]), a[1..], b, most);
      assert (a + b)[1..] == a[1..] + b;
    }
  }

  /** Operation i logs a block that no one has logged yet. */
  lemma LogFresh(s: State, i: nat, b: nat, most: nat)
    requires MayLog(s, i, b, most) && !TooBig(s) && b !in s.block
    ensures IsRun(s, [Test(i, b), Append(i)], most)
    ensures Run(s, [Test(i, b), Append(i)], most) ==
      s.(block := s.block + [b], ops := s.ops[i := Op(s.ops[i].logged + {b}, None)])
  {
    var t := Next(s, Test(i, b));
    var u := Next(t, Append(i));
    assert u.ops == s.ops[i := Op(s.ops[i].logged + {b}, None)];
    hide Enabled, Next;
    assert [Test(i, b), Append(i)][1..] == [Append(i)] && [Append(i)][1..] == [];
    assert IsRun(u, [], most) && Run(u, [], most) == u;
    assert IsRun(t, [Append(i)], most) && Run(t, [Append(i)], most) == u;
  }

  /** The blocks logged so far are numbered below the length of the group, so the next number is fresh. */
  ghost predicate Numbered(s: State) {
    && (forall b :: b in s.block ==> b < |s.block|)
    && forall i :: 0 <= i < |s.ops| ==> s.ops[i].pending.None? && forall b :: b in s.ops[i].logged ==> b in s.block
  }

  /** Operation i logs `count` fresh blocks. */
  lemma {:induction false} FillRun(s: State, i: nat, count: nat, most: nat) returns (steps: seq<Step>, t: State)
    requires Numbered(s) && i < |s.ops| && |s.ops[i].logged| + count <= most && |s.block| + count <= CAPACITY
    ensures IsRun(s, steps, most) && Run(s, steps, most) == t
    ensures Numbered(t) && |t.block| == |s.block| + count
    ensures |t.ops| == |s.ops| && |t.ops[i].logged| == |s.ops[i].logged| + count
    ensures forall j :: 0 <= j < |s.ops| && j != i ==> t.ops[j] == s.ops[j]
  {
    if count == 0 {
      steps, t := [], s;
    } else {
      var before, u := FillRun(s, i, count - 1, most);
      var b := |u.block|;
      LogFresh(u, i, b, most);
      RunThen(s, before, [Test(i, b), Append(i)], most);
      steps := before + [Test(i, b), Append(i)];
      t := u.(block := u.block + [b], ops := u.ops[i := Op(u.ops[i].logged + {b}, None)]);
    }
  }

  lemma ThreeBegin()
    ensures IsRun(INITIAL, [Begin, Begin, Begin], MAXOPBLOCKS)
    ensures Run(INITIAL, [Begin, Begin, Begin], MAXOPBLOCKS) ==
      State([], [Op({}, None), Op({}, None), Op({}, None)], false)
  {
    var s1 := Next(INITIAL, Begin);
    var s2 := Next(s1, Begin);
    var s3 := Next(s2, Begin);
    assert [Begin, Begin, Begin][1..] == [Begin, Begin] && [Begin, Begin][1..] == [Begin] && [Begin][1..] == [];
    assert IsRun(s3, [], MAXOPBLOCKS) && Run(s3, [], MAXOPBLOCKS) == s3;
    assert IsRun(s2, [Begin], MAXOPBLOCKS) && Run(s2, [Begin], MAXOPBLOCKS) == s3;
    assert IsRun(s1, [Begin, Begin], MAXOPBLOCKS) && Run(s1, [Begin, Begin], MAXOPBLOCKS) == s3;
  }

  ghost predicate CanPanic(s: State, most: nat) {
    TooBig(s) && exists i, b :: MayLog(s, i, b, most)
  }

  /** With the full MAXOPBLOCKS blocks per operation, three operations reach the panic. */
  lemma FullReservationPanics()
    ensures exists s :: Reachable(s, MAXOPBLOCKS) && CanPanic(s, MAXOPBLOCKS)
  {
    var most := MAXOPBLOCKS;
    ThreeBegin();
    var s0 := State([], [Op({}, None), Op({}, None), Op({}, None)], false);
    hide IsRun, Run;
    var a, s1 := FillRun(s0, 0, 10, most);
    var b, s2 := FillRun(s1, 1, 10, most);
    var c, s3 := FillRun(s2, 2, 9, most);
    var start := [Begin, Begin, Begin];
    RunThen(INITIAL, start, a, most);
    RunThen(INITIAL, start + a, b, most);
    RunThen(INITIAL, start + a + b, c, most);
    assert Reachable(s3, most);
    assert MayLog(s3, 2, CAPACITY, most);
  }

  /** A higher limit allows every run that a lower one allows. */
  lemma {:induction false} MoreRuns(s: State, steps: seq<Step>, most: nat, more: nat)
    requires IsRun(s, steps, most) && most <= more
    ensures IsRun(s, steps, more) && Run(s, steps, more) == Run(s, steps, most)
    decreases |steps|
  {
    hide Next;
    if steps != [] {
      MoreRuns(Next(s, steps[0]), steps[1..], most, more);
    }
  }

  /** Exactly how many distinct blocks an operation may log: all of its reservation but one. */
  lemma ReservationExact(most: nat)
    ensures (forall s :: Reachable(s, most) ==> !CanPanic(s, most)) <==> most < MAXOPBLOCKS
  {
    if most < MAXOPBLOCKS {
      forall s | Reachable(s, most) ensures !CanPanic(s, most) {
        ReservationSuffices(s, most);
      }
    } else {
      FullReservationPanics();
      var s :| Reachable(s, MAXOPBLOCKS) && CanPanic(s, MAXOPBLOCKS);
      var steps :| IsRun(INITIAL, steps, MAXOPBLOCKS) && Run(INITIAL, steps, MAXOPBLOCKS) == s;
      MoreRuns(INITIAL, steps, MAXOPBLOCKS, most);
      var i, b :| MayLog(s, i, b, MAXOPBLOCKS);
      assert Reachable(s, most) && MayLog(s, i, b, most);
    }
  }

  // ----- the bound on the list is exact -----

  function ThreeTests(n: nat): seq<Step> {
    [Test(0, n), Test(1, n + 1), Test(2, n + 2)]
  }

  /** Three operations pass the test outside the lock, each for a block that no one has logged. */
  lemma PassThree(s: State, most: nat) returns (t: State)
    requires |s.ops| == 3 && !TooBig(s) && forall i :: 0 <= i < 3 ==> s.ops[i].pending.None? && |s.ops[i].logged| < most
    ensures IsRun(s, ThreeTests(|s.block|), most) && Run(s, ThreeTests(|s.block|), most) == t
    ensures t.block == s.block && |t.ops| == 3 && forall i :: 0 <= i < 3 ==> t.ops[i].pending == Some(|s.block| + i)
  {
    var n, steps := |s.block|, ThreeTests(|s.block|);
    var s1 := Next(s, steps[0]);
    var s2 := Next(s1, steps[1]);
    t := Next(s2, steps[2]);
    assert MayLog(s, 0, n, most) && MayLog(s1, 1, n + 1, most) && MayLog(s2, 2, n + 2, most);
    hide Next, MayLog;
    assert IsRun(t, [], most) && Run(t, [], most) == t;
    RunStep(s2, steps[2..], most);
    RunStep(s1, steps[1..], most);
    RunStep(s, steps, most);
  }

  /** Then all three append, without another test. */
  lemma AppendThree(s: State, most: nat)
    requires |s.ops| == 3 && (forall b :: b in s.block ==> b < |s.block|)
    requires forall i :: 0 <= i < 3 ==> s.ops[i].pending == Some(|s.block| + i)
    ensures IsRun(s, [Append(0), Append(1), Append(2)], most)
    ensures |Run(s, [Append(0), Append(1), Append(2)], most).block| == |s.block| + 3
  {
    var steps := [Append(0), Append(1), Append(2)];
    AppendsFresh(s, 0);
    var s1 := Next(s, steps[0]);
    AppendsFresh(s1, 1);
    var s2 := Next(s1, steps[1]);
    AppendsFresh(s2, 2);
    var s3 := Next(s2, steps[2]);
    hide Next;
    assert IsRun(s3, [], most) && Run(s3, [], most) == s3;
    RunStep(s2, steps[2..], most);
    RunStep(s1, steps[1..], most);
    RunStep(s, steps, most);
  }

  lemma AppendsFresh(s: State, i: nat)
    requires i < |s.ops| && s.ops[i].pending.Some? && s.ops[i].pending.value !in s.block
    ensures Ready(s, Append(i)) && Next(s, Append(i)).block == s.block + [s.ops[i].pending.value]
    ensures |Next(s, Append(i)).ops| == |s.ops|
    ensures forall j :: 0 <= j < |s.ops| && j != i ==> Next(s, Append(i)).ops[j] == s.ops[j]
  {
  }

  lemma RunStep(s: State, steps: seq<Step>, most: nat)
    requires steps != [] && Enabled(s, steps[0], most) && IsRun(Next(s, steps[0]), steps[1..], most)
    ensures IsRun(s, steps, most) && Run(s, steps, most) == Run(Next(s, steps[0]), steps[1..], most)
  {
    hide Next;
  }

  /** With one block more for each operation than the reservation, block[LOGSIZE] is overrun. */
  lemma OneMoreOverruns()
    ensures exists s :: Reachable(s, MAXOPBLOCKS + 1) && |s.block| > LOGSIZE
  {
    hide IsRun, Run, Reachable;
    var most := MAXOPBLOCKS + 1;
    var s3 := OneEntryLeft();
    var s4 := PassThree(s3, most);
    ReachThen(s3, ThreeTests(|s3.block|), most);
    AppendThree(s4, most);
    ReachThen(s4, [Append(0), Append(1), Append(2)], most);
  }

  /** Three operations that may log eleven blocks each have logged 9, 9 and 10. */
  lemma OneEntryLeft() returns (s: State)
    ensures Reachable(s, MAXOPBLOCKS + 1) && Numbered(s) && |s.ops| == 3 && |s.block| == CAPACITY - 1
    ensures forall i :: 0 <= i < 3 ==> |s.ops[i].logged| <= MAXOPBLOCKS
  {
    hide IsRun, Run, Numbered, Reachable;
    var most, start := MAXOPBLOCKS + 1, [Begin, Begin, Begin];
    ThreeBegin();
    MoreRuns(INITIAL, start, MAXOPBLOCKS, most);
    var s0 := State([], [Op({}, None), Op({}, None), Op({}, None)], false);
    StartNumbered(s0, start, most);
    var a, s1 := FillRun(s0, 0, 9, most);
    ReachThen(s0, a, most);
    var b, s2 := FillRun(s1, 1, 9, most);
    ReachThen(s1, b, most);
    var c, s3 := FillRun(s2, 2, 10, most);
    ReachThen(s2, c, most);
    s := s3;
  }

  lemma StartNumbered(s: State, steps: seq<Step>, most: nat)
    requires s == State([], [Op({}, None), Op({}, None), Op({}, None)], false)
    requires IsRun(INITIAL, steps, most) && Run(INITIAL, steps, most) == s
    ensures Numbered(s) && Reachable(s, most)
  {
  }

  lemma ReachThen(s: State, steps: seq<Step>, most: nat)
    requires Reachable(s, most) && IsRun(s, steps, most)
    ensures Reachable(Run(s, steps, most), most)
  {
    hide Next;
    var before :| IsRun(INITIAL, before, most) && Run(INITIAL, before, most) == s;
    RunThen(INITIAL, before, steps, most);
  }

  /** Exactly when no run writes past the end of block[LOGSIZE]: when operations keep to their reservation. */
  lemma BoundsExact(most: nat)
    ensures (forall s :: Reachable(s, most) ==> |s.block| <= LOGSIZE) <==> most <= MAXOPBLOCKS
  {
    if most <= MAXOPBLOCKS {
      forall s | Reachable(s, most) ensures |s.block| <= LOGSIZE {
        GroupInBounds(s, most);
      }
    } else {
      OneMoreOverruns();
      var s :| Reachable(s, MAXOPBLOCKS + 1) && |s.block| > LOGSIZE;
      var steps :| IsRun(INITIAL, steps, MAXOPBLOCKS + 1) && Run(INITIAL, steps, MAXOPBLOCKS + 1) == s;
      MoreRuns(INITIAL, steps, MAXOPBLOCKS + 1, most);
      assert Reachable(s, most);
    }
  }

  // ----- operations whose blocks are known -----

  /**
   A run in which the operations log only blocks of their footprints: the kth operation to begin those of
   plans[k]. `feet` are the footprints of the outstanding operations.
   */
  ghost predicate Planned(s: State, feet: seq<set<nat>>, plans: seq<set<nat>>, steps: seq<Step>)
    requires |feet| == |s.ops|
    decreases |steps|
  {
    steps == [] ||
    (Ready(s, steps[0]) &&
     match steps[0]
     case Begin => plans != [] && Planned(Next(s, Begin), feet + [plans[0]], plans[1..], steps[1..])
     case Test(i, b) => b in feet[i] && Planned(Next(s, Test(i, b)), feet, plans, steps[1..])
     case End(i) => Planned(Next(s, End(i)), Remove(feet, i), plans, steps[1..])
     case _ => Planned(Next(s, steps[0]), feet, plans, steps[1..]))
  }

  /** The outstanding operations have logged nothing outside their footprints. */
  ghost predicate Within(s: State, feet: seq<set<nat>>) {
    && |feet| == |s.ops|
    && forall i :: 0 <= i < |feet| ==>
      s.ops[i].logged <= feet[i] && (s.ops[i].pending.Some? ==> s.ops[i].pending.value in feet[i])
  }

  /** If no footprint has more than `most` blocks, the run keeps the limit. */
  lemma {:induction false} PlannedIsRun(s: State, feet: seq<set<nat>>, plans: seq<set<nat>>, steps: seq<Step>,
                                        most: nat)
    requires Within(s, feet) && Planned(s, feet, plans, steps)
    requires (forall i :: 0 <= i < |feet| ==> |feet[i]| <= most)
    requires (forall k :: 0 <= k < |plans| ==> |plans[k]| <= most)
    ensures IsRun(s, steps, most)
    decreases |steps|
  {
    if steps != [] {
      var step := steps[0];
      var t := Next(s, step);
      match step
      case Begin => PlannedIsRun(t, feet + [plans[0]], plans[1..], steps[1..], most);
      case Test(i, b) =>
        Sets.SubsetSize(s.ops[i].logged + {b}, feet[i]);
        PlannedIsRun(t, feet, plans, steps[1..], most);
      case End(i) => PlannedIsRun(t, Remove(feet, i), plans, steps[1..], most);
      case _ => PlannedIsRun(t, feet, plans, steps[1..], most);
    }
  }

  /** Operations with footprints below the reservation never reach the panic, in any interleaving. */
  lemma FootprintsSuffice(plans: seq<set<nat>>, steps: seq<Step>, most: nat)
    requires Planned(INITIAL, [], plans, steps) && most < MAXOPBLOCKS
    requires forall k :: 0 <= k < |plans| ==> |plans[k]| <= most
    ensures IsRun(INITIAL, steps, most) && !TooBig(Run(INITIAL, steps, most))
  {
    PlannedIsRun(INITIAL, [], plans, steps, most);
    assert Reachable(Run(INITIAL, steps, most), most);
    ReservationSuffices(Run(INITIAL, steps, most), most);
  }
}
