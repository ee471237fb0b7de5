/**
  The log as a protocol: file-system operations begin, log block updates and end in any
  interleaving; the last one out commits the group; the machine may crash between any two block
  writes, of a commit or of a recovery, any number of times.

  History variables record every logged update with the operation that issued it, and how long a
  prefix of that history is durable.
*/
module GroupCommit {
  import opened RedoLog

  /** One logged update: operation `op` put `data` in block `at`. */
  datatype Entry = Entry(op: nat, at: nat, data: Block)

  /** An outstanding operation, the different blocks it has logged so far, and how often it has logged. */
  datatype Op = Op(id: nat, own: set<nat>, calls: nat)

  datatype Phase =
    | Running
    | Committing(from: Disk, shown: Disk, done: nat)
    | Down
    | Recovering(from: Disk, done: nat)

  datatype State = State(
    start: nat,
    size: nat,
    disk: Disk,
    view: Disk,           // what the buffer cache returns for each block
    hdr: seq<nat>,        // in-memory header: blocks[..n]
    ops: seq<Op>,         // outstanding operations
    phase: Phase,
    base: Disk,           // history: the disk at the start of the run
    history: seq<Entry>,  // history: updates logged, minus those a crash lost
    durable: nat,         // history: length of the durable prefix
    nextId: nat,
    epoch: nat            // history: operations below it have committed or are lost
  )

  datatype Step =
    | Begin
    | Log(i: nat, at: nat, data: Block)
    | End(i: nat)
    | Advance
    | Crash
    | Boot

  /** The blocks after replaying a history of updates, oldest first. */
  function Replay(base: Disk, history: seq<Entry>): (r: Disk)
    ensures |r| == |base|
  {
    if history == [] then base else
      var last := history[|history| - 1];
      Store(Replay(base, history[..|history| - 1]), Put(last.at, last.data))
  }

  /** The header after logging a block, with absorption of a block that is already listed. */
  function Absorb(hdr: seq<nat>, b: nat): (r: seq<nat>)
    ensures b in r && |r| <= |hdr| + 1
  {
    if b in hdr then hdr else hdr + [b]
  }

  /** Guard of the "transaction too big" panic; it does not look at the block number. */
  predicate TooBig(s: State) {
    |s.hdr| >= LOGBLOCKS || |s.hdr| >= s.size - 1
  }

  /** Reserved but unused log blocks of the outstanding operations. */
  function Unspent(ops: seq<Op>): (u: int) {
    if ops == [] then 0 else Unspent(ops[..|ops| - 1]) + MAXOPBLOCKS - |ops[|ops| - 1].own|
  }

  function Without(ops: seq<Op>, i: nat): (r: seq<Op>)
    requires i < |ops|
    ensures |r| == |ops| - 1
  {
    ops[..i] + ops[i + 1..]
  }

  // ---------------------------------------------------------------- steps

  predicate Enabled(s: State, step: Step) {
    match step
    case Begin => s.phase.Running? && |s.hdr| + (|s.ops| + 1) * MAXOPBLOCKS <= LOGBLOCKS
    case Log(i, at, data) =>
      && i < |s.ops| && at < |s.disk| && Home(s.start, at)
      && !TooBig(s)
    case End(i) => i < |s.ops|
    case Advance => CanCommit(s) || CanRecover(s)
    case Crash => true
    case Boot => s.phase.Down?
  }

  predicate CanCommit(s: State) {
    && s.phase.Committing?
    && Fits(s.start, s.phase.shown) && GoodList(s.start, |s.phase.shown|, s.hdr)
    && s.phase.done <= |CommitWrites(s.start, s.phase.shown, s.hdr)|
  }

  predicate CanRecover(s: State) {
    && s.phase.Recovering? && Recoverable(s.start, s.phase.from)
    && s.phase.done <= |RecoverWrites(s.start, s.phase.from)|
  }

  function DoLog(s: State, i: nat, at: nat, data: Block): State
    requires i < |s.ops|
  {
    s.(view := Store(s.view, Put(at, data)),
       hdr := Absorb(s.hdr, at),
       ops := s.ops[i := Op(s.ops[i].id, s.ops[i].own + {at}, s.ops[i].calls + 1)],
       history := s.history + [Entry(s.ops[i].id, at, data)])
  }

  function DoEnd(s: State, i: nat): State
    requires i < |s.ops|
  {
    var rest := Without(s.ops, i);
    if rest == [] then s.(ops := rest, phase := Committing(s.disk, s.view, 0)) else s.(ops := rest)
  }

  /** The next block write of a commit; the header write makes the whole history durable. */
  function DoCommitWrite(s: State): State
    requires CanCommit(s)
  {
    var ws := CommitWrites(s.start, s.phase.shown, s.hdr);
    var done := s.phase.done;
    if done == |ws| then
      s.(phase := Running, hdr := [])
    else
      var t := s.(disk := Store(s.disk, ws[done]), view := Store(s.view, ws[done]),
                  phase := Committing(s.phase.from, s.phase.shown, done + 1));
      if done == |s.hdr| then t.(durable := |s.history|, epoch := s.nextId) else t
  }

  function DoRecoverWrite(s: State): State
    requires CanRecover(s)
  {
    var ws := RecoverWrites(s.start, s.phase.from);
    var done := s.phase.done;
    if done == |ws| then
      s.(phase := Running)
    else
      s.(disk := Store(s.disk, ws[done]), view := Store(s.view, ws[done]),
         phase := Recovering(s.phase.from, done + 1))
  }

  /** Only the disk survives a crash; updates that are not durable are lost. */
  function DoCrash(s: State): State {
    s.(phase := Down, ops := [], hdr := [], view := s.disk,
       history := if s.durable <= |s.history| then s.history[..s.durable] else s.history,
       epoch := s.nextId)
  }

  function Do(s: State, step: Step): State
    requires Enabled(s, step)
  {
    match step
    case Begin => s.(ops := s.ops + [Op(s.nextId, {}, 0)], nextId := s.nextId + 1)
    case Log(i, at, data) => DoLog(s, i, at, data)
    case End(i) => DoEnd(s, i)
    case Advance => if CanCommit(s) then DoCommitWrite(s) else DoRecoverWrite(s)
    case Crash => DoCrash(s)
    case Boot => s.(phase := Recovering(s.disk, 0), view := s.disk)
  }

  // ---------------------------------------------------------------- invariant

  predicate Shape(s: State) {
    && Fits(s.start, s.disk)
    && |s.view| == |s.disk| == |s.base|
    && LOGBLOCKS < s.size
    && GoodList(s.start, |s.disk|, s.hdr)
  }

  /** No operation is on both sides of the durable boundary. */
  predicate Ids(s: State) {
    && s.durable <= |s.history| && s.epoch <= s.nextId
    && (forall i :: 0 <= i < s.durable ==> s.history[i].op < s.epoch)
    && (forall i :: s.durable <= i < |s.history| ==> s.epoch <= s.history[i].op < s.nextId)
    && (forall i :: 0 <= i < |s.ops| ==> s.epoch <= s.ops[i].id < s.nextId)
  }

  /** What an operation has logged is listed, and it has logged at least as often. */
  predicate Listed(s: State) {
    && (forall i :: 0 <= i < |s.ops| ==> |s.ops[i].own| <= s.ops[i].calls)
    && (forall i, b :: 0 <= i < |s.ops| && b in s.ops[i].own ==> b in s.hdr)
  }

  predicate Pending(s: State) {
    forall i :: s.durable <= i < |s.history| ==> s.history[i].at in s.hdr
  }

  predicate RunningInv(s: State)
    requires Ids(s)
  {
    && EmptyLog(s.start, s.disk)
    && SameHome(s.start, s.disk, Replay(s.base, s.history[..s.durable]))
    && SameHome(s.start, s.view, Replay(s.base, s.history))
    && AgreeOutside(s.disk, s.view, s.hdr)
    && Pending(s)
  }

  predicate CommittingInv(s: State)
    requires s.phase.Committing? && Shape(s) && Ids(s)
  {
    var from, shown, done := s.phase.from, s.phase.shown, s.phase.done;
    && s.ops == []
    && |from| == |shown| == |s.disk|
    && EmptyLog(s.start, from) && AgreeOutside(from, shown, s.hdr)
    && done <= |CommitWrites(s.start, shown, s.hdr)|
    && s.disk == Apply(from, CommitWrites(s.start, shown, s.hdr)[..done])
    && SameHome(s.start, s.view, shown) && AgreeOutside(s.disk, s.view, s.hdr)
    && SameHome(s.start, shown, Replay(s.base, s.history))
    && (if done <= |s.hdr|
        then Pending(s) && SameHome(s.start, from, Replay(s.base, s.history[..s.durable]))
        else s.durable == |s.history|)
  }

  predicate RecoveringInv(s: State)
    requires s.phase.Recovering? && Shape(s)
  {
    var from, done := s.phase.from, s.phase.done;
    && s.ops == [] && s.hdr == [] && s.durable == |s.history|
    && |from| == |s.disk| && Recoverable(s.start, from)
    && done <= |RecoverWrites(s.start, from)|
    && s.disk == Apply(from, RecoverWrites(s.start, from)[..done])
    && s.view == s.disk
    && SameHome(s.start, Recovered(s.start, from), Replay(s.base, s.history))
  }

  predicate DownInv(s: State)
    requires Shape(s)
  {
    && s.ops == [] && s.hdr == [] && s.durable == |s.history|
    && Recoverable(s.start, s.disk)
    && SameHome(s.start, Recovered(s.start, s.disk), Replay(s.base, s.history))
  }

  predicate Inv(s: State) {
    && Shape(s) && Ids(s) && Listed(s)
    && match s.phase
       case Running => RunningInv(s)
       case Committing(_, _, _) => CommittingInv(s)
       case Recovering(_, _) => RecoveringInv(s)
       case Down => DownInv(s)
  }

  predicate Init(s: State) {
    && Fits(s.start, s.disk) && EmptyLog(s.start, s.disk)
    && s.view == s.base == s.disk && LOGBLOCKS < s.size
    && s.hdr == [] && s.ops == [] && s.history == [] && s.phase == Running
    && s.durable == 0 && s.epoch <= s.nextId
  }

  lemma InitInv(s: State)
    requires Init(s)
    ensures Inv(s)
  {
  }

  // ---------------------------------------------------------------- reservation

  lemma {:induction false} UnspentUpdate(ops: seq<Op>, i: nat, op: Op)
    requires i < |ops|
    ensures Unspent(ops[i := op]) == Unspent(ops) + |ops[i].own| - |op.own|
  {
    var n := |ops| - 1;
    if i < n {
      UnspentUpdate(ops[..n], i, op);
      assert ops[i := op][..n] == ops[..n][i := op];
    } else {
      assert ops[i := op][..n] == ops[..n];
    }
  }

  lemma {:induction false} UnspentWithout(ops: seq<Op>, i: nat)
    requires i < |ops|
    ensures Unspent(Without(ops, i)) == Unspent(ops) - MAXOPBLOCKS + |ops[i].own|
  {
    var n := |ops| - 1;
    if i < n {
      UnspentWithout(ops[..n], i);
      assert Without(ops, i)[..n - 1] == Without(ops[..n], i);
    } else {
      assert Without(ops, i) == ops[..n];
    }
  }

  lemma {:induction false} UnspentBounds(ops: seq<Op>)
    requires forall i :: 0 <= i < |ops| ==> |ops[i].own| <= MAXOPBLOCKS
    ensures 0 <= Unspent(ops) <= |ops| * MAXOPBLOCKS
    ensures forall i :: 0 <= i < |ops| ==> MAXOPBLOCKS - |ops[i].own| <= Unspent(ops)
  {
    if ops != [] {
      var n := |ops| - 1;
      UnspentBounds(ops[..n]);
      forall i | 0 <= i < |ops| ensures MAXOPBLOCKS - |ops[i].own| <= Unspent(ops) {
        assert i < n ==> ops[..n][i] == ops[i];
      }
    }
  }

  // ---------------------------------------------------------------- every step keeps the invariant

  lemma BeginInv(s: State)
    requires Inv(s) && Enabled(s, Begin)
    ensures Inv(Do(s, Begin))
  {
    hide Replay, Apply, EmptyLog, SameHome, AgreeOutside;
    var t := Do(s, Begin);
  }

  lemma Grows(a: set<nat>, x: nat)
    ensures |a| <= |a + {x}| <= |a| + 1
    ensures x !in a ==> |a + {x}| == |a| + 1
  {
    if x in a { assert a + {x} == a; }
  }

  lemma LogListed(s: State, i: nat, at: nat, data: Block)
    requires Inv(s) && Enabled(s, Log(i, at, data))
    ensures Listed(DoLog(s, i, at, data))
  {
    hide Shape, Ids, RunningInv, CommittingInv, RecoveringInv, DownInv;
    Grows(s.ops[i].own, at);
  }

  lemma LogShape(s: State, i: nat, at: nat, data: Block)
    requires Inv(s) && Enabled(s, Log(i, at, data))
    ensures Shape(DoLog(s, i, at, data)) && Ids(DoLog(s, i, at, data))
  {
    hide Listed, RunningInv, CommittingInv, RecoveringInv, DownInv;
  }

  /** Logging an update keeps the view equal to the replayed history. */
  lemma LogRunning(s: State, i: nat, at: nat, data: Block)
    requires Inv(s) && Enabled(s, Log(i, at, data)) && s.phase.Running? && Ids(DoLog(s, i, at, data))
    ensures RunningInv(DoLog(s, i, at, data))
  {
    hide Shape, Listed, GoodList, EncodeHead, Recovered, CommitWrites;
    var t := DoLog(s, i, at, data);
    assert t.history[..|t.history| - 1] == s.history;
    assert t.history[..t.durable] == s.history[..s.durable];
  }

  lemma LogInv(s: State, i: nat, at: nat, data: Block)
    requires Inv(s) && Enabled(s, Log(i, at, data))
    ensures Inv(DoLog(s, i, at, data))
  {
    assert s.phase.Running?;
    hide Shape, Listed, RunningInv, Ids;
    LogListed(s, i, at, data);
    LogShape(s, i, at, data);
    LogRunning(s, i, at, data);
  }

  lemma EndShape(s: State, i: nat)
    requires Inv(s) && Enabled(s, End(i))
    ensures Shape(DoEnd(s, i)) && Ids(DoEnd(s, i)) && Listed(DoEnd(s, i))
  {
    hide RunningInv, CommittingInv, RecoveringInv, DownInv, GoodList, Fits;
  }

  lemma EndInv(s: State, i: nat)
    requires Inv(s) && Enabled(s, End(i))
    ensures Inv(DoEnd(s, i))
  {
    assert s.phase.Running?;
    hide Shape, Listed, Ids, Replay, EmptyLog, SameHome, AgreeOutside;
    var t := DoEnd(s, i);
    EndShape(s, i);
    if t.phase.Committing? {
      CommitStarts(s);
    }
  }

  lemma CommitStarts(s: State)
    requires Shape(s) && Ids(s) && RunningInv(s)
    ensures CommittingInv(s.(ops := [], phase := Committing(s.disk, s.view, 0)))
  {
    hide Replay, EmptyLog, EncodeHead;
    assert CommitWrites(s.start, s.view, s.hdr)[..0] == [];
  }

  /** Applying one more write to a prefix of a write list gives the next prefix. */
  lemma ApplyNext(d: Disk, ws: seq<Put>, k: nat)
    requires k < |ws|
    ensures Store(Apply(d, ws[..k]), ws[k]) == Apply(d, ws[..k + 1])
  {
    assert ws[..k + 1][..k] == ws[..k];
  }

  /** A commit write puts in each home block what the cache already shows for it. */
  lemma CommitWriteShown(s: State)
    requires Inv(s) && s.phase.Committing?
    requires s.phase.done < |CommitWrites(s.start, s.phase.shown, s.hdr)|
    ensures var w := CommitWrites(s.start, s.phase.shown, s.hdr)[s.phase.done];
            && (Home(s.start, w.at) && w.at < |s.view| ==> w.data == s.view[w.at])
            && SameHome(s.start, Store(s.view, w), s.phase.shown)
            && AgreeOutside(Store(s.disk, w), Store(s.view, w), s.hdr)
  {
    hide Apply, Replay, EncodeHead;
    CommitWritesAt(s.start, s.phase.shown, s.hdr, s.phase.done);
    hide CommitWrites;
  }

  lemma CommitWriteInv(s: State)
    requires Inv(s) && s.phase.Committing?
    requires s.phase.done < |CommitWrites(s.start, s.phase.shown, s.hdr)|
    ensures Inv(DoCommitWrite(s))
  {
    hide CommitWrites, Apply, Replay, SameHome, AgreeOutside, EmptyLog;
    CommitWriteShown(s);
    ApplyNext(s.phase.from, CommitWrites(s.start, s.phase.shown, s.hdr), s.phase.done);
    assert s.phase.done == |s.hdr| ==> s.hdr != [];
  }

  lemma CommitEndInv(s: State)
    requires Inv(s) && s.phase.Committing?
    requires s.phase.done == |CommitWrites(s.start, s.phase.shown, s.hdr)|
    ensures Inv(DoCommitWrite(s))
    ensures DoCommitWrite(s).durable == |s.history|
  {
    var ws := CommitWrites(s.start, s.phase.shown, s.hdr);
    assert ws[..|ws|] == ws;
    if s.hdr != [] {
      CommitAfter(s.start, s.phase.from, s.phase.shown, s.hdr);
    }
    assert s.durable == |s.history|;
    assert s.history[..s.durable] == s.history;
  }

  lemma RecoverWriteInv(s: State)
    requires Inv(s) && s.phase.Recovering?
    ensures Inv(DoRecoverWrite(s))
  {
    var ws := RecoverWrites(s.start, s.phase.from);
    var done := s.phase.done;
    if done < |ws| {
      ApplyNext(s.phase.from, ws, done);
    } else {
      assert ws[..done] == ws;
      assert s.disk == Recovered(s.start, s.phase.from);
      RecoveredAt(s.start, s.phase.from, s.start);
      HeadRoundTrip(s.phase.from[s.start], []);
      assert s.history[..s.durable] == s.history;
    }
  }

  // ---------------------------------------------------------------- the theorem

  /** Recovering the disk now yields exactly the durable prefix of the history. */
  predicate DurableIs(s: State) {
    && Fits(s.start, s.disk) && Recoverable(s.start, s.disk) && s.durable <= |s.history|
    && SameHome(s.start, Recovered(s.start, s.disk), Replay(s.base, s.history[..s.durable]))
  }

  /** Every operation is entirely durable or entirely not. */
  predicate AllOrNothing(s: State) {
    && s.durable <= |s.history|
    && forall i, j :: 0 <= i < s.durable <= j < |s.history| ==> s.history[i].op != s.history[j].op
  }

  lemma InvDurable(s: State)
    requires Inv(s)
    ensures DurableIs(s)
  {
    match s.phase
    case Running => RecoverEmpty(s.start, s.disk);
    case Down => assert s.history[..s.durable] == s.history;
    case Recovering(from, done) =>
      RecoveryRestarts(s.start, from, done);
      assert s.history[..s.durable] == s.history;
    case Committing(from, shown, done) =>
      CommitAtomic(s.start, from, shown, s.hdr, done);
      if done > |s.hdr| { assert s.history[..s.durable] == s.history; }
  }

  lemma CrashInv(s: State)
    requires Inv(s)
    ensures Inv(DoCrash(s))
  {
    InvDurable(s);
    var t := DoCrash(s);
    assert t.history[..t.durable] == t.history;
  }

  lemma StepInv(s: State, step: Step)
    requires Inv(s) && Enabled(s, step)
    ensures Inv(Do(s, step))
  {
    match step
    case Begin => BeginInv(s);
    case Log(i, at, data) => LogInv(s, i, at, data);
    case End(i) => EndInv(s, i);
    case Advance =>
      if s.phase.Recovering? {
        RecoverWriteInv(s);
      } else if s.phase.done < |CommitWrites(s.start, s.phase.shown, s.hdr)| {
        CommitWriteInv(s);
      } else {
        CommitEndInv(s);
      }
    case Crash => CrashInv(s);
    case Boot => assert RecoverWrites(s.start, s.disk)[..0] == [];
  }

  /** A run: any interleaving of steps from an initial state. */
  predicate IsRun(run: seq<State>, steps: seq<Step>) {
    && |run| == |steps| + 1 && Init(run[0])
    && forall i :: 0 <= i < |steps| ==> Enabled(run[i], steps[i]) && run[i + 1] == Do(run[i], steps[i])
  }

  lemma {:induction false} RunInv(run: seq<State>, steps: seq<Step>, i: nat)
    requires IsRun(run, steps) && i < |run|
    ensures Inv(run[i])
  {
    if i == 0 {
      InitInv(run[0]);
    } else {
      RunInv(run, steps, i - 1);
      StepInv(run[i - 1], steps[i - 1]);
    }
  }

  /** What is durable is never lost, by a crash or by anything else. */
  lemma StepKeepsDurable(s: State, step: Step)
    requires Inv(s) && Enabled(s, step)
    ensures var t := Do(s, step);
            t.durable <= |t.history| && s.history[..s.durable] <= t.history[..t.durable]
  {
    hide Shape, Listed, RunningInv, CommittingInv, RecoveringInv, DownInv, CanCommit, CanRecover, CommitWrites, RecoverWrites;
  }

  lemma {:induction false} RunKeepsDurable(run: seq<State>, steps: seq<Step>, i: nat, j: nat)
    requires IsRun(run, steps) && i <= j < |run|
    ensures run[i].durable <= |run[i].history| && run[j].durable <= |run[j].history|
    ensures run[i].history[..run[i].durable] <= run[j].history[..run[j].durable]
  {
    hide Do, Enabled, Shape, Listed, RunningInv, CommittingInv, RecoveringInv, DownInv;
    RunInv(run, steps, j);
    if i < j {
      RunKeepsDurable(run, steps, i, j - 1);
      RunInv(run, steps, j - 1);
      StepKeepsDurable(run[j - 1], steps[j - 1]);
    }
  }

  /**
    Crash safety of group commit, over every run and every crash point. In every reachable state,
    recovering the disk yields the replay of the durable updates, and each operation's updates
    are all durable or all not. While a commit is in progress no operation is outstanding, so none
    can begin, log or end; the block writes of commit and recovery are never stuck.
   */
  lemma CrashSafety(run: seq<State>, steps: seq<Step>, i: nat)
    requires IsRun(run, steps) && i < |run|
    ensures DurableIs(run[i]) && AllOrNothing(run[i])
    ensures run[i].phase.Committing? ==> run[i].ops == [] && CanCommit(run[i]) && !Enabled(run[i], Begin)
    ensures run[i].phase.Recovering? ==> CanRecover(run[i])
    ensures !run[i].phase.Running? ==> run[i].ops == []
    ensures Distinct(run[i].hdr) && |run[i].hdr| <= LOGBLOCKS
  {
    RunInv(run, steps, i);
    InvDurable(run[i]);
  }

  // ---------------------------------------------------------------- reservation

  /** Every outstanding operation has kept to the number of different blocks it may log. */
  predicate Frugal(s: State) {
    forall i :: 0 <= i < |s.ops| ==> |s.ops[i].own| <= MAXOPBLOCKS
  }

  predicate Reserved(s: State) {
    |s.hdr| + Unspent(s.ops) <= LOGBLOCKS
  }

  /** Reservations survive every step, whatever the operations do to each other. */
  lemma StepReserved(s: State, step: Step)
    requires Inv(s) && Enabled(s, step) && Frugal(s) && Reserved(s)
    ensures Reserved(Do(s, step))
  {
    hide RunningInv, CommittingInv, RecoveringInv, DownInv, Ids;
    UnspentBounds(s.ops);
    match step
    case Begin => assert (s.ops + [Op(s.nextId, {}, 0)])[..|s.ops|] == s.ops;
    case Log(i, at, data) =>
      Grows(s.ops[i].own, at);
      UnspentUpdate(s.ops, i, Op(s.ops[i].id, s.ops[i].own + {at}, s.ops[i].calls + 1));
    case End(i) => UnspentWithout(s.ops, i);
    case Advance => CommittersAlone(s);
    case Crash =>
    case Boot =>
  }

  /** Nothing is outstanding while a commit or a recovery writes. */
  lemma CommittersAlone(s: State)
    requires Inv(s) && (CanCommit(s) || CanRecover(s))
    ensures s.ops == []
  {
  }

  lemma {:induction false} RunReserved(run: seq<State>, steps: seq<Step>, i: nat)
    requires IsRun(run, steps) && i < |run|
    requires forall k :: 0 <= k < i ==> Frugal(run[k])
    ensures Reserved(run[i])
  {
    hide Do, Enabled, Inv, Frugal;
    if i > 0 {
      RunReserved(run, steps, i - 1);
      RunInv(run, steps, i - 1);
      assert Enabled(run[i - 1], steps[i - 1]) && run[i - 1 + 1] == Do(run[i - 1], steps[i - 1]);
      StepReserved(run[i - 1], steps[i - 1]);
    }
  }

  /**
    The reservation made by begin_op, in every run whose operations keep to MAXOPBLOCKS different
    blocks: header and unspent reservations fit in the log, the "too big" panic is met exactly on a
    full header, and then every outstanding operation has spent its reservation.
   */
  lemma ReservationHolds(run: seq<State>, steps: seq<Step>, i: nat)
    requires IsRun(run, steps) && i < |run|
    requires forall k :: 0 <= k <= i ==> Frugal(run[k])
    ensures |run[i].hdr| + Unspent(run[i].ops) <= LOGBLOCKS
    ensures TooBig(run[i]) <==> |run[i].hdr| == LOGBLOCKS
    ensures TooBig(run[i]) ==> forall j :: 0 <= j < |run[i].ops| ==> |run[i].ops[j].own| == MAXOPBLOCKS
  {
    RunReserved(run, steps, i);
    RunInv(run, steps, i);
    hide IsRun, RunningInv, CommittingInv, RecoveringInv, DownInv;
    assert Frugal(run[i]);
    UnspentBounds(run[i].ops);
  }

  predicate FewCalls(s: State) {
    forall j :: 0 <= j < |s.ops| ==> s.ops[j].calls <= MAXOPBLOCKS
  }

  /** Every operation has logged fewer different blocks than it reserved. */
  predicate Sparing(s: State) {
    forall j :: 0 <= j < |s.ops| ==> |s.ops[j].own| < MAXOPBLOCKS
  }

  /**
    Keeping below the reservation is enough too: in a run whose operations log fewer than MAXOPBLOCKS
    different blocks each, however often, none of them meets the "too big" panic.
   */
  lemma SparingNeverPanics(run: seq<State>, steps: seq<Step>, i: nat)
    requires IsRun(run, steps) && i < |run|
    requires forall k :: 0 <= k <= i ==> Sparing(run[k])
    ensures run[i].ops != [] ==> !TooBig(run[i])
  {
    hide IsRun, TooBig;
    forall k | 0 <= k <= i ensures Frugal(run[k]) {
      assert Sparing(run[k]);
    }
    ReservationHolds(run, steps, i);
    if run[i].ops != [] {
      assert |run[i].ops[0].own| < MAXOPBLOCKS;
    }
  }

  /**
    Counting calls is enough: if no operation calls log::write more than MAXOPBLOCKS times, none of
    these calls meets the "too big" panic.
   */
  lemma CallsNeverPanic(run: seq<State>, steps: seq<Step>, i: nat, j: nat)
    requires IsRun(run, steps) && i < |run| && j < |run[i].ops|
    requires forall k :: 0 <= k <= i ==> FewCalls(run[k])
    requires run[i].ops[j].calls < MAXOPBLOCKS
    ensures !TooBig(run[i])
  {
    forall k | 0 <= k <= i ensures Frugal(run[k]) {
      RunInv(run, steps, k);
      assert FewCalls(run[k]);
    }
    RunInv(run, steps, i);
    ReservationHolds(run, steps, i);
  }

  // ---------------------------------------------------------------- the guard counts calls

  /** The header after logging the j blocks that follow the log area. */
  function Consecutive(first: nat, j: nat): (r: seq<nat>) {
    seq(j, i => first + i)
  }

  lemma Extend(run: seq<State>, steps: seq<Step>, step: Step)
    requires IsRun(run, steps) && Enabled(run[|run| - 1], step)
    ensures IsRun(run + [Do(run[|run| - 1], step)], steps + [step])
  {
    hide Do, Enabled, Init;
    var run', steps' := run + [Do(run[|run| - 1], step)], steps + [step];
    forall i | 0 <= i < |steps'| ensures Enabled(run'[i], steps'[i]) && run'[i + 1] == Do(run'[i], steps'[i]) {
      if i < |steps| {
        assert run'[i] == run[i] && run'[i + 1] == run[i + 1] && steps'[i] == steps[i];
      }
    }
  }

  /** Three operations, each logging ten blocks of its own, fill the log. */
  lemma {:induction false} Fill(s0: State, data: Block, j: nat) returns (run: seq<State>, steps: seq<Step>)
    requires Init(s0) && s0.start + 2 * LOGBLOCKS < |s0.disk| && j <= LOGBLOCKS
    ensures IsRun(run, steps)
    ensures var s := run[|run| - 1];
            && s.start == s0.start && |s.disk| == |s0.disk| && LOGBLOCKS < s.size && |s.ops| == 3
            && s.hdr == Consecutive(s0.start + LOGBLOCKS + 1, j)
            && (forall k :: 0 <= k < 3 ==>
                  s.ops[k].calls == |s.ops[k].own| && |s.ops[k].own| == if j <= 10 * k then 0 else if j <= 10 * k + 10 then j - 10 * k else 10)
            && (forall k, b :: 0 <= k < 3 && b in s.ops[k].own ==> b in s.hdr)
  {
    if j == 0 {
      run, steps := [s0], [];
      for k := 0 to 3
        invariant IsRun(run, steps)
        invariant var s := run[|run| - 1];
                  && s == s0.(ops := s.ops, nextId := s.nextId) && |s.ops| == k
                  && forall i :: 0 <= i < k ==> s.ops[i].own == {} && s.ops[i].calls == 0
      {
        Extend(run, steps, Begin);
        run, steps := run + [Do(run[|run| - 1], Begin)], steps + [Begin];
      }
    } else {
      run, steps := Fill(s0, data, j - 1);
      var s := run[|run| - 1];
      var at := s0.start + LOGBLOCKS + j;
      var step := Log((j - 1) / 10, at, data);
      assert at !in s.hdr;
      Grows(s.ops[step.i].own, at);
      Extend(run, steps, step);
      run, steps := run + [Do(s, step)], steps + [step];
    }
  }

  /**
    Counting blocks instead of calls is not enough: there is a run in which every operation has
    logged no more than MAXOPBLOCKS different blocks, and yet logging one of them again, which
    would only be absorbed, is refused as too big.
   */
  lemma AbsorbedWriteCanPanic(s0: State, data: Block) returns (run: seq<State>, steps: seq<Step>)
    requires Init(s0) && s0.start + 2 * LOGBLOCKS < |s0.disk|
    ensures IsRun(run, steps)
    ensures var s := run[|run| - 1];
            && TooBig(s) && |s.ops| == 3 && Frugal(s) && FewCalls(s)
            && exists b :: b in s.ops[0].own && Absorb(s.hdr, b) == s.hdr && |s.ops[0].own + {b}| <= MAXOPBLOCKS
  {
    run, steps := Fill(s0, data, LOGBLOCKS);
    var s := run[|run| - 1];
    assert s.ops[0].own != {};
    var b :| b in s.ops[0].own;
    assert s.ops[0].own + {b} == s.ops[0].own;
  }
}
