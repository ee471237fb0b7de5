/**
  Stride scheduling on one hart: processes carry a pass, the Runnable process with the least pass
  runs next, and its pass grows by its stride. Passes are 64-bit; when the next addition would
  overflow, the least pass is subtracted from all of them.

  The bounded scheduler is proved to make the same decisions as one with unbounded passes, and the
  unbounded one to keep all active processes within one maximal stride of each other.
*/
module StrideScheduler {

  const LARGE_NUMBER: nat := 3_603_600
  const MAX_PASS: nat := 0xFFFF_FFFF_FFFF_FFFF
  /** The stride of a process with the fewest tickets: LARGE_NUMBER / 10. */
  const SPREAD: nat := 360_360

  datatype ProcState = Unused | Used | Sleeping | Runnable | Running | Zombie

  datatype Proc = Proc(state: ProcState, chan: nat, tickets: nat, pass: nat, stride: nat, nSchedule: nat)

  datatype Option<T> = None | Some(value: T)

  type Table = seq<Proc>

  const RUNNABLE: set<ProcState> := {Runnable}
  const ACTIVE: set<ProcState> := {Running, Runnable}

  predicate Active(p: Proc) {
    p.state == Runnable || p.state == Running
  }

  predicate TicketsAccepted(tickets: nat) {
    10 <= tickets <= 150 && tickets % 10 == 0
  }

  /** For every accepted ticket count the stride is exact: stride * tickets is LARGE_NUMBER. */
  lemma StrideExact(tickets: nat)
    requires TicketsAccepted(tickets)
    ensures (LARGE_NUMBER / tickets) * tickets == LARGE_NUMBER
    ensures 0 < LARGE_NUMBER / tickets <= SPREAD
  {
    var k := tickets / 10;
    assert tickets == 10 * k && 1 <= k <= 15;
    if
    case k == 1 => case k == 2 => case k == 3 => case k == 4 => case k == 5 =>
    case k == 6 => case k == 7 => case k == 8 => case k == 9 => case k == 10 =>
    case k == 11 => case k == 12 => case k == 13 => case k == 14 => case k == 15 =>
  }

  /** Process i is the first one, among the first n in the given states, with the least pass. */
  predicate FirstMin(t: Table, states: set<ProcState>, n: nat, i: nat)
    requires n <= |t|
  {
    && i < n && t[i].state in states
    && (forall j :: 0 <= j < n && t[j].state in states ==> t[i].pass <= t[j].pass)
    && (forall j :: 0 <= j < i && t[j].state in states ==> t[i].pass < t[j].pass)
  }

  function MinPass(t: Table, states: set<ProcState>, n: nat): (m: Option<nat>)
    requires n <= |t|
    ensures m.Some? ==> FirstMin(t, states, n, m.value)
    ensures m.None? ==> forall j :: 0 <= j < n ==> t[j].state !in states
  {
    if n == 0 then None else
      var m := MinPass(t, states, n - 1);
      if t[n - 1].state in states && (m.None? || t[n - 1].pass < t[m.value].pass) then Some(n - 1) else m
  }

  /** The least pass among Runnable processes, else that of the current one, if there is one. */
  function Baseline(t: Table, current: Option<nat>): (b: Option<nat>)
    requires current.Some? ==> current.value < |t|
  {
    var m := MinPass(t, RUNNABLE, |t|);
    if m.Some? then Some(t[m.value].pass)
    else if current.Some? then Some(t[current.value].pass)
    else None
  }

  function SaturatingSub(a: nat, b: nat): (r: nat) {
    if a < b then 0 else a - b
  }

  // ---------------------------------------------------------------- steps

  datatype Step =
    | Dispatch
    | SwitchOut(next: ProcState, chan: nat)
    | Wakeup(chan: nat)
    | Fork(child: nat)
    | SetTickets(tickets: nat)
    | Reap(id: nat)

  /** Index of the Running process, if any. */
  predicate IsRunning(t: Table, r: nat) {
    r < |t| && t[r].state == Running
  }

  predicate HasRunning(t: Table) {
    exists r :: 0 <= r < |t| && t[r].state == Running
  }

  predicate HasRunnable(t: Table) {
    exists i :: 0 <= i < |t| && t[i].state == Runnable
  }

  ghost function Current(t: Table): (r: nat)
    requires HasRunning(t)
    ensures IsRunning(t, r)
  {
    var r :| 0 <= r < |t| && t[r].state == Running; r
  }

  ghost function CurrentOpt(t: Table): (c: Option<nat>)
    ensures c.Some? ==> IsRunning(t, c.value)
  {
    if HasRunning(t) then Some(Current(t)) else None
  }

  /** Steps of a busy hart: some process is always Running or Runnable. */
  ghost predicate Enabled(t: Table, step: Step) {
    match step
    case Dispatch => !HasRunning(t) && HasRunnable(t)
    case SwitchOut(next, _) => HasRunning(t) && (next == Runnable || ((next == Sleeping || next == Zombie) && HasRunnable(t)))
    case Wakeup(_) => HasRunning(t) || HasRunnable(t)
    case Fork(c) => HasRunning(t) && c < |t| && t[c].state == Unused
    case SetTickets(k) => HasRunning(t) && TicketsAccepted(k)
    case Reap(i) => i < |t| && t[i].state == Zombie
  }

  function Wake(t: Table, chan: nat, baseline: Option<nat>): (w: Table)
    ensures |w| == |t|
    ensures forall i :: 0 <= i < |t| ==> w[i] == WakeOne(t[i], chan, baseline)
  {
    seq(|t|, i requires 0 <= i < |t| => WakeOne(t[i], chan, baseline))
  }

  function WakeOne(p: Proc, chan: nat, baseline: Option<nat>): (q: Proc) {
    if p.state == Sleeping && p.chan == chan
    then p.(state := Runnable, pass := if baseline.Some? && p.pass < baseline.value then baseline.value else p.pass)
    else p
  }

  function Forked(t: Table, current: nat): (p: Proc)
    requires current < |t|
  {
    Proc(Runnable, 0, 10, Baseline(t, Some(current)).value, LARGE_NUMBER / 10, 0)
  }

  function Start(t: Table, i: nat): (s: Table)
    requires i < |t|
    ensures |s| == |t|
  {
    t[i := t[i].(state := Running)]
  }

  /** The steps whose effect does not depend on the width of a pass. */
  ghost function Common(t: Table, step: Step): (s: Table)
    requires Enabled(t, step) && !step.Dispatch? && !step.SwitchOut?
    ensures |s| == |t|
  {
    match step
    case Wakeup(chan) => Wake(t, chan, Baseline(t, CurrentOpt(t)))
    case Fork(c) => t[c := Forked(t, Current(t))]
    case SetTickets(k) => var r := Current(t); t[r := t[r].(tickets := k, stride := LARGE_NUMBER / k)]
    case Reap(i) => t[i := t[i].(state := Unused)]
  }

  /** Unbounded passes. */
  ghost function Ideal(t: Table, step: Step): (s: Table)
    requires Enabled(t, step)
    ensures |s| == |t|
  {
    match step
    case Dispatch => Start(t, MinPass(t, RUNNABLE, |t|).value)
    case SwitchOut(next, chan) =>
      var r := Current(t);
      t[r := t[r].(state := next, chan := chan, pass := t[r].pass + t[r].stride, nSchedule := t[r].nSchedule + 1)]
    case _ => Common(t, step)
  }

  function Normalize(t: Table, baseline: nat): (s: Table)
    ensures |s| == |t|
    ensures forall i :: 0 <= i < |t| ==> s[i] == t[i].(pass := SaturatingSub(t[i].pass, baseline))
  {
    seq(|t|, i requires 0 <= i < |t| => t[i].(pass := SaturatingSub(t[i].pass, baseline)))
  }

  predicate Overflows(p: Proc) {
    p.pass + p.stride > MAX_PASS
  }

  /** One turn of the scheduler loop: either normalizes, to be tried again, or starts a process. */
  function Turn(t: Table): (s: Table)
    requires HasRunnable(t)
    ensures |s| == |t|
  {
    var i := MinPass(t, RUNNABLE, |t|).value;
    if Overflows(t[i]) then
      var b := MinPass(t, ACTIVE, |t|).value;
      Normalize(t, t[b].pass)
    else Start(t, i)
  }

  /** 64-bit passes. */
  ghost function Real(t: Table, step: Step): (s: Table)
    requires Enabled(t, step)
    ensures |s| == |t|
  {
    match step
    case Dispatch => var once := Turn(t); if HasRunning(once) || !HasRunnable(once) then once else Turn(once)
    case SwitchOut(next, chan) =>
      var r := Current(t);
      t[r := t[r].(state := next, chan := chan, pass := (t[r].pass + t[r].stride) % (MAX_PASS + 1), nSchedule := t[r].nSchedule + 1)]
    case _ => Common(t, step)
  }

  // ---------------------------------------------------------------- the spread of passes

  predicate OneRunning(t: Table) {
    forall i, j :: 0 <= i < |t| && 0 <= j < |t| && t[i].state == Running && t[j].state == Running ==> i == j
  }

  predicate StridesOk(t: Table) {
    forall i :: 0 <= i < |t| ==> t[i].stride <= SPREAD
  }

  /** Active processes are within SPREAD of each other; no sleeper is further ahead than that. */
  predicate Close(t: Table) {
    forall i, j :: 0 <= i < |t| && 0 <= j < |t| && Active(t[j]) && (Active(t[i]) || t[i].state == Sleeping) ==>
      t[i].pass <= t[j].pass + SPREAD
  }

  /** The running process was, and still is, a least one. */
  predicate RunningLeast(t: Table) {
    forall i, j :: 0 <= i < |t| && 0 <= j < |t| && t[i].state == Running && t[j].state == Runnable ==>
      t[i].pass <= t[j].pass
  }

  predicate Fair(t: Table) {
    OneRunning(t) && StridesOk(t) && Close(t) && RunningLeast(t)
  }

  lemma FairDispatch(t: Table)
    requires Fair(t) && Enabled(t, Dispatch)
    ensures Fair(Ideal(t, Dispatch))
  {
    var i := MinPass(t, RUNNABLE, |t|).value;
    assert FirstMin(t, RUNNABLE, |t|, i);
  }

  lemma FairSwitchOut(t: Table, next: ProcState, chan: nat)
    requires Fair(t) && Enabled(t, SwitchOut(next, chan))
    ensures Fair(Ideal(t, SwitchOut(next, chan)))
  {
  }

  /** The baseline is where an active process may join: not behind the running one, not ahead. */
  lemma BaselineBounds(t: Table, current: Option<nat>)
    requires Fair(t) && (current.Some? ==> IsRunning(t, current.value)) && (current.Some? || HasRunnable(t))
    ensures Baseline(t, current).Some?
    ensures var b := Baseline(t, current).value;
            && (forall j :: 0 <= j < |t| && Active(t[j]) ==> b <= t[j].pass + SPREAD && t[j].pass <= b + SPREAD)
            && (forall j :: 0 <= j < |t| && t[j].state == Runnable ==> b <= t[j].pass)
            && (forall j :: 0 <= j < |t| && t[j].state == Running ==> t[j].pass <= b)
            && (exists j :: 0 <= j < |t| && Active(t[j]) && t[j].pass == b)
  {
  }

  lemma FairWake(t: Table, chan: nat, b: nat)
    requires Fair(t)
    requires forall j :: 0 <= j < |t| && Active(t[j]) ==> b <= t[j].pass + SPREAD && t[j].pass <= b + SPREAD
    requires forall j :: 0 <= j < |t| && t[j].state == Running ==> t[j].pass <= b
    requires exists j :: 0 <= j < |t| && Active(t[j]) && t[j].pass == b
    ensures Fair(Wake(t, chan, Some(b)))
  {
    hide Wake;
    var w := Wake(t, chan, Some(b));
    assert Close(w) by {
      forall i | 0 <= i < |t| && (Active(w[i]) || w[i].state == Sleeping)
        ensures forall j :: 0 <= j < |t| && Active(t[j]) ==> w[i].pass <= t[j].pass + SPREAD
        ensures Active(w[i]) && !Active(t[i]) ==> b <= w[i].pass <= b + SPREAD
        ensures w[i].pass <= b + SPREAD
      {
      }
    }
  }

  lemma FairWakeup(t: Table, chan: nat)
    requires Fair(t) && Enabled(t, Wakeup(chan))
    ensures Fair(Ideal(t, Wakeup(chan)))
  {
    BaselineBounds(t, CurrentOpt(t));
    hide Baseline, Wake;
    FairWake(t, chan, Baseline(t, CurrentOpt(t)).value);
  }

  lemma FairFork(t: Table, c: nat)
    requires Fair(t) && Enabled(t, Fork(c))
    ensures Fair(Ideal(t, Fork(c)))
  {
    BaselineBounds(t, Some(Current(t)));
  }

  /** Every step of a busy hart keeps the passes of active processes within SPREAD. */
  lemma FairStep(t: Table, step: Step)
    requires Fair(t) && Enabled(t, step)
    ensures Fair(Ideal(t, step))
  {
    match step
    case Dispatch => FairDispatch(t);
    case SwitchOut(next, chan) => FairSwitchOut(t, next, chan);
    case Wakeup(chan) => FairWakeup(t, chan);
    case Fork(c) => FairFork(t, c);
    case SetTickets(k) => StrideExact(k);
    case Reap(i) =>
  }

  // ---------------------------------------------------------------- bounded refines unbounded

  predicate SameBut(p: Proc, q: Proc) {
    p == q.(pass := p.pass)
  }

  /** Bounded passes are unbounded ones less a common offset; a sleeper's may have saturated. */
  predicate Refines(b: Table, u: Table, off: nat) {
    && |b| == |u|
    && forall i :: 0 <= i < |b| ==>
         && SameBut(b[i], u[i])
         && (Active(b[i]) ==> u[i].pass == b[i].pass + off)
         && (b[i].state == Sleeping ==> b[i].pass == SaturatingSub(u[i].pass, off))
  }

  lemma SamePick(b: Table, u: Table, off: nat, states: set<ProcState>)
    requires Refines(b, u, off) && (states == RUNNABLE || states == ACTIVE)
    ensures MinPass(b, states, |b|) == MinPass(u, states, |u|)
  {
    hide MinPass;
    var i, j := MinPass(b, states, |b|), MinPass(u, states, |u|);
    if i.Some? { assert b[i.value].state == u[i.value].state; }
    if j.Some? { assert b[j.value].state == u[j.value].state; }
  }

  lemma SameBaseline(b: Table, u: Table, off: nat, current: Option<nat>)
    requires Refines(b, u, off) && (current.Some? ==> IsRunning(b, current.value))
    ensures Baseline(u, current).Some? <==> Baseline(b, current).Some?
    ensures Baseline(b, current).Some? ==> Baseline(u, current).value == Baseline(b, current).value + off
  {
    SamePick(b, u, off, RUNNABLE);
  }

  lemma SameCurrent(b: Table, u: Table, off: nat)
    requires Refines(b, u, off) && Fair(u)
    ensures CurrentOpt(u) == CurrentOpt(b) && HasRunning(u) == HasRunning(b)
    ensures HasRunning(b) ==> Current(u) == Current(b)
  {
    if HasRunning(b) { assert u[Current(b)].state == Running; }
    if HasRunning(u) { assert b[Current(u)].state == Running; }
  }

  lemma SameEnabled(b: Table, u: Table, off: nat, step: Step)
    requires Refines(b, u, off) && Enabled(b, step)
    ensures Enabled(u, step)
  {
    if HasRunning(b) { assert u[Current(b)].state == Running; }
    if HasRunning(u) { assert b[Current(u)].state == Running; }
    if HasRunnable(b) { var i :| 0 <= i < |b| && b[i].state == Runnable; assert u[i].state == Runnable; }
  }

  /** The checked addition: the running process can take its stride without overflow. */
  predicate RunningFits(t: Table) {
    forall i :: 0 <= i < |t| && t[i].state == Running ==> !Overflows(t[i])
  }

  /**
    An overflow is resolved by one normalization: it moves the common offset, keeps the choice,
    and leaves a choice that does not overflow.
   */
  lemma NormalizeRefines(b: Table, u: Table, off: nat) returns (more: nat)
    requires Refines(b, u, off) && Fair(u) && Enabled(b, Dispatch)
    requires Overflows(b[MinPass(b, RUNNABLE, |b|).value])
    ensures Refines(Turn(b), u, more)
    ensures Enabled(Turn(b), Dispatch)
    ensures MinPass(Turn(b), RUNNABLE, |b|) == MinPass(b, RUNNABLE, |b|)
    ensures !Overflows(Turn(b)[MinPass(b, RUNNABLE, |b|).value])
  {
    var i := MinPass(b, RUNNABLE, |b|).value;
    var k := MinPass(b, ACTIVE, |b|).value;
    assert FirstMin(b, RUNNABLE, |b|, i) && FirstMin(b, ACTIVE, |b|, k);
    assert b[k].state == Runnable && b[k].pass == b[i].pass;
    more := off + b[k].pass;
    var n := Normalize(b, b[k].pass);
    assert n[i].pass == 0 && n[i].state == Runnable;
    assert Refines(n, u, more);
    SamePick(b, u, off, RUNNABLE);
    SamePick(n, u, more, RUNNABLE);
  }

  lemma StartRefines(b: Table, u: Table, off: nat, i: nat)
    requires Refines(b, u, off) && i < |b| && b[i].state == Runnable
    ensures Refines(Start(b, i), Start(u, i), off)
  {
  }

  /** The bounded scheduler starts the process the unbounded one starts. */
  lemma DispatchRefines(b: Table, u: Table, off: nat) returns (more: nat)
    requires Refines(b, u, off) && Fair(u) && Enabled(b, Dispatch)
    ensures Enabled(u, Dispatch) && Refines(Real(b, Dispatch), Ideal(u, Dispatch), more)
  {
    SameEnabled(b, u, off, Dispatch);
    SamePick(b, u, off, RUNNABLE);
    hide MinPass, Normalize;
    var i := MinPass(b, RUNNABLE, |b|).value;
    if Overflows(b[i]) {
      more := NormalizeRefines(b, u, off);
      StartRefines(Turn(b), u, more, i);
    } else {
      more := off;
      StartRefines(b, u, off, i);
      assert Start(b, i)[i].state == Running;
    }
  }

  /** The baseline hides the saturation: a sleeper that fell behind it is lifted to it. */
  lemma WakeRefines(b: Table, u: Table, off: nat, chan: nat, x: nat)
    requires Refines(b, u, off)
    ensures Refines(Wake(b, chan, Some(x)), Wake(u, chan, Some(x + off)), off)
  {
    hide Wake;
  }

  lemma WakeupRefines(b: Table, u: Table, off: nat, chan: nat)
    requires Refines(b, u, off) && Fair(u) && Enabled(b, Wakeup(chan))
    ensures Enabled(u, Wakeup(chan)) && Refines(Real(b, Wakeup(chan)), Ideal(u, Wakeup(chan)), off)
  {
    hide Baseline, Wake, Fair, Refines;
    SameEnabled(b, u, off, Wakeup(chan));
    SameCurrent(b, u, off);
    SameBaseline(b, u, off, CurrentOpt(b));
    BaselineBounds(u, CurrentOpt(u));
    WakeRefines(b, u, off, chan, Baseline(b, CurrentOpt(b)).value);
  }

  lemma ForkRefines(b: Table, u: Table, off: nat, c: nat)
    requires Refines(b, u, off) && Fair(u) && Enabled(b, Fork(c))
    ensures Enabled(u, Fork(c)) && Refines(Real(b, Fork(c)), Ideal(u, Fork(c)), off)
  {
    SameEnabled(b, u, off, Fork(c));
    SameCurrent(b, u, off);
    SameBaseline(b, u, off, Some(Current(b)));
    hide Baseline;
  }

  /** Passes are 64-bit words. */
  predicate PassesFit(t: Table) {
    forall i :: 0 <= i < |t| ==> t[i].pass <= MAX_PASS
  }

  predicate SleepersAtZero(t: Table) {
    forall i :: 0 <= i < |t| && t[i].state == Sleeping ==> t[i].pass == 0
  }

  /**
    The unchecked addition on the way out does no harm: it does not wrap around, or the process has
    exited, or it goes on as the only active one while no sleeper has a pass to compare it with.
   */
  predicate SwitchFits(t: Table, step: Step) {
    match step
    case SwitchOut(next, _) =>
      RunningFits(t) || next == Zombie || (next == Runnable && !HasRunnable(t) && SleepersAtZero(t))
    case _ => true
  }

  lemma RealFits(b: Table, step: Step)
    requires PassesFit(b) && Enabled(b, step)
    ensures PassesFit(Real(b, step))
  {
    match step
    case Dispatch =>
      TurnFits(b);
      var once := Turn(b);
      if HasRunnable(once) { TurnFits(once); }
    case SwitchOut(next, chan) =>
    case _ => CommonFits(b, step);
  }

  lemma TurnFits(t: Table)
    requires PassesFit(t) && HasRunnable(t)
    ensures PassesFit(Turn(t))
  {
    hide MinPass;
  }

  lemma CommonFits(t: Table, step: Step)
    requires PassesFit(t) && Enabled(t, step) && !step.Dispatch? && !step.SwitchOut?
    ensures PassesFit(Common(t, step))
  {
    hide Wake;
  }

  /**
    The addition is the one place where the widths can differ: the step agrees with unbounded passes,
    for some offset, exactly when it fits.
   */
  lemma SwitchOutRefines(b: Table, u: Table, off: nat, next: ProcState, chan: nat)
    requires Refines(b, u, off) && Fair(u) && PassesFit(b) && Enabled(b, SwitchOut(next, chan))
    ensures Enabled(u, SwitchOut(next, chan))
    ensures SwitchFits(b, SwitchOut(next, chan)) <==>
            exists more: nat :: Refines(Real(b, SwitchOut(next, chan)), Ideal(u, SwitchOut(next, chan)), more)
  {
    SameEnabled(b, u, off, SwitchOut(next, chan));
    SameCurrent(b, u, off);
    if SwitchFits(b, SwitchOut(next, chan)) {
      var more := FitRefines(b, u, off, next, chan);
    } else {
      forall more: nat ensures !Refines(Real(b, SwitchOut(next, chan)), Ideal(u, SwitchOut(next, chan)), more) {
        WrapParts(b, u, off, next, chan, more);
      }
    }
  }

  /** Either the offset stays, or the only pass that counts has lost 2^64 and the offset gains it. */
  lemma FitRefines(b: Table, u: Table, off: nat, next: ProcState, chan: nat) returns (more: nat)
    requires Refines(b, u, off) && Fair(u) && PassesFit(b) && Enabled(b, SwitchOut(next, chan))
    requires Enabled(u, SwitchOut(next, chan)) && Current(u) == Current(b)
    requires SwitchFits(b, SwitchOut(next, chan))
    ensures Refines(Real(b, SwitchOut(next, chan)), Ideal(u, SwitchOut(next, chan)), more)
  {
    var r := Current(b);
    if !Overflows(b[r]) || next == Zombie {
      more := off;
    } else {
      more := off + MAX_PASS + 1;
      OnlyRunning(b, u, off);
      WrappedSum(b[r].pass, b[r].stride);
    }
  }

  lemma OnlyRunning(b: Table, u: Table, off: nat)
    requires Refines(b, u, off) && Fair(u) && HasRunning(b)
    ensures forall i :: 0 <= i < |b| && b[i].state == Running ==> i == Current(b)
  {
    forall i | 0 <= i < |b| && b[i].state == Running ensures i == Current(b) {
      assert u[i].state == Running && u[Current(b)].state == Running;
    }
  }

  lemma WrappedSum(pass: nat, stride: nat)
    requires pass <= MAX_PASS && stride <= SPREAD && pass + stride > MAX_PASS
    ensures (pass + stride) % (MAX_PASS + 1) == pass + stride - (MAX_PASS + 1)
  {
  }

  /** A wrapped pass no longer keeps its distance from the passes it is compared with. */
  lemma WrapParts(b: Table, u: Table, off: nat, next: ProcState, chan: nat, more: nat)
    requires Refines(b, u, off) && Fair(u) && PassesFit(b) && Enabled(b, SwitchOut(next, chan))
    requires Enabled(u, SwitchOut(next, chan)) && Current(u) == Current(b)
    requires !SwitchFits(b, SwitchOut(next, chan))
    ensures !Refines(Real(b, SwitchOut(next, chan)), Ideal(u, SwitchOut(next, chan)), more)
  {
    var r := Current(b);
    OnlyRunning(b, u, off);
    WrappedSum(b[r].pass, b[r].stride);
    var b', u' := Real(b, SwitchOut(next, chan)), Ideal(u, SwitchOut(next, chan));
    assert b'[r].pass == b[r].pass + b[r].stride - (MAX_PASS + 1) && u'[r].pass == u[r].pass + u[r].stride;
    if j :| 0 <= j < |b| && b[j].state == Runnable {
      assert b'[j] == b[j] && u'[j] == u[j];
    } else {
      assert next == Runnable;
      var i :| 0 <= i < |b| && b[i].state == Sleeping && b[i].pass != 0;
      assert b'[i] == b[i] && u'[i] == u[i];
    }
  }

  /** Every step of the bounded scheduler that fits is the step of the unbounded one. */
  lemma StepRefines(b: Table, u: Table, off: nat, step: Step) returns (more: nat)
    requires Refines(b, u, off) && Fair(u) && PassesFit(b) && Enabled(b, step) && SwitchFits(b, step)
    ensures Enabled(u, step) && Refines(Real(b, step), Ideal(u, step), more)
    ensures PassesFit(Real(b, step)) && Fair(Ideal(u, step))
  {
    SameEnabled(b, u, off, step);
    FairStep(u, step);
    RealFits(b, step);
    more := off;
    hide Baseline, Wake, MinPass, Turn, Fair;
    match step
    case Dispatch => more := DispatchRefines(b, u, off);
    case Wakeup(chan) => WakeupRefines(b, u, off, chan);
    case Fork(c) => ForkRefines(b, u, off, c);
    case SwitchOut(next, chan) =>
      SwitchOutRefines(b, u, off, next, chan);
      var m: nat :| Refines(Real(b, step), Ideal(u, step), m);
      more := m;
    case SetTickets(k) => SameCurrent(b, u, off);
    case Reap(i) =>
  }

  // ---------------------------------------------------------------- whole runs

  ghost predicate BoundedRun(bs: seq<Table>, steps: seq<Step>) {
    && |bs| == |steps| + 1
    && forall k :: 0 <= k < |steps| ==> Enabled(bs[k], steps[k]) && bs[k + 1] == Real(bs[k], steps[k])
  }

  ghost predicate IdealRun(us: seq<Table>, steps: seq<Step>) {
    && |us| == |steps| + 1
    && forall k :: 0 <= k < |steps| ==> Enabled(us[k], steps[k]) && us[k + 1] == Ideal(us[k], steps[k])
  }

  /** No switch of the run does harm. */
  predicate RunFits(bs: seq<Table>, steps: seq<Step>)
    requires |bs| == |steps| + 1
  {
    forall k :: 0 <= k < |steps| ==> SwitchFits(bs[k], steps[k])
  }

  ghost predicate Matches(b: Table, u: Table) {
    exists off: nat :: Refines(b, u, off)
  }

  ghost predicate AllMatch(bs: seq<Table>, us: seq<Table>) {
    |us| == |bs| && forall k :: 0 <= k < |bs| ==> Matches(bs[k], us[k])
  }

  /** The unbounded scheduler, started alike, takes the same steps through matching states. */
  ghost predicate MatchingRun(bs: seq<Table>, us: seq<Table>, steps: seq<Step>) {
    IdealRun(us, steps) && |bs| == |us| && us[0] == bs[0] && AllMatch(bs, us)
  }

  lemma {:induction false} RunInvariant(bs: seq<Table>, us: seq<Table>, steps: seq<Step>, k: nat)
    requires BoundedRun(bs, steps) && IdealRun(us, steps) && PassesFit(bs[0]) && Fair(us[0]) && k < |bs|
    ensures PassesFit(bs[k]) && Fair(us[k])
  {
    hide Real, Ideal, Enabled, Fair, PassesFit;
    if k > 0 {
      RunInvariant(bs, us, steps, k - 1);
      assert Enabled(bs[k - 1], steps[k - 1]) && bs[k - 1 + 1] == Real(bs[k - 1], steps[k - 1]);
      assert Enabled(us[k - 1], steps[k - 1]) && us[k - 1 + 1] == Ideal(us[k - 1], steps[k - 1]);
      RealFits(bs[k - 1], steps[k - 1]);
      FairStep(us[k - 1], steps[k - 1]);
    }
  }

  /**
    Normalization is invisible: every busy run of the 64-bit scheduler whose switches fit is, step by
    step and decision by decision, a run of the scheduler with unbounded passes.
   */
  lemma {:induction false} RunRefines(bs: seq<Table>, steps: seq<Step>) returns (us: seq<Table>)
    requires BoundedRun(bs, steps) && RunFits(bs, steps) && Fair(bs[0]) && PassesFit(bs[0])
    ensures MatchingRun(bs, us, steps)
    ensures forall k :: 0 <= k < |us| ==> Fair(us[k])
    decreases |steps|
  {
    hide Real, Ideal, Enabled, SwitchFits, Fair, PassesFit;
    var n := |steps|;
    if n == 0 {
      us := [bs[0]];
      assert Refines(bs[0], us[0], 0);
      assert Matches(bs[0], us[0]);
    } else {
      us := RunRefines(bs[..n], steps[..n - 1]);
      assert Matches(bs[..n][n - 1], us[n - 1]);
      RunInvariant(bs[..n], us, steps[..n - 1], n - 1);
      var off: nat :| Refines(bs[n - 1], us[n - 1], off);
      var more := StepRefines(bs[n - 1], us[n - 1], off, steps[n - 1]);
      us := us + [Ideal(us[n - 1], steps[n - 1])];
      assert Matches(bs[n], us[n]);
      forall k | 0 <= k < |bs| ensures Matches(bs[k], us[k]) {
        if k < n { assert Matches(bs[..n][k], us[k]); }
      }
    }
  }

  /** A matched run has only switches that fit. */
  lemma MatchedFits(bs: seq<Table>, us: seq<Table>, steps: seq<Step>, k: nat)
    requires BoundedRun(bs, steps) && MatchingRun(bs, us, steps)
    requires Fair(bs[0]) && PassesFit(bs[0]) && k < |steps|
    ensures SwitchFits(bs[k], steps[k])
  {
    hide Real, Ideal, Enabled, Fair, PassesFit, Refines;
    RunInvariant(bs, us, steps, k);
    assert Matches(bs[k], us[k]) && Matches(bs[k + 1], us[k + 1]);
    var off: nat :| Refines(bs[k], us[k], off);
    var more: nat :| Refines(bs[k + 1], us[k + 1], more);
    assert Enabled(bs[k], steps[k]) && bs[k + 1] == Real(bs[k], steps[k]);
    assert Enabled(us[k], steps[k]) && us[k + 1] == Ideal(us[k], steps[k]);
    if steps[k].SwitchOut? {
      SwitchOutRefines(bs[k], us[k], off, steps[k].next, steps[k].chan);
    }
  }

  /**
    Which busy runs of the 64-bit scheduler are runs of the unbounded one: exactly those in which
    every switch fits.
   */
  lemma RunMatchesIff(bs: seq<Table>, steps: seq<Step>)
    requires BoundedRun(bs, steps) && Fair(bs[0]) && PassesFit(bs[0])
    ensures RunFits(bs, steps) <==> exists us :: MatchingRun(bs, us, steps)
  {
    hide BoundedRun, IdealRun, Fair, PassesFit, SwitchFits, AllMatch, MatchingRun;
    assert |bs| == |steps| + 1 by { RunLength(bs, steps); }
    if RunFits(bs, steps) {
      var us := RunRefines(bs, steps);
    }
    if us :| MatchingRun(bs, us, steps) {
      forall k | 0 <= k < |steps| ensures SwitchFits(bs[k], steps[k]) {
        MatchedFits(bs, us, steps, k);
      }
    }
  }

  lemma RunLength(bs: seq<Table>, steps: seq<Step>)
    requires BoundedRun(bs, steps)
    ensures |bs| == |steps| + 1
  {
  }

  /** In every state of a busy run the active processes are within SPREAD of each other. */
  lemma RunStaysClose(bs: seq<Table>, steps: seq<Step>, k: nat, i: nat, j: nat)
    requires BoundedRun(bs, steps) && RunFits(bs, steps) && Fair(bs[0]) && PassesFit(bs[0])
    requires k < |bs| && i < |bs[k]| && j < |bs[k]| && Active(bs[k][i]) && Active(bs[k][j])
    ensures bs[k][i].pass <= bs[k][j].pass + SPREAD
  {
    var us := RunRefines(bs, steps);
    assert Matches(bs[k], us[k]);
    var off: nat :| Refines(bs[k], us[k], off);
  }

  // ---------------------------------------------------------------- proportional share

  /** Process i is active, with an unchanged stride, from state `from` to state `to`. */
  predicate Steady(ts: seq<Table>, i: nat, from: nat, to: nat) {
    && from <= to < |ts| && i < |ts[from]|
    && forall k :: from <= k <= to ==> i < |ts[k]| && Active(ts[k][i]) && ts[k][i].stride == ts[from][i].stride
  }

  /** A step charges an active process its stride exactly when it counts one more schedule. */
  lemma StepCharges(u: Table, step: Step, i: nat)
    requires Enabled(u, step) && i < |u| && Active(u[i]) && Active(Ideal(u, step)[i])
    ensures var v := Ideal(u, step)[i];
            && u[i].nSchedule <= v.nSchedule
            && v.pass - u[i].pass == (v.nSchedule - u[i].nSchedule) * u[i].stride
  {
  }

  lemma {:induction false} RunCharges(us: seq<Table>, steps: seq<Step>, i: nat, from: nat, to: nat)
    requires IdealRun(us, steps) && Steady(us, i, from, to)
    ensures us[from][i].nSchedule <= us[to][i].nSchedule
    ensures us[to][i].pass - us[from][i].pass == (us[to][i].nSchedule - us[from][i].nSchedule) * us[from][i].stride
  {
    hide Ideal, Enabled;
    if from < to {
      RunCharges(us, steps, i, from, to - 1);
      assert Enabled(us[to - 1], steps[to - 1]) && us[to - 1 + 1] == Ideal(us[to - 1], steps[to - 1]);
      assert Active(us[to - 1][i]) && Active(us[to][i]);
      StepCharges(us[to - 1], steps[to - 1], i);
      var a, b := us[to - 1][i].nSchedule - us[from][i].nSchedule, us[to][i].nSchedule - us[to - 1][i].nSchedule;
      assert (a + b) * us[from][i].stride == a * us[from][i].stride + b * us[from][i].stride;
    }
  }

  /**
    Proportional share: over any stretch of a busy run in which two processes stay active with
    unchanged tickets, the numbers of times they are scheduled, weighted by their strides, differ
    by at most twice SPREAD.
   */
  lemma ProportionalShare(bs: seq<Table>, steps: seq<Step>, i: nat, j: nat, from: nat, to: nat)
    requires BoundedRun(bs, steps) && RunFits(bs, steps) && Fair(bs[0]) && PassesFit(bs[0])
    requires Steady(bs, i, from, to) && Steady(bs, j, from, to)
    ensures var di := (bs[to][i].nSchedule - bs[from][i].nSchedule) * bs[from][i].stride;
            var dj := (bs[to][j].nSchedule - bs[from][j].nSchedule) * bs[from][j].stride;
            -2 * SPREAD <= di - dj <= 2 * SPREAD
  {
    hide Real, Ideal, Enabled;
    var us := RunRefines(bs, steps);
    forall k | 0 <= k < |bs| ensures |us[k]| == |bs[k]| && forall p :: 0 <= p < |bs[k]| ==> SameBut(bs[k][p], us[k][p]) {
      assert Matches(bs[k], us[k]);
    }
    assert Matches(bs[from], us[from]) && Matches(bs[to], us[to]);
    RunCharges(us, steps, i, from, to);
    RunCharges(us, steps, j, from, to);
  }

  /** Of two Runnable processes the one with the lower pass is started. */
  lemma DispatchOfTwo(b: Table, u: Table)
    requires |b| == |u| == 2
    requires !Overflows(b[0]) && forall i :: 0 <= i < 2 ==> b[i].state == Runnable && u[i].state == Runnable
    requires b[0].pass < b[1].pass && u[1].pass < u[0].pass
    ensures Enabled(b, Dispatch) && Enabled(u, Dispatch)
    ensures IsRunning(Real(b, Dispatch), 0) && IsRunning(Ideal(u, Dispatch), 1)
  {
    assert b[0].state == Runnable && u[1].state == Runnable;
    assert MinPass(b, RUNNABLE, 2) == Some(0) && MinPass(u, RUNNABLE, 2) == Some(1);
    assert Turn(b)[0].state == Running;
  }

  /** Without room for the new stride, a change of tickets makes the two schedulers part ways. */
  lemma TicketsCanWrap() returns (bs: seq<Table>, us: seq<Table>, steps: seq<Step>)
    ensures steps == [SetTickets(10), SwitchOut(Runnable, 0), Dispatch] && |bs| == |us| == 4 && bs[0] == us[0]
    ensures Fair(bs[0]) && PassesFit(bs[0]) && RunningFits(bs[0]) && IdealRun(us, steps) && BoundedRun(bs, steps)
    ensures !SwitchFits(bs[1], steps[1])
    ensures IsRunning(bs[3], 0) && IsRunning(us[3], 1)
  {
    hide MinPass, Turn, Baseline;
    var p := MAX_PASS - 24_024;
    var t := [Proc(Running, 0, 150, p, 24_024, 0), Proc(Runnable, 0, 150, p + 10, 24_024, 0)];
    assert t[0].state == Running;
    steps := [SetTickets(10), SwitchOut(Runnable, 0), Dispatch];
    var b1 := Real(t, steps[0]);
    assert b1[0].state == Running;
    var b2, u2 := Real(b1, steps[1]), Ideal(b1, steps[1]);
    assert b2[0] == Proc(Runnable, 0, 10, 336_335, 360_360, 1) && b2[1] == t[1];
    assert u2[0] == Proc(Runnable, 0, 10, MAX_PASS + 336_336, 360_360, 1) && u2[1] == t[1];
    DispatchOfTwo(b2, u2);
    bs, us := [t, b1, b2, Real(b2, Dispatch)], [t, b1, u2, Ideal(u2, Dispatch)];
  }
}
