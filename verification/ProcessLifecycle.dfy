/**
  fork, exit, wait and kill as a protocol over the process table, the parents array and the
  parents lock. Each action is one critical section, or one turn of a loop inside a longer one;
  processes interleave freely, on any number of harts.
*/
module ProcessLifecycle {

  datatype ProcState = Unused | Used | Sleeping | Runnable | Running | Zombie

  datatype Option<T> = None | Some(value: T)

  /** Where a process is in the code. */
  datatype Pc =
    | Idle                          // in user space, or elsewhere in the kernel
    | ForkAlloced(child: nat)       // child allocated; its memory is being copied
    | ForkLinked(child: nat)        // child's parent recorded, child not yet Runnable
    | ExitReparent(k: nat)          // parents lock held; children below k handed to init
    | ExitWakeInit(k: nat)          // child k handed to init, init not yet woken
    | ExitWakeParent
    | ExitMark                      // parent woken, about to become a Zombie
    | Gone
    | WaitScan(k: nat, kids: bool)  // parents lock held; no exited child below k
    | WaitDoze                      // own lock held, parents lock released, not yet Sleeping
    | WaitSleep                     // sleeping on its own channel, or woken from it

  /** `onOwn`: the channel it sleeps on is its own process channel. */
  datatype Proc = Proc(state: ProcState, onOwn: bool, killed: bool, pc: Pc)

  datatype State = State(init: nat, procs: seq<Proc>, parents: seq<Option<nat>>, lock: Option<nat>)

  datatype Action =
    | ForkAlloc(p: nat, c: nat)
    | ForkFail(p: nat)
    | ForkLink(p: nat)
    | ForkReady(p: nat)
    | ExitBegin(p: nat)
    | ExitStep(p: nat)
    | WaitBegin(p: nat)
    | WaitStep(p: nat)
    | DozeOff(p: nat)
    | SleepOther(p: nat)
    | WakeOther(p: nat)
    | Kill(p: nat)
    | Run(p: nat)
    | Yield(p: nat)

  predicate HoldsParents(pc: Pc) {
    pc.ExitReparent? || pc.ExitWakeInit? || pc.ExitWakeParent? || pc.ExitMark? || pc.WaitScan?
  }

  predicate Alive(p: Proc) {
    p.state == Sleeping || p.state == Runnable || p.state == Running
  }

  /** Asleep on its own channel, or committed to falling asleep on it. */
  predicate Dormant(p: Proc) {
    p.pc.WaitDoze? || (p.state == Sleeping && p.onOwn)
  }

  function Woken(p: Proc): Proc {
    if p.state == Sleeping && p.onOwn then p.(state := Runnable) else p
  }

  function SetPc(s: State, p: nat, pc: Pc): State
    requires p < |s.procs|
  {
    s.(procs := s.procs[p := s.procs[p].(pc := pc)])
  }

  // ---------------------------------------------------------------- actions

  /** A process is running in the kernel at a given point. */
  predicate At(s: State, p: nat) {
    p < |s.procs| && p < |s.parents| && s.procs[p].state == Running
  }

  predicate ProcLockFree(s: State, p: nat) {
    p < |s.procs| && !s.procs[p].pc.WaitDoze?
  }

  predicate ExitEnabled(s: State, p: nat)
    requires At(s, p)
  {
    match s.procs[p].pc
    case ExitReparent(_) => true
    case ExitWakeInit(_) => ProcLockFree(s, s.init)
    case ExitWakeParent => s.parents[p].Some? && ProcLockFree(s, s.parents[p].value)
    case ExitMark => true
    case _ => false
  }

  predicate WaitEnabled(s: State, p: nat)
    requires At(s, p)
  {
    match s.procs[p].pc
    case WaitScan(k, _) => k < |s.procs| && k < |s.parents| && s.parents[k] == Some(p) ==> ProcLockFree(s, k)
    case WaitSleep => s.lock.None?
    case _ => false
  }

  predicate Enabled(s: State, a: Action) {
    match a
    case ForkAlloc(p, c) => At(s, p) && s.procs[p].pc.Idle? && c < |s.procs| && s.procs[c].state == Unused
    case ForkFail(p) => At(s, p) && s.procs[p].pc.ForkAlloced? && s.procs[p].pc.child < |s.procs|
    case ForkLink(p) => At(s, p) && s.procs[p].pc.ForkAlloced? && s.procs[p].pc.child < |s.parents| && s.lock.None?
    case ForkReady(p) => At(s, p) && s.procs[p].pc.ForkLinked? && s.procs[p].pc.child < |s.procs|
    case ExitBegin(p) => At(s, p) && s.procs[p].pc.Idle? && p != s.init && s.lock.None?
    case ExitStep(p) => At(s, p) && ExitEnabled(s, p)
    case WaitBegin(p) => At(s, p) && s.procs[p].pc.Idle? && s.lock.None?
    case WaitStep(p) => At(s, p) && WaitEnabled(s, p)
    case DozeOff(p) => At(s, p) && s.procs[p].pc.WaitDoze?
    case SleepOther(p) => At(s, p) && s.procs[p].pc.Idle?
    case WakeOther(p) => p < |s.procs| && s.procs[p].state == Sleeping && !s.procs[p].onOwn
    case Kill(p) => ProcLockFree(s, p) && s.procs[p].state != Unused
    case Run(p) => p < |s.procs| && s.procs[p].state == Runnable
    case Yield(p) =>
      At(s, p) && !HoldsParents(s.procs[p].pc) && !s.procs[p].pc.WaitDoze? && !s.procs[p].pc.ForkAlloced?
  }

  /** One turn of exit: the loop of reparent, its wakeups, and the transition to Zombie. */
  function DoExit(s: State, p: nat): State
    requires At(s, p) && ExitEnabled(s, p)
  {
    match s.procs[p].pc
    case ExitReparent(k) =>
      if k >= |s.parents| then SetPc(s, p, ExitWakeParent)
      else if s.parents[k] == Some(p) then HandedOver(s, p, k)
      else SetPc(s, p, ExitReparent(k + 1))
    case ExitWakeInit(k) =>
      SetPc(s.(procs := s.procs[s.init := Woken(s.procs[s.init])]), p, ExitReparent(k + 1))
    case ExitWakeParent =>
      var q := s.parents[p].value;
      SetPc(s.(procs := s.procs[q := Woken(s.procs[q])]), p, ExitMark)
    case ExitMark =>
      s.(procs := s.procs[p := s.procs[p].(state := Zombie, pc := Gone)], lock := None)
    case _ => s
  }

  /** One turn of wait: a step of its scan, which may reap a child, or going to sleep. */
  function DoWait(s: State, p: nat): State
    requires At(s, p) && WaitEnabled(s, p)
  {
    match s.procs[p].pc
    case WaitScan(k, kids) =>
      if k >= |s.procs| || k >= |s.parents| then
        if !kids || s.procs[p].killed then SetPc(s, p, Idle).(lock := None)
        else SetPc(s, p, WaitDoze).(lock := None)
      else if s.parents[k] != Some(p) then SetPc(s, p, WaitScan(k + 1, kids))
      else if s.procs[k].state == Zombie then
        Reaped(s, p, k)
      else SetPc(s, p, WaitScan(k + 1, true))
    case WaitSleep =>
      s.(procs := s.procs[p := s.procs[p].(onOwn := false, pc := WaitScan(0, false))], lock := Some(p))
    case _ => s
  }

  function DoFork(s: State, a: Action): State
    requires Enabled(s, a) && (a.ForkAlloc? || a.ForkFail? || a.ForkLink? || a.ForkReady?)
  {
    var pc := s.procs[a.p].pc;
    match a
    case ForkAlloc(p, c) => SetPc(s.(procs := s.procs[c := Proc(Used, false, false, Idle)]), p, ForkAlloced(c))
    case ForkFail(p) => SetPc(s.(procs := s.procs[pc.child := Proc(Unused, false, false, Idle)]), p, Idle)
    case ForkLink(p) => SetPc(s.(parents := s.parents[pc.child := Some(p)]), p, ForkLinked(pc.child))
    case ForkReady(p) =>
      SetPc(s.(procs := s.procs[pc.child := s.procs[pc.child].(state := Runnable)]), p, Idle)
  }

  function Do(s: State, a: Action): State
    requires Enabled(s, a)
  {
    match a
    case ForkAlloc(_, _) => DoFork(s, a)
    case ForkFail(_) => DoFork(s, a)
    case ForkLink(_) => DoFork(s, a)
    case ForkReady(_) => DoFork(s, a)
    case ExitBegin(p) => SetPc(s, p, ExitReparent(0)).(lock := Some(p))
    case ExitStep(p) => DoExit(s, p)
    case WaitBegin(p) => SetPc(s, p, WaitScan(0, false)).(lock := Some(p))
    case WaitStep(p) => DoWait(s, p)
    case DozeOff(p) => s.(procs := s.procs[p := s.procs[p].(state := Sleeping, onOwn := true, pc := WaitSleep)])
    case SleepOther(p) => s.(procs := s.procs[p := s.procs[p].(state := Sleeping, onOwn := false)])
    case WakeOther(p) => s.(procs := s.procs[p := s.procs[p].(state := Runnable)])
    case Kill(p) =>
      var q := s.procs[p].(killed := true);
      s.(procs := s.procs[p := if q.state == Sleeping then q.(state := Runnable) else q])
    case Run(p) => s.(procs := s.procs[p := s.procs[p].(state := Running)])
    case Yield(p) => s.(procs := s.procs[p := s.procs[p].(state := Runnable)])
  }

  // ---------------------------------------------------------------- invariant

  predicate ChildOf(parents: seq<Option<nat>>, c: nat, p: nat) {
    c < |parents| && parents[c] == Some(p)
  }

  /** A process whose code position and scheduling state fit together. */
  predicate Consistent(p: Proc) {
    && (p.state == Zombie <==> p.pc.Gone?)
    && (p.state == Unused || p.state == Used ==> p.pc.Idle?)
    && (HoldsParents(p.pc) || p.pc.WaitDoze? || p.pc.ForkAlloced? ==> p.state == Running)
    && (p.state == Sleeping && p.onOwn ==> p.pc.WaitSleep?)
  }

  predicate Locking(s: State) {
    && (s.lock.Some? ==> s.lock.value < |s.procs| && HoldsParents(s.procs[s.lock.value].pc))
    && (forall p :: 0 <= p < |s.procs| && HoldsParents(s.procs[p].pc) ==> s.lock == Some(p))
  }

  /** Who has a parent on record, and which processes are on record as parents. */
  ghost predicate Family(s: State) {
    && |s.parents| == |s.procs| && s.init < |s.procs| && Alive(s.procs[s.init])
    && !(s.procs[s.init].pc.ExitReparent? || s.procs[s.init].pc.ExitWakeInit? || s.procs[s.init].pc.ExitWakeParent? || s.procs[s.init].pc.ExitMark?)
    && (forall c :: 0 <= c < |s.procs| && s.procs[c].state == Unused ==> s.parents[c].None?)
    && (forall c :: 0 <= c < |s.procs| && c != s.init && (Alive(s.procs[c]) || s.procs[c].state == Zombie) ==> s.parents[c].Some?)
    && (forall c: nat, p: nat :: c < |s.procs| && ChildOf(s.parents, c, p) ==> p < |s.procs| && Alive(s.procs[p]))
  }

  /** Process p is creating process c. */
  predicate Creates(procs: seq<Proc>, p: nat, c: nat) {
    p < |procs| && (procs[p].pc == ForkAlloced(c) || procs[p].pc == ForkLinked(c))
  }

  ghost predicate Forking(s: State)
    requires |s.parents| == |s.procs|
  {
    && (forall p: nat, c: nat :: Creates(s.procs, p, c) ==>
          && c < |s.procs| && s.procs[c].state == Used
          && (if s.procs[p].pc.ForkLinked? then ChildOf(s.parents, c, p) else s.parents[c].None?))
    && (forall p: nat, q: nat, c: nat :: Creates(s.procs, p, c) && Creates(s.procs, q, c) ==> p == q)
  }

  /** Children below this index have been handed to init by an exit in progress. */
  function Cleared(pc: Pc, n: nat): (k: nat) {
    match pc
    case ExitReparent(k) => k
    case ExitWakeInit(k) => k + 1
    case ExitWakeParent => n
    case ExitMark => n
    case _ => 0
  }

  /** Children below this index have been seen not to be Zombies by a wait in progress. */
  function Scanned(pc: Pc): (k: nat) {
    if pc.WaitScan? then pc.k else 0
  }

  predicate Reparented(s: State) {
    forall p, c :: 0 <= p < |s.procs| && 0 <= c < |s.procs| && ChildOf(s.parents, c, p) ==> Cleared(s.procs[p].pc, |s.procs|) <= c
  }

  predicate ParentAwake(s: State) {
    forall p, q :: 0 <= p < |s.procs| && 0 <= q < |s.procs| && s.procs[p].pc.ExitMark? && ChildOf(s.parents, p, q) ==>
      !Dormant(s.procs[q])
  }

  predicate NoneMissed(s: State) {
    forall p, c :: 0 <= p < |s.procs| && 0 <= c < |s.procs| && ChildOf(s.parents, c, p) && c < Scanned(s.procs[p].pc) ==>
      s.procs[c].state != Zombie
  }

  /** An exit has handed a child to init and is about to wake it. */
  predicate WakingInit(s: State) {
    s.lock.Some? && s.lock.value < |s.procs| && s.procs[s.lock.value].pc.ExitWakeInit?
  }

  predicate NoLostWakeup(s: State) {
    forall p, z :: 0 <= p < |s.procs| && 0 <= z < |s.procs| && Dormant(s.procs[p]) && ChildOf(s.parents, z, p) && s.procs[z].state == Zombie ==>
      p == s.init && WakingInit(s)
  }

  ghost predicate Core(s: State) {
    && Family(s) && Locking(s) && Reparented(s) && ParentAwake(s) && NoneMissed(s) && NoLostWakeup(s)
    && forall p :: 0 <= p < |s.procs| ==> Consistent(s.procs[p])
  }

  ghost predicate Inv(s: State) {
    Core(s) && Forking(s)
  }

  // ---------------------------------------------------------------- every action keeps it

  predicate InFork(pc: Pc) {
    pc.ForkAlloced? || pc.ForkLinked?
  }

  lemma SameCreates(a: seq<Proc>, b: seq<Proc>)
    requires |a| == |b|
    requires forall i :: 0 <= i < |a| ==> a[i].pc == b[i].pc || (!InFork(a[i].pc) && !InFork(b[i].pc))
    ensures forall p: nat, c: nat :: Creates(a, p, c) <==> Creates(b, p, c)
  {
  }

  /** Actions of other processes do not disturb a fork in progress. */
  lemma ForkingKept(s: State, t: State)
    requires |s.parents| == |s.procs| == |t.procs| && t.parents == s.parents && Forking(s)
    requires forall i :: 0 <= i < |s.procs| ==>
               s.procs[i].pc == t.procs[i].pc || (!InFork(s.procs[i].pc) && !InFork(t.procs[i].pc))
    requires forall i :: 0 <= i < |s.procs| && s.procs[i].state == Used ==> t.procs[i].state == Used
    ensures Forking(t)
  {
    SameCreates(s.procs, t.procs);
  }

  /** Only process p moves, and neither from nor to a fork. */
  lemma SamePlaces(s: State, t: State, p: nat)
    requires |s.procs| == |t.procs| && p < |s.procs|
    requires forall i :: 0 <= i < |s.procs| && i != p ==> t.procs[i] == s.procs[i]
    requires !InFork(s.procs[p].pc) && !InFork(t.procs[p].pc) && s.procs[p].state != Used
    ensures forall i :: 0 <= i < |s.procs| ==>
              s.procs[i].pc == t.procs[i].pc || (!InFork(s.procs[i].pc) && !InFork(t.procs[i].pc))
    ensures forall i :: 0 <= i < |s.procs| && s.procs[i].state == Used ==> t.procs[i].state == Used
  {
  }

  /** Positions outside of exit and wait. */
  predicate Neutral(pc: Pc) {
    pc.Idle? || InFork(pc)
  }

  lemma EditFamily(s: State, p: nat, q: Proc)
    requires Family(s) && Locking(s) && p < |s.procs|
    requires q.pc == s.procs[p].pc || (Neutral(q.pc) && Neutral(s.procs[p].pc))
    requires q.state == s.procs[p].state || (Alive(q) && Alive(s.procs[p]))
    ensures Family(s.(procs := s.procs[p := q])) && Locking(s.(procs := s.procs[p := q]))
  {
    hide ChildOf;
  }

  /** One process changes, neither exiting, waiting nor being created. */
  lemma EditCore(s: State, p: nat, q: Proc)
    requires Core(s) && p < |s.procs| && Consistent(q)
    requires q.pc == s.procs[p].pc || (Neutral(q.pc) && Neutral(s.procs[p].pc))
    requires Dormant(q) ==> Dormant(s.procs[p])
    requires q.state == s.procs[p].state || (Alive(q) && Alive(s.procs[p]))
    ensures Core(s.(procs := s.procs[p := q]))
  {
    hide ChildOf, Family, Consistent;
    EditFamily(s, p, q);
  }

  /** Scheduling changes nothing that the protocol depends on. */
  lemma QuietInv(s: State, p: nat, q: Proc)
    requires Inv(s) && p < |s.procs| && Consistent(q)
    requires q.pc == s.procs[p].pc && (Dormant(q) ==> Dormant(s.procs[p]))
    requires q.state == s.procs[p].state || (Alive(q) && Alive(s.procs[p]))
    ensures Inv(s.(procs := s.procs[p := q]))
  {
    hide Forking;
    EditCore(s, p, q);
    hide Core;
    ForkingKept(s, s.(procs := s.procs[p := q]));
  }

  /** The holder of the parents lock moves on inside its critical section. */
  lemma HolderInv(s: State, p: nat, pc: Pc)
    requires Inv(s) && s.lock == Some(p) && p < |s.procs| && s.procs[p].state == Running && HoldsParents(pc)
    requires p == s.init ==> pc.WaitScan?
    requires forall c: nat :: ChildOf(s.parents, c, p) ==> Cleared(pc, |s.procs|) <= c
    requires forall c: nat :: c < |s.procs| && ChildOf(s.parents, c, p) && c < Scanned(pc) ==> s.procs[c].state != Zombie
    requires pc.ExitMark? ==> forall q: nat :: q < |s.procs| && ChildOf(s.parents, p, q) ==> !Dormant(s.procs[q])
    requires pc.ExitWakeInit? || !Dormant(s.procs[s.init]) || !WakingInit(s)
    ensures Inv(SetPc(s, p, pc))
  {
    hide Forking, ChildOf;
    var t := SetPc(s, p, pc);
    SamePlaces(s, t, p);
    ForkingKept(s, t);
  }

  function HandedOver(s: State, p: nat, k: nat): State
    requires p < |s.procs| && k < |s.parents|
  {
    SetPc(s.(parents := s.parents[k := Some(s.init)]), p, ExitWakeInit(k))
  }

  lemma HandOverForking(s: State, p: nat, k: nat)
    requires Inv(s) && p < |s.procs| && s.procs[p].pc == ExitReparent(k) && ChildOf(s.parents, k, p)
    ensures Forking(HandedOver(s, p, k))
  {
    var t := HandedOver(s, p, k);
    SameCreates(s.procs, t.procs);
    forall x: nat, c: nat | Creates(s.procs, x, c) ensures c != k {
    }
  }

  lemma HandOverChildren(s: State, p: nat, k: nat)
    requires p < |s.procs| && ChildOf(s.parents, k, p)
    ensures
      var t := HandedOver(s, p, k);
      forall c: nat, x: nat :: ChildOf(t.parents, c, x) <==> if c == k then x == s.init else ChildOf(s.parents, c, x)
  {
  }

  lemma HandOverFamily(s: State, p: nat, k: nat)
    requires Inv(s) && s.lock == Some(p) && p < |s.procs| && s.procs[p].pc == ExitReparent(k)
    requires ChildOf(s.parents, k, p)
    ensures
      var t := HandedOver(s, p, k);
      && Family(t) && Locking(t) && forall q :: 0 <= q < |t.procs| ==> Consistent(t.procs[q])
  {
    hide Forking, Reparented, ParentAwake, NoneMissed, NoLostWakeup;
    HandOverChildren(s, p, k);
    assert k < |s.procs|;
    hide ChildOf;
  }

  lemma HandOverWaits(s: State, p: nat, k: nat)
    requires Inv(s) && s.lock == Some(p) && p < |s.procs| && s.procs[p].pc == ExitReparent(k)
    requires ChildOf(s.parents, k, p)
    ensures
      var t := HandedOver(s, p, k);
      Reparented(t) && ParentAwake(t) && NoneMissed(t) && NoLostWakeup(t)
  {
    hide Forking;
    HandOverChildren(s, p, k);
    hide ChildOf;
  }

  /** reparent: child k of an exiting process now belongs to init, which is still to be woken. */
  lemma HandOverInv(s: State, p: nat, k: nat)
    requires Inv(s) && s.lock == Some(p) && p < |s.procs| && s.procs[p].pc == ExitReparent(k)
    requires ChildOf(s.parents, k, p)
    ensures Inv(HandedOver(s, p, k))
  {
    hide Forking, Family, Locking, Reparented, ParentAwake, NoneMissed, NoLostWakeup, ChildOf;
    HandOverForking(s, p, k);
    HandOverFamily(s, p, k);
    HandOverWaits(s, p, k);
  }

  /** The exiting process, its children gone and its parent awake, becomes a Zombie. */
  lemma ZombieInv(s: State, p: nat)
    requires Inv(s) && s.lock == Some(p) && p < |s.procs| && s.procs[p].pc == ExitMark
    ensures Inv(s.(procs := s.procs[p := s.procs[p].(state := Zombie, pc := Gone)], lock := None))
  {
    hide Forking, ChildOf;
    var t := s.(procs := s.procs[p := s.procs[p].(state := Zombie, pc := Gone)], lock := None);
    SamePlaces(s, t, p);
    ForkingKept(s, t);
  }

  /** The parents lock is taken, at the start of its critical section. */
  lemma EnterInv(s: State, p: nat, pc: Pc)
    requires Inv(s) && s.lock.None? && p < |s.procs| && s.procs[p].state == Running
    requires s.procs[p].pc.Idle? || s.procs[p].pc.WaitSleep?
    requires pc == WaitScan(0, false) || (pc == ExitReparent(0) && p != s.init)
    ensures Inv(SetPc(s, p, pc).(lock := Some(p)))
  {
    hide Forking, ChildOf;
    var t := SetPc(s, p, pc).(lock := Some(p));
    SamePlaces(s, t, p);
    ForkingKept(s, t);
  }

  /** A wait ends, or commits to sleeping after a scan that found no Zombie among its children. */
  lemma LeaveInv(s: State, p: nat, pc: Pc)
    requires Inv(s) && s.lock == Some(p) && p < |s.procs| && s.procs[p].pc.WaitScan?
    requires pc.Idle? || (pc.WaitDoze? && |s.procs| <= s.procs[p].pc.k)
    ensures Inv(SetPc(s, p, pc).(lock := None))
  {
    hide Forking, ChildOf;
    var t := SetPc(s, p, pc).(lock := None);
    SamePlaces(s, t, p);
    ForkingKept(s, t);
  }

  function Reaped(s: State, p: nat, k: nat): State
    requires p < |s.procs| && k < |s.procs| && k < |s.parents|
  {
    SetPc(s.(procs := s.procs[k := Proc(Unused, false, false, Idle)], parents := s.parents[k := None], lock := None), p, Idle)
  }

  lemma ReapForking(s: State, p: nat, k: nat)
    requires Inv(s) && p < |s.procs| && s.procs[p].pc.WaitScan? && k < |s.procs| && s.procs[k].state == Zombie
    ensures Forking(Reaped(s, p, k))
  {
    SameCreates(s.procs, Reaped(s, p, k).procs);
  }

  lemma ReapChildren(s: State, p: nat, k: nat)
    requires p < |s.procs| == |s.parents| && k < |s.procs|
    ensures forall c: nat, x: nat :: ChildOf(Reaped(s, p, k).parents, c, x) <==> c != k && ChildOf(s.parents, c, x)
  {
  }

  lemma ReapFamily(s: State, p: nat, k: nat)
    requires Inv(s) && s.lock == Some(p) && p < |s.procs| && s.procs[p].pc.WaitScan? && s.procs[p].state == Running
    requires ChildOf(s.parents, k, p) && s.procs[k].state == Zombie
    ensures Family(Reaped(s, p, k)) && Locking(Reaped(s, p, k))
  {
    hide Forking, Reparented, ParentAwake, NoneMissed, NoLostWakeup;
    ReapChildren(s, p, k);
  }

  lemma ReapWaits(s: State, p: nat, k: nat)
    requires Inv(s) && s.lock == Some(p) && p < |s.procs| && s.procs[p].pc.WaitScan? && s.procs[p].state == Running
    requires ChildOf(s.parents, k, p) && k < |s.procs| && s.procs[k].state == Zombie
    ensures
      var t := Reaped(s, p, k);
      && Reparented(t) && ParentAwake(t) && NoneMissed(t) && NoLostWakeup(t)
      && forall q :: 0 <= q < |t.procs| ==> Consistent(t.procs[q])
  {
    ReapChildren(s, p, k);
    hide Forking, Family, Locking, ChildOf;
  }

  /** wait reaps a Zombie child. */
  lemma ReapInv(s: State, p: nat, k: nat)
    requires Inv(s) && s.lock == Some(p) && p < |s.procs| && s.procs[p].pc.WaitScan? && s.procs[p].state == Running
    requires ChildOf(s.parents, k, p) && s.procs[k].state == Zombie
    ensures Inv(Reaped(s, p, k))
  {
    hide Forking, Locking, Reparented, ParentAwake, NoneMissed, NoLostWakeup;
    ReapForking(s, p, k);
    ReapFamily(s, p, k);
    ReapWaits(s, p, k);
  }

  lemma DozeOffCore(s: State, p: nat)
    requires Core(s) && At(s, p) && s.procs[p].pc.WaitDoze?
    ensures Core(Do(s, DozeOff(p)))
  {
    hide ChildOf, Family, Locking, Consistent;
    var t := Do(s, DozeOff(p));
    DozeOffFamily(s, p);
    SizesOf(s);
    forall i | 0 <= i < |t.procs| ensures Consistent(t.procs[i]) {
      ConsistentDoze(s.procs[p]);
    }
  }

  lemma SizesOf(s: State)
    requires Family(s)
    ensures |s.parents| == |s.procs| && s.init < |s.procs|
  {
  }

  lemma ConsistentDoze(q: Proc)
    requires Consistent(q)
    ensures Consistent(q.(state := Sleeping, onOwn := true, pc := WaitSleep))
  {
  }

  lemma DozeOffFamily(s: State, p: nat)
    requires Core(s) && At(s, p) && s.procs[p].pc.WaitDoze?
    ensures Family(Do(s, DozeOff(p))) && Locking(Do(s, DozeOff(p)))
  {
    hide ChildOf, Reparented, ParentAwake, NoneMissed, NoLostWakeup;
  }

  lemma DozeOffInv(s: State, p: nat)
    requires Inv(s) && Enabled(s, DozeOff(p))
    ensures Inv(Do(s, DozeOff(p)))
  {
    hide Forking, Core;
    var t := Do(s, DozeOff(p));
    assert |s.parents| == |s.procs| by { InitFacts(s); }
    DozeOffCore(s, p);
    SamePlaces(s, t, p);
    ForkingKept(s, t);
  }

  lemma ForkAllocForking(s: State, p: nat, c: nat)
    requires Inv(s) && Enabled(s, ForkAlloc(p, c))
    ensures Forking(DoFork(s, ForkAlloc(p, c)))
  {
    var t := DoFork(s, ForkAlloc(p, c));
    forall x: nat, y: nat ensures Creates(t.procs, x, y) <==> if x == p then y == c else Creates(s.procs, x, y) {
    }
    assert forall x: nat :: !Creates(s.procs, x, c);
    hide Creates;
  }

  /** The process a fork is creating has no children, and no other fork is creating it. */
  lemma CreatedAlone(s: State, p: nat, c: nat)
    requires Inv(s) && Creates(s.procs, p, c)
    ensures c < |s.procs| && c != p && s.procs[c].state == Used && s.procs[c].pc.Idle? && c != s.init
    ensures forall x: nat :: x < |s.procs| ==> !ChildOf(s.parents, x, c)
    ensures forall x: nat :: x != p ==> !Creates(s.procs, x, c)
  {
  }

  lemma ForkEndForking(s: State, p: nat, c: nat, q: Proc)
    requires Inv(s) && Creates(s.procs, p, c) && q.pc.Idle?
    ensures c < |s.procs| && Forking(SetPc(s.(procs := s.procs[c := q]), p, Idle))
  {
    CreatedAlone(s, p, c);
    var t := SetPc(s.(procs := s.procs[c := q]), p, Idle);
    forall x: nat, y: nat ensures Creates(t.procs, x, y) <==> x != p && Creates(s.procs, x, y) {
    }
    forall x: nat, y: nat | x != p && Creates(s.procs, x, y) ensures y != c && y < |s.procs| && t.procs[y] == s.procs[y] {
    }
  }

  /** A process being created, or given up, changes; it has no children yet. */
  lemma ChildCore(s: State, c: nat, q: Proc)
    requires Core(s) && c < |s.procs| && (s.procs[c].state == Unused || s.procs[c].state == Used)
    requires q.pc.Idle? && (q.state == Unused || q.state == Used || q.state == Runnable)
    requires q.state == Unused ==> s.parents[c].None?
    requires q.state == Runnable ==> s.parents[c].Some?
    ensures Core(s.(procs := s.procs[c := q]))
  {
    assert forall x: nat :: x < |s.procs| ==> !ChildOf(s.parents, x, c);
    hide ChildOf;
  }

  lemma ForkAllocInv(s: State, p: nat, c: nat)
    requires Inv(s) && Enabled(s, ForkAlloc(p, c))
    ensures Inv(DoFork(s, ForkAlloc(p, c)))
  {
    ForkAllocForking(s, p, c);
    hide Forking;
    var q := Proc(Used, false, false, Idle);
    ChildCore(s, c, q);
    EditCore(s.(procs := s.procs[c := q]), p, s.procs[p].(pc := ForkAlloced(c)));
  }

  /** A fork ends: its child is given up, or becomes Runnable. */
  lemma ForkEndInv(s: State, p: nat, c: nat, q: Proc)
    requires Inv(s) && At(s, p) && Creates(s.procs, p, c) && q.pc.Idle?
    requires c < |s.procs| && c != p && s.procs[c].state == Used
    requires (q.state == Unused && s.parents[c].None?) || (q.state == Runnable && s.parents[c].Some?)
    ensures Inv(SetPc(s.(procs := s.procs[c := q]), p, Idle))
  {
    ForkEndForking(s, p, c, q);
    hide Forking;
    ChildCore(s, c, q);
    EditCore(s.(procs := s.procs[c := q]), p, s.procs[p].(pc := Idle));
  }

  lemma ForkFailInv(s: State, p: nat)
    requires Inv(s) && Enabled(s, ForkFail(p))
    ensures Inv(DoFork(s, ForkFail(p)))
  {
    var c := s.procs[p].pc.child;
    assert Creates(s.procs, p, c);
    CreatedAlone(s, p, c);
    hide Core;
    ForkEndInv(s, p, c, Proc(Unused, false, false, Idle));
  }

  lemma ForkReadyInv(s: State, p: nat)
    requires Inv(s) && Enabled(s, ForkReady(p))
    ensures Inv(DoFork(s, ForkReady(p)))
  {
    var c := s.procs[p].pc.child;
    assert Creates(s.procs, p, c);
    CreatedAlone(s, p, c);
    assert ChildOf(s.parents, c, p);
    hide Core;
    ForkEndInv(s, p, c, s.procs[c].(state := Runnable));
  }

  lemma ForkLinkForking(s: State, p: nat, c: nat)
    requires Inv(s) && Enabled(s, ForkLink(p)) && s.procs[p].pc.child == c
    ensures Forking(DoFork(s, ForkLink(p)))
  {
    assert Creates(s.procs, p, c);
    var t := DoFork(s, ForkLink(p));
    forall x: nat, y: nat ensures Creates(t.procs, x, y) <==> Creates(s.procs, x, y) {
    }
  }

  lemma ForkLinkChildren(s: State, p: nat, c: nat)
    requires Enabled(s, ForkLink(p)) && s.procs[p].pc.child == c
    ensures forall y: nat, x: nat :: ChildOf(DoFork(s, ForkLink(p)).parents, y, x) <==> if y == c then x == p else ChildOf(s.parents, y, x)
  {
  }

  lemma ForkLinkFamily(s: State, p: nat, c: nat)
    requires Inv(s) && Enabled(s, ForkLink(p)) && s.procs[p].pc.child == c && c < |s.procs| && s.procs[c].state == Used
    ensures Family(DoFork(s, ForkLink(p))) && Locking(DoFork(s, ForkLink(p)))
  {
    ForkLinkChildren(s, p, c);
    hide Forking, Reparented, ParentAwake, NoneMissed, NoLostWakeup, ChildOf;
  }

  lemma ForkLinkInv(s: State, p: nat)
    requires Inv(s) && Enabled(s, ForkLink(p))
    ensures Inv(DoFork(s, ForkLink(p)))
  {
    var c := s.procs[p].pc.child;
    assert Creates(s.procs, p, c);
    CreatedAlone(s, p, c);
    ForkLinkForking(s, p, c);
    ForkLinkFamily(s, p, c);
    ForkLinkChildren(s, p, c);
    hide Forking, Family, ChildOf;
  }

  lemma ReparentStepInv(s: State, p: nat)
    requires Inv(s) && At(s, p) && s.procs[p].pc.ExitReparent?
    ensures Inv(DoExit(s, p))
  {
    hide Forking, ParentAwake, NoneMissed, NoLostWakeup;
    var k := s.procs[p].pc.k;
    if k >= |s.parents| {
      HolderInv(s, p, ExitWakeParent);
    } else if s.parents[k] == Some(p) {
      HandOverInv(s, p, k);
    } else {
      HolderInv(s, p, ExitReparent(k + 1));
    }
  }

  /** What the invariant says of the holder of the parents lock. */
  lemma HolderFacts(s: State, p: nat)
    requires Inv(s) && p < |s.procs| && HoldsParents(s.procs[p].pc)
    ensures s.lock == Some(p) && s.procs[p].state == Running && |s.parents| == |s.procs|
    ensures forall c: nat :: ChildOf(s.parents, c, p) ==> Cleared(s.procs[p].pc, |s.procs|) <= c
    ensures p == s.init ==> s.procs[p].pc.WaitScan?
    ensures WakingInit(s) <==> s.procs[p].pc.ExitWakeInit?
  {
  }

  lemma InitFacts(s: State)
    requires Inv(s)
    ensures s.init < |s.procs| == |s.parents| && Consistent(s.procs[s.init])
  {
  }

  lemma ParentFacts(s: State, p: nat)
    requires Inv(s) && p < |s.parents| && s.parents[p].Some?
    ensures s.parents[p].value < |s.procs| && Alive(s.procs[s.parents[p].value])
    ensures Consistent(s.procs[s.parents[p].value])
    ensures forall q: nat :: ChildOf(s.parents, p, q) ==> q == s.parents[p].value
  {
    assert ChildOf(s.parents, p, s.parents[p].value);
  }

  lemma WakeInitStepInv(s: State, p: nat)
    requires Inv(s) && At(s, p) && s.procs[p].pc.ExitWakeInit? && ProcLockFree(s, s.init)
    ensures Inv(DoExit(s, p))
  {
    hide Inv, ChildOf;
    HolderFacts(s, p);
    InitFacts(s);
    var q := Woken(s.procs[s.init]);
    var t := s.(procs := s.procs[s.init := q]);
    QuietInv(s, s.init, q);
    HolderFacts(t, p);
    HolderInv(t, p, ExitReparent(s.procs[p].pc.k + 1));
  }

  lemma WakeParentStepInv(s: State, p: nat)
    requires Inv(s) && At(s, p) && s.procs[p].pc.ExitWakeParent? && ExitEnabled(s, p)
    ensures Inv(DoExit(s, p))
  {
    hide Inv, ChildOf;
    HolderFacts(s, p);
    ParentFacts(s, p);
    var q := s.parents[p].value;
    var t := s.(procs := s.procs[q := Woken(s.procs[q])]);
    QuietInv(s, q, Woken(s.procs[q]));
    HolderFacts(t, p);
    HolderInv(t, p, ExitMark);
  }

  lemma ExitStepInv(s: State, p: nat)
    requires Inv(s) && At(s, p) && ExitEnabled(s, p)
    ensures Inv(DoExit(s, p))
  {
    hide Forking, Reparented, ParentAwake, NoneMissed, NoLostWakeup;
    match s.procs[p].pc
    case ExitReparent(k) => ReparentStepInv(s, p);
    case ExitWakeInit(k) => WakeInitStepInv(s, p);
    case ExitWakeParent => WakeParentStepInv(s, p);
    case ExitMark => ZombieInv(s, p);
    case _ =>
  }

  /** The children a scan has passed are not Zombies. */
  lemma ScanFacts(s: State, p: nat)
    requires Inv(s) && p < |s.procs| && s.procs[p].pc.WaitScan?
    ensures forall c: nat :: c < |s.procs| && ChildOf(s.parents, c, p) && c < s.procs[p].pc.k ==> s.procs[c].state != Zombie
  {
  }

  /** The scan moves past index k, which is no Zombie child. */
  lemma ScanNext(s: State, p: nat, kids: bool)
    requires Inv(s) && At(s, p) && s.procs[p].pc.WaitScan?
    requires var k := s.procs[p].pc.k;
             k < |s.procs| && (ChildOf(s.parents, k, p) ==> s.procs[k].state != Zombie)
    ensures Inv(SetPc(s, p, WaitScan(s.procs[p].pc.k + 1, kids)))
  {
    hide Inv, ChildOf;
    HolderFacts(s, p);
    ScanFacts(s, p);
    HolderInv(s, p, WaitScan(s.procs[p].pc.k + 1, kids));
  }

  lemma ScanStepInv(s: State, p: nat)
    requires Inv(s) && At(s, p) && s.procs[p].pc.WaitScan? && WaitEnabled(s, p)
    ensures Inv(DoWait(s, p))
  {
    hide Inv;
    HolderFacts(s, p);
    var k, kids := s.procs[p].pc.k, s.procs[p].pc.kids;
    if k >= |s.procs| {
      LeaveInv(s, p, if !kids || s.procs[p].killed then Idle else WaitDoze);
    } else if s.parents[k] != Some(p) {
      ScanNext(s, p, kids);
    } else if s.procs[k].state == Zombie {
      ReapInv(s, p, k);
    } else {
      ScanNext(s, p, true);
    }
  }

  lemma ResumeStepInv(s: State, p: nat)
    requires Inv(s) && At(s, p) && s.procs[p].pc.WaitSleep? && s.lock.None?
    ensures Inv(DoWait(s, p))
  {
    hide Forking, Reparented, ParentAwake, NoneMissed, NoLostWakeup;
    var q := s.procs[p].(onOwn := false);
    var t := s.(procs := s.procs[p := q]);
    QuietInv(s, p, q);
    hide Core;
    EnterInv(t, p, WaitScan(0, false));
    assert SetPc(t, p, WaitScan(0, false)).procs == DoWait(s, p).procs;
  }

  lemma WaitStepInv(s: State, p: nat)
    requires Inv(s) && At(s, p) && WaitEnabled(s, p)
    ensures Inv(DoWait(s, p))
  {
    hide Core, Forking;
    match s.procs[p].pc
    case WaitScan(_, _) => ScanStepInv(s, p);
    case WaitSleep => ResumeStepInv(s, p);
    case _ =>
  }

  lemma StepInv(s: State, a: Action)
    requires Inv(s) && Enabled(s, a)
    ensures Inv(Do(s, a))
  {
    hide Forking, Reparented, ParentAwake, NoneMissed, NoLostWakeup;
    match a
    case ForkAlloc(p, c) => ForkAllocInv(s, p, c);
    case ForkFail(p) => ForkFailInv(s, p);
    case ForkLink(p) => ForkLinkInv(s, p);
    case ForkReady(p) => ForkReadyInv(s, p);
    case ExitBegin(p) => EnterInv(s, p, ExitReparent(0));
    case ExitStep(p) => ExitStepInv(s, p);
    case WaitBegin(p) => EnterInv(s, p, WaitScan(0, false));
    case WaitStep(p) => WaitStepInv(s, p);
    case DozeOff(p) => DozeOffInv(s, p);
    case SleepOther(p) => QuietInv(s, p, s.procs[p].(state := Sleeping, onOwn := false));
    case WakeOther(p) => QuietInv(s, p, s.procs[p].(state := Runnable));
    case Kill(p) =>
      var q := s.procs[p].(killed := true);
      QuietInv(s, p, if q.state == Sleeping then q.(state := Runnable) else q);
    case Run(p) => QuietInv(s, p, s.procs[p].(state := Running));
    case Yield(p) => QuietInv(s, p, s.procs[p].(state := Runnable));
  }

  // ---------------------------------------------------------------- the theorems

  /** Boot: the init process alone, Runnable and without a parent. */
  predicate Init(s: State) {
    && |s.parents| == |s.procs| && s.init < |s.procs| && s.lock.None?
    && s.procs[s.init] == Proc(Runnable, false, false, Idle)
    && (forall p :: 0 <= p < |s.procs| && p != s.init ==> s.procs[p] == Proc(Unused, false, false, Idle))
    && (forall p :: 0 <= p < |s.procs| ==> s.parents[p].None?)
  }

  lemma InitInv(s: State)
    requires Init(s)
    ensures Inv(s)
  {
  }

  predicate IsRun(run: seq<State>, actions: seq<Action>) {
    && |run| == |actions| + 1 && Init(run[0])
    && forall i :: 0 <= i < |actions| ==> Enabled(run[i], actions[i]) && run[i + 1] == Do(run[i], actions[i])
  }

  lemma {:induction false} RunInv(run: seq<State>, actions: seq<Action>, i: nat)
    requires IsRun(run, actions) && i < |run|
    ensures Inv(run[i])
  {
    hide Do, Enabled, Inv, Init;
    if i == 0 {
      InitInv(run[0]);
    } else {
      RunInv(run, actions, i - 1);
      assert Enabled(run[i - 1], actions[i - 1]) && run[i - 1 + 1] == Do(run[i - 1], actions[i - 1]);
      StepInv(run[i - 1], actions[i - 1]);
    }
  }

  /**
    Over every interleaving of fork, exit, wait, kill and scheduling, whenever the parents lock is
    free: a Zombie has a recorded parent that is alive, and a process asleep in wait, or about to be,
    has no Zombie child.
   */
  lemma ZombiesAreAwaited(run: seq<State>, actions: seq<Action>, i: nat)
    requires IsRun(run, actions) && i < |run| && run[i].lock.None?
    ensures var s := run[i];
            forall z :: 0 <= z < |s.procs| && s.procs[z].state == Zombie ==>
              && z < |s.parents| && s.parents[z].Some? && s.parents[z].value < |s.procs|
              && Alive(s.procs[s.parents[z].value]) && !Dormant(s.procs[s.parents[z].value])
  {
    RunInv(run, actions, i);
    var s := run[i];
    forall z | 0 <= z < |s.procs| && s.procs[z].state == Zombie
      ensures s.parents[z].Some? && s.parents[z].value < |s.procs|
              && Alive(s.procs[s.parents[z].value]) && !Dormant(s.procs[s.parents[z].value])
    {
      assert z != s.init;
      assert ChildOf(s.parents, z, s.parents[z].value);
    }
  }

  /**
    The parents lock is exclusive, an exiting process always has a parent to wake, and when it
    becomes a Zombie none of its children is left with it.
   */
  lemma ExitIsOrderly(run: seq<State>, actions: seq<Action>, i: nat, p: nat)
    requires IsRun(run, actions) && i < |run| && p < |run[i].procs|
    ensures var s := run[i];
            && (HoldsParents(s.procs[p].pc) ==> s.lock == Some(p))
            && (s.procs[p].pc.ExitWakeParent? ==> p < |s.parents| && s.parents[p].Some?)
            && (s.procs[p].pc.ExitMark? || s.procs[p].state == Zombie ==>
                  forall c :: 0 <= c < |s.procs| && c < |s.parents| ==> s.parents[c] != Some(p))
  {
    RunInv(run, actions, i);
    var s := run[i];
    if s.procs[p].pc.ExitMark? || s.procs[p].state == Zombie {
      forall c | 0 <= c < |s.procs| ensures s.parents[c] != Some(p) {
        assert !ChildOf(s.parents, c, p);
      }
    }
  }
}
