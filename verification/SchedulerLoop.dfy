/** The loops of the scheduler over the process table, proved to perform the steps of StrideScheduler. */
module SchedulerLoop {
  import opened StrideScheduler

  class ProcTable {
    const table: array<Proc>
    var current: Option<nat>

    constructor (n: nat)
      ensures table.Length == n && fresh(table) && current == None
      ensures forall i :: 0 <= i < n ==> table[i] == Proc(Unused, 0, 10, 0, LARGE_NUMBER / 10, 0)
    {
      table := new Proc[n](_ => Proc(Unused, 0, 10, 0, LARGE_NUMBER / 10, 0));
      current := None;
    }

    /** The process this hart is running, if any, is the only Running one. */
    ghost predicate Valid()
      reads this, table
    {
      && OneRunning(table[..]) && StridesOk(table[..])
      && (current.Some? ==> IsRunning(table[..], current.value))
      && (current.None? ==> !HasRunning(table[..]))
    }

    /** Subtracts the baseline from every pass. */
    method SubtractAll(baseline: nat)
      modifies table
      ensures table[..] == Normalize(old(table[..]), baseline)
    {
      for i := 0 to table.Length
        invariant forall j :: 0 <= j < i ==> table[j] == old(table[j]).(pass := SaturatingSub(old(table[j]).pass, baseline))
        invariant forall j :: i <= j < table.Length ==> table[j] == old(table[j])
      {
        table[i] := table[i].(pass := SaturatingSub(table[i].pass, baseline));
      }
    }

    /**
      The scheduler loop up to a context switch: starts the first Runnable process with the least
      pass, after at most one normalization, or finds nothing to run.
     */
    method Dispatch() returns (chosen: Option<nat>, retries: nat)
      requires Valid() && current.None?
      modifies table, this`current
      ensures Valid() && retries <= 1 && current == chosen
      ensures chosen.None? <==> !HasRunnable(old(table[..]))
      ensures chosen.None? ==> table[..] == old(table[..])
      ensures chosen.Some? ==> Enabled(old(table[..]), StrideScheduler.Dispatch)
      ensures chosen.Some? ==> table[..] == Real(old(table[..]), StrideScheduler.Dispatch)
      ensures chosen.Some? ==> chosen == MinPass(old(table[..]), RUNNABLE, table.Length)
    {
      ghost var t := table[..];
      retries := 0;
      while true
        invariant retries <= 1 && current.None? && !HasRunning(table[..]) && StridesOk(table[..])
        invariant retries == 0 ==> table[..] == t
        invariant retries == 1 ==> HasRunnable(t) && Settled(t, table[..])
        decreases 1 - retries
      {
        var m := MinPass(table[..], RUNNABLE, table.Length);
        if m.None? {
          assert retries == 0;
          return None, 0;
        }
        var i := m.value;
        if table[i].pass + table[i].stride > MAX_PASS {
          assert retries == 0;
          var b := MinPass(table[..], ACTIVE, table.Length);
          NormalizeSettles(t);
          SubtractAll(table[b.value].pass);
          retries := retries + 1;
        } else {
          assert t[i].state == Runnable;
          table[i] := table[i].(state := Running);
          current := Some(i);
          StartReal(t, i, retries, table[..]);
          return Some(i), retries;
        }
      }
    }

    /** The running process gives up the hart, having changed its state, and is charged its stride. */
    method SwitchOut(next: ProcState, chan: nat)
      requires Valid() && current.Some? && next != Running
      modifies table, this`current
      ensures Valid() && current.None?
      ensures var r := old(current).value;
              table[..] == old(table[..])[r := old(table[r]).(state := next, chan := chan,
                pass := (old(table[r]).pass + old(table[r]).stride) % (MAX_PASS + 1), nSchedule := old(table[r]).nSchedule + 1)]
    {
      var r := current.value;
      table[r] := table[r].(state := next, chan := chan);
      table[r] := table[r].(pass := (table[r].pass + table[r].stride) % (MAX_PASS + 1));
      table[r] := table[r].(nSchedule := table[r].nSchedule + 1);
      current := None;
    }

    /** Makes every sleeper on the channel Runnable, no further behind than the baseline. */
    method Wakeup(chan: nat)
      requires Valid()
      modifies table
      ensures Valid() && table[..] == Wake(old(table[..]), chan, Baseline(old(table[..]), current))
    {
      ghost var t := table[..];
      var m := MinPass(table[..], RUNNABLE, table.Length);
      var baseline := if m.Some? then Some(table[m.value].pass) else if current.Some? then Some(table[current.value].pass) else None;
      for i := 0 to table.Length
        invariant forall j :: 0 <= j < i ==> table[j] == WakeOne(t[j], chan, baseline)
        invariant forall j :: i <= j < table.Length ==> table[j] == t[j]
      {
        if current != Some(i) && table[i].state == Sleeping && table[i].chan == chan {
          if baseline.Some? {
            table[i] := table[i].(pass := if table[i].pass < baseline.value then baseline.value else table[i].pass);
          }
          table[i] := table[i].(state := Runnable);
        }
      }
      assert table[..] == Wake(t, chan, baseline);
      if HasRunning(table[..]) { assert t[Current(table[..])].state == Running; }
    }

    method SetTickets(id: nat, tickets: nat) returns (ok: bool)
      requires Valid() && id < table.Length
      modifies table
      ensures Valid() && ok == TicketsAccepted(tickets)
      ensures ok ==> table[..] == old(table[..])[id := old(table[id]).(tickets := tickets, stride := LARGE_NUMBER / tickets)]
      ensures ok ==> table[id].stride * table[id].tickets == LARGE_NUMBER
      ensures !ok ==> table[..] == old(table[..])
    {
      if 10 <= tickets <= 150 && tickets % 10 == 0 {
        StrideExact(tickets);
        table[id] := table[id].(tickets := tickets, stride := LARGE_NUMBER / tickets);
        ok := true;
        if HasRunning(table[..]) { assert old(table[..])[Current(table[..])].state == Running; }
      } else {
        ok := false;
      }
    }
  }

  /** One normalization has left a process with pass zero to be chosen, the one chosen before. */
  predicate Settled(t: Table, s: Table)
    requires HasRunnable(t)
  {
    && s == Turn(t) && |s| == |t| && HasRunnable(s)
    && MinPass(s, RUNNABLE, |s|) == MinPass(t, RUNNABLE, |t|)
    && Overflows(t[MinPass(t, RUNNABLE, |t|).value])
    && s[MinPass(s, RUNNABLE, |s|).value].pass == 0
  }

  lemma NormalizeSettles(t: Table)
    requires HasRunnable(t) && !HasRunning(t) && StridesOk(t) && Overflows(t[MinPass(t, RUNNABLE, |t|).value])
    ensures MinPass(t, ACTIVE, |t|).Some?
    ensures Settled(t, Normalize(t, t[MinPass(t, ACTIVE, |t|).value].pass))
    ensures !HasRunning(Normalize(t, t[MinPass(t, ACTIVE, |t|).value].pass))
    ensures StridesOk(Normalize(t, t[MinPass(t, ACTIVE, |t|).value].pass))
  {
    var i, k := MinPass(t, RUNNABLE, |t|).value, MinPass(t, ACTIVE, |t|).value;
    assert FirstMin(t, RUNNABLE, |t|, i) && FirstMin(t, ACTIVE, |t|, k);
    var s := Normalize(t, t[k].pass);
    assert s[i].state == Runnable && s[i].pass == 0;
    var j := MinPass(s, RUNNABLE, |s|).value;
    assert FirstMin(s, RUNNABLE, |s|, j);
    assert t[j].state == Runnable;
  }

  lemma StartReal(t: Table, i: nat, retries: nat, s: Table)
    requires HasRunnable(t) && !HasRunning(t) && StridesOk(t) && retries <= 1 && i < |t|
    requires MinPass(t, RUNNABLE, |t|) == Some(i)
    requires retries == 0 ==> !Overflows(t[i]) && s == Start(t, i)
    requires retries == 1 ==> Settled(t, Turn(t)) && s == Start(Turn(t), i)
    ensures s == Real(t, StrideScheduler.Dispatch)
    ensures OneRunning(s) && IsRunning(s, i) && StridesOk(s)
  {
    assert s[i].state == Running;
    if retries == 1 {
      assert !HasRunning(Turn(t));
    }
  }
}
