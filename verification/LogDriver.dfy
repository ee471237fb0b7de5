/**
  The log as the kernel runs it: the in-memory header, the loops that copy blocks, and the
  decisions of begin_op, end_op, write and recover_from_log.

  Buffers are seen through the block cache: `view` is what a cached read of a block returns, and
  a cache write sends one block of `view` to `disk`. Every such write is recorded in `trace`, whose
  prefixes are the points at which the machine can crash.
*/
module LogDriver {
  import opened RedoLog
  import opened GroupCommit

  datatype EndResult = Committed | StillOpen | WhileCommitting

  datatype WriteResult = Logged | TransactionTooBig | OutsideOfTransaction

  lemma {:induction false} ApplyConcat(d: Disk, a: seq<Put>, b: seq<Put>)
    ensures Apply(Apply(d, a), b) == Apply(d, a + b)
  {
    if b == [] {
      assert a + b == a;
    } else {
      var n := |b| - 1;
      ApplyConcat(d, a, b[..n]);
      assert (a + b)[..|a| + n] == a + b[..n];
    }
  }

  /** The installs of a recovering or committing log: home blocks overwritten from log blocks. */
  function InstallsFrom(start: nat, view: Disk, hdr: seq<nat>): (ws: seq<Put>)
    requires Fits(start, view) && |hdr| <= LOGBLOCKS
    ensures |ws| == |hdr|
  {
    seq(|hdr|, i requires 0 <= i < |hdr| => Put(hdr[i], view[start + 1 + i]))
  }

  lemma ApplyNone(d: Disk)
    ensures Apply(d, []) == d
  {
  }

  lemma LogCopyAt(start: nat, view: Disk, hdr: seq<nat>, i: nat)
    requires GoodList(start, |view|, hdr) && i < |hdr|
    ensures LogCopies(start, view, hdr)[i] == Put(start + 1 + i, view[hdr[i]])
  {
  }

  lemma InstallAt(start: nat, view: Disk, hdr: seq<nat>, i: nat)
    requires Fits(start, view) && |hdr| <= LOGBLOCKS && i < |hdr|
    ensures InstallsFrom(start, view, hdr)[i] == Put(hdr[i], view[start + 1 + i])
  {
  }

  /** Log blocks written so far do not disturb the block about to be copied. */
  lemma CopySource(start: nat, view: Disk, hdr: seq<nat>, tail: nat)
    requires Fits(start, view) && GoodList(start, |view|, hdr) && tail < |hdr|
    ensures var ws := LogCopies(start, view, hdr);
            Apply(view, ws[..tail])[hdr[tail]] == view[hdr[tail]] == ws[tail].data
  {
    hide Apply, Distinct, LogCopies;
    var ws := LogCopies(start, view, hdr)[..tail];
    forall i | 0 <= i < |ws| ensures ws[i].at != hdr[tail] {
      LogCopyAt(start, view, hdr, i);
    }
    ApplyMiss(view, ws, hdr[tail]);
    LogCopyAt(start, view, hdr, tail);
  }

  /** Home blocks installed so far do not disturb the log block about to be copied. */
  lemma InstallSource(start: nat, view: Disk, hdr: seq<nat>, tail: nat)
    requires Fits(start, view) && GoodList(start, |view|, hdr) && tail < |hdr|
    ensures var ws := InstallsFrom(start, view, hdr);
            && hdr[tail] < |view|
            && Apply(view, ws[..tail])[start + tail + 1] == view[start + tail + 1] == ws[tail].data
  {
    hide Apply, Distinct, InstallsFrom;
    var ws := InstallsFrom(start, view, hdr)[..tail];
    forall i | 0 <= i < |ws| ensures ws[i].at != start + tail + 1 {
      InstallAt(start, view, hdr, i);
      assert Home(start, hdr[i]);
    }
    ApplyMiss(view, ws, start + tail + 1);
    InstallAt(start, view, hdr, tail);
  }

  lemma UnpinNext(pins: multiset<nat>, hdr: seq<nat>, tail: nat)
    requires tail < |hdr|
    ensures pins - multiset(hdr[..tail]) - multiset{hdr[tail]} == pins - multiset(hdr[..tail + 1])
  {
    assert hdr[..tail + 1] == hdr[..tail] + [hdr[tail]];
  }

  lemma StageLogAt(start: nat, v: Disk, hdr: seq<nat>, i: nat)
    requires Fits(start, v) && GoodList(start, |v|, hdr) && i < |hdr|
    ensures Apply(v, LogCopies(start, v, hdr))[start + 1 + i] == v[hdr[i]]
  {
    hide Apply;
    ApplyHit(v, LogCopies(start, v, hdr), start + 1 + i, i);
  }

  lemma StageHead(start: nat, v: Disk, hdr: seq<nat>)
    requires Fits(start, v) && GoodList(start, |v|, hdr)
    ensures Apply(v, LogCopies(start, v, hdr))[start] == v[start]
  {
    hide Apply;
    ApplyMiss(v, LogCopies(start, v, hdr), start);
  }

  lemma StageInstallAt(start: nat, v: Disk, hdr: seq<nat>, head: Block, i: nat)
    requires Fits(start, v) && GoodList(start, |v|, hdr) && i < |hdr|
    ensures var v2 := Store(Apply(v, LogCopies(start, v, hdr)), Put(start, head));
            InstallsFrom(start, v2, hdr)[i] == Put(hdr[i], v[hdr[i]])
  {
    hide Apply, LogCopies, InstallsFrom, Distinct, Home;
    var v1 := Apply(v, LogCopies(start, v, hdr));
    StageLogAt(start, v, hdr, i);
    InstallAt(start, Store(v1, Put(start, head)), hdr, i);
  }

  /** Installing from the log blocks just written installs what the cache shows. */
  lemma StageInstalls(start: nat, v: Disk, hdr: seq<nat>, head: Block)
    requires Fits(start, v) && GoodList(start, |v|, hdr)
    ensures var v2 := Store(Apply(v, LogCopies(start, v, hdr)), Put(start, head));
            InstallsFrom(start, v2, hdr) == Installs(start, v, hdr)
  {
    hide Apply, LogCopies, InstallsFrom;
    var v2 := Store(Apply(v, LogCopies(start, v, hdr)), Put(start, head));
    hide GoodList;
    forall i | 0 <= i < |hdr| ensures InstallsFrom(start, v2, hdr)[i] == Put(hdr[i], v[hdr[i]]) {
      StageInstallAt(start, v, hdr, head, i);
    }
  }

  /** Installing leaves the header block alone. */
  lemma StageHeadKept(start: nat, v: Disk, hdr: seq<nat>, v2: Disk)
    requires Fits(start, v) && GoodList(start, |v|, hdr) && |v2| == |v|
    ensures Apply(v2, Installs(start, v, hdr))[start] == v2[start]
  {
    hide Apply;
    ApplyMiss(v2, Installs(start, v, hdr), start);
  }

  /** The writes of the four stages of a commit, each read off the view the previous one left. */
  lemma CommitStages(start: nat, v: Disk, hdr: seq<nat>)
    requires Fits(start, v) && GoodList(start, |v|, hdr) && hdr != []
    ensures var a := LogCopies(start, v, hdr);
            var v1 := Apply(v, a);
            var w1 := Put(start, EncodeHead(v1[start], hdr));
            var v2 := Store(v1, w1);
            var b := InstallsFrom(start, v2, hdr);
            var w2 := Put(start, EncodeHead(Apply(v2, b)[start], []));
            a + [w1] + b + [w2] == CommitWrites(start, v, hdr)
  {
    hide Apply, LogCopies, InstallsFrom, Installs, EncodeHead;
    StageHead(start, v, hdr);
    var head := EncodeHead(v[start], hdr);
    StageInstalls(start, v, hdr, head);
    StageHeadKept(start, v, hdr, Store(Apply(v, LogCopies(start, v, hdr)), Put(start, head)));
  }

  lemma ApplyStages(d: Disk, a: seq<Put>, w1: Put, b: seq<Put>, w2: Put)
    ensures Store(Apply(Store(Apply(d, a), w1), b), w2) == Apply(d, a + [w1] + b + [w2])
  {
    assert Store(Apply(d, a), w1) == Apply(d, a + [w1]) by { ApplyNext(d, a + [w1], |a|); }
    ApplyConcat(d, a + [w1], b);
    var all := a + [w1] + b;
    assert (all + [w2])[..|all|] == all;
  }

  lemma NoWrites(start: nat, v: Disk)
    requires Fits(start, v)
    ensures CommitWrites(start, v, []) == []
  {
  }

  /** A commit brings cache and disk together on every block. */
  lemma {:induction false} ApplyAgree(d: Disk, v: Disk, ws: seq<Put>, b: nat)
    requires |d| == |v| && b < |d|
    requires d[b] == v[b] || exists i :: 0 <= i < |ws| && ws[i].at == b
    ensures Apply(d, ws)[b] == Apply(v, ws)[b]
  {
    var n := |ws| - 1;
    if n >= 0 && ws[n].at != b {
      ApplyAgree(d, v, ws[..n], b);
    }
  }

  lemma CommitJoins(start: nat, d: Disk, v: Disk, hdr: seq<nat>, b: nat)
    requires EmptyLog(start, d) && GoodList(start, |d|, hdr) && AgreeOutside(d, v, hdr) && b < |d|
    ensures var ws := CommitWrites(start, v, hdr);
            Apply(d, ws)[b] == Apply(v, ws)[b]
  {
    hide Apply, CommitWrites, EncodeHead, Distinct, Home;
    var ws := CommitWrites(start, v, hdr);
    if b in hdr {
      var i :| 0 <= i < |hdr| && hdr[i] == b;
      CommitWritesAt(start, v, hdr, |hdr| + 1 + i);
    }
    ApplyAgree(d, v, ws, b);
  }

  /** Everything a finished commit guarantees, for any transaction. */
  lemma CommitOutcome(start: nat, d: Disk, v: Disk, hdr: seq<nat>)
    requires EmptyLog(start, d) && GoodList(start, |d|, hdr) && AgreeOutside(d, v, hdr)
    ensures var ws := CommitWrites(start, v, hdr);
            && EmptyLog(start, Apply(d, ws)) && Apply(d, ws) == Apply(v, ws)
            && SameHome(start, Apply(d, ws), v)
            && forall k :: 0 <= k <= |ws| ==>
                 var p := Apply(d, ws[..k]);
                 && Recoverable(start, p)
                 && SameHome(start, Recovered(start, p), if k <= |hdr| then d else v)
  {
    var ws := CommitWrites(start, v, hdr);
    if hdr == [] { ApplyNone(d); ApplyNone(v); } else { CommitAfter(start, d, v, hdr); }
    hide Apply, CommitWrites, Recovered, Recoverable, SameHome, GoodList;
    forall b | 0 <= b < |d| ensures Apply(d, ws)[b] == Apply(v, ws)[b] {
      CommitJoins(start, d, v, hdr, b);
    }
    forall k | 0 <= k <= |ws|
      ensures var p := Apply(d, ws[..k]);
              Recoverable(start, p) && SameHome(start, Recovered(start, p), if k <= |hdr| then d else v)
    {
      CommitAtomic(start, d, v, hdr, k);
    }
  }

  /** Listing a changed block keeps the list sound and accounts for the change. */
  lemma AbsorbKeeps(start: nat, d: Disk, v: Disk, hdr: seq<nat>, b: nat)
    requires GoodList(start, |d|, hdr) && |hdr| < LOGBLOCKS && b < |d| && Home(start, b)
    requires AgreeOutside(d, v, hdr + [b])
    ensures GoodList(start, |d|, Absorb(hdr, b)) && AgreeOutside(d, v, Absorb(hdr, b))
    ensures multiset(Absorb(hdr, b)) == if b in hdr then multiset(hdr) else multiset(hdr) + multiset{b}
  {
  }

  /** The stages of a recovery: installs, then an empty header over the old one. */
  lemma RecoverStages(start: nat, d: Disk)
    requires Recoverable(start, d)
    ensures var hdr := DecodeHead(d[start]);
            var a := InstallsFrom(start, d, hdr);
            var w := Put(start, EncodeHead(Apply(d, a)[start], []));
            && a + [w] == RecoverWrites(start, d)
            && Store(Apply(d, a), w) == Recovered(start, d)
            && EmptyLog(start, Recovered(start, d))
  {
    var hdr := DecodeHead(d[start]);
    var ws := RecoverWrites(start, d);
    hide Apply, EncodeHead;
    assert InstallsFrom(start, d, hdr) == ws[..|hdr|];
    RecoverPrefixAt(start, d, |hdr|, start);
    ApplyNext(d, ws, |hdr|);
    assert ws[..|hdr| + 1] == ws;
    RecoveredAt(start, d, start);
    HeadRoundTrip(d[start], []);
  }

  class Log {
    const start: nat
    const size: nat
    var outstanding: nat
    var committing: bool
    var n: nat
    const blocks: array<nat>
    var disk: Disk
    var view: Disk
    var pins: multiset<nat>
    ghost var trace: seq<Put>

    ghost predicate Valid()
      reads this, blocks
    {
      && blocks.Length == LOGBLOCKS && n <= LOGBLOCKS && LOGBLOCKS < size
      && Fits(start, disk) && |view| == |disk|
      && GoodList(start, |disk|, blocks[..n])
    }

    /** The log's own view of its blocks is clean and each listed block carries one pin. */
    ghost predicate Quiet()
      reads this, blocks
    {
      Valid() && EmptyLog(start, disk) && AgreeOutside(disk, view, blocks[..n]) && pins == multiset(blocks[..n])
    }

    /** The log at boot, over a disk whose blocks are not cached yet. */
    constructor (start: nat, size: nat, disk: Disk)
      requires LOGBLOCKS < size && Fits(start, disk)
      ensures Valid() && this.start == start && this.size == size && this.disk == view == disk
      ensures n == 0 && outstanding == 0 && !committing && pins == multiset{} && trace == [] && fresh(blocks)
    {
      this.start, this.size, this.disk, this.view := start, size, disk, disk;
      outstanding, committing, n, pins, trace := 0, false, 0, multiset{}, [];
      blocks := new nat[LOGBLOCKS](_ => 0);
    }

    /** Copies `data` into the buffer of block b and writes the buffer to disk. */
    method WriteThrough(b: nat, data: Block)
      requires b < |disk| == |view|
      modifies this`disk, this`view, this`trace
      ensures disk == Store(old(disk), Put(b, data)) && view == Store(old(view), Put(b, data))
      ensures trace == old(trace) + [Put(b, data)]
    {
      view := view[b := data];
      disk := disk[b := view[b]];
      trace := trace + [Put(b, data)];
    }

    method WriteLog()
      requires Valid()
      modifies this`disk, this`view, this`trace
      ensures Valid()
      ensures var ws := LogCopies(start, old(view), blocks[..n]);
              disk == Apply(old(disk), ws) && view == Apply(old(view), ws) && trace == old(trace) + ws
    {
      hide Apply, LogCopies;
      ghost var hdr := blocks[..n];
      ghost var ws := LogCopies(start, view, hdr);
      assert ws[..0] == [];
      ApplyNone(disk);
      ApplyNone(view);
      for tail := 0 to n
        invariant |disk| == |view| == |old(disk)|
        invariant disk == Apply(old(disk), ws[..tail]) && view == Apply(old(view), ws[..tail])
        invariant trace == old(trace) + ws[..tail]
      {
        CopySource(start, old(view), hdr, tail);
        LogCopyAt(start, old(view), hdr, tail);
        ApplyNext(old(disk), ws, tail);
        ApplyNext(old(view), ws, tail);
        WriteThrough(start + tail + 1, view[blocks[tail]]);
        assert ws[..tail + 1] == ws[..tail] + [ws[tail]];
      }
      assert ws[..n] == ws;
    }

    method WriteHead()
      requires Valid()
      modifies this`disk, this`view, this`trace
      ensures Valid()
      ensures var w := Put(start, EncodeHead(old(view)[start], blocks[..n]));
              disk == Store(old(disk), w) && view == Store(old(view), w) && trace == old(trace) + [w]
    {
      var head := view[start][0 := n];
      for i := 0 to n
        invariant head == [n] + blocks[..i] + old(view)[start][1 + i..]
      {
        head := head[1 + i := blocks[i]];
      }
      WriteThrough(start, head);
    }

    /** Copies committed blocks from the log to their home locations. */
    method InstallTrans(recovering: bool)
      requires Valid()
      modifies this`disk, this`view, this`trace, this`pins
      ensures Valid()
      ensures var ws := InstallsFrom(start, old(view), blocks[..n]);
              disk == Apply(old(disk), ws) && view == Apply(old(view), ws) && trace == old(trace) + ws
      ensures pins == if recovering then old(pins) else old(pins) - multiset(blocks[..n])
    {
      hide Apply, InstallsFrom, GoodList;
      ghost var hdr := blocks[..n];
      ghost var ws := InstallsFrom(start, view, hdr);
      assert ws[..0] == [];
      ApplyNone(disk);
      ApplyNone(view);
      for tail := 0 to n
        invariant |disk| == |view| == |old(disk)|
        invariant disk == Apply(old(disk), ws[..tail]) && view == Apply(old(view), ws[..tail])
        invariant trace == old(trace) + ws[..tail]
        invariant recovering ==> pins == old(pins)
        invariant !recovering ==> pins == old(pins) - multiset(hdr[..tail])
      {
        InstallSource(start, old(view), hdr, tail);
        InstallAt(start, old(view), hdr, tail);
        ApplyNext(old(disk), ws, tail);
        ApplyNext(old(view), ws, tail);
        WriteThrough(blocks[tail], view[start + tail + 1]);
        if !recovering {
          UnpinNext(old(pins), hdr, tail);
          pins := pins - multiset{blocks[tail]};
        }
        assert ws[..tail + 1] == ws[..tail] + [ws[tail]];
      }
      assert ws[..n] == ws && hdr[..n] == hdr;
    }

    /** Reads the header; fails, as the out-of-bounds index does, on a count the array cannot hold. */
    method ReadHead() returns (ok: bool)
      requires blocks.Length == LOGBLOCKS && Fits(start, view)
      modifies this`n, blocks
      ensures ok == HeadOk(view[start])
      ensures ok ==> n == view[start][0] && blocks[..n] == DecodeHead(view[start])
      ensures !ok ==> n == old(n)
    {
      if view[start][0] > LOGBLOCKS {
        return false;
      }
      n := view[start][0];
      for i := 0 to n
        invariant n == view[start][0] && blocks[..i] == view[start][1..1 + i]
      {
        blocks[i] := view[start][1 + i];
      }
      ok := true;
    }

    /** The body of a commit: log blocks, header, home blocks, empty header. */
    method WriteTransaction()
      requires Valid() && n > 0
      modifies this`disk, this`view, this`trace, this`pins, this`n
      ensures n == 0 && |disk| == |view| == |old(disk)|
      ensures var ws := CommitWrites(start, old(view), old(blocks[..n]));
              trace == old(trace) + ws && disk == Apply(old(disk), ws) && view == Apply(old(view), ws)
      ensures pins == old(pins) - multiset(old(blocks[..n]))
    {
      hide Apply, CommitWrites, LogCopies, InstallsFrom, EncodeHead;
      ghost var d0, v0, hdr := disk, view, blocks[..n];
      ghost var a := LogCopies(start, v0, hdr);
      ghost var w1 := Put(start, EncodeHead(Apply(v0, a)[start], hdr));
      ghost var v2 := Store(Apply(v0, a), w1);
      ghost var b := InstallsFrom(start, v2, hdr);
      ghost var w2 := Put(start, EncodeHead(Apply(v2, b)[start], []));
      WriteLog();
      WriteHead();
      InstallTrans(false);
      n := 0;
      assert blocks[..n] == [];
      WriteHead();
      CommitStages(start, v0, hdr);
      ApplyStages(d0, a, w1, b, w2);
      ApplyStages(v0, a, w1, b, w2);
    }

    /** Commits the current transaction; every crash point is a prefix of the writes it appends. */
    method Commit()
      requires Quiet()
      modifies this`disk, this`view, this`trace, this`pins, this`n
      ensures Quiet() && n == 0
      ensures var ws := CommitWrites(start, old(view), old(blocks[..n]));
              && trace == old(trace) + ws && disk == Apply(old(disk), ws)
              && SameHome(start, view, old(view)) && SameHome(start, disk, old(view))
              && forall k :: 0 <= k <= |ws| ==>
                   var p := Apply(old(disk), ws[..k]);
                   && Recoverable(start, p)
                   && SameHome(start, Recovered(start, p), if k <= old(n) then old(disk) else old(view))
    {
      hide Apply, CommitWrites, Recovered, SameHome;
      ghost var d0, v0, hdr := disk, view, blocks[..n];
      if n > 0 {
        WriteTransaction();
      } else {
        assert hdr == [];
        NoWrites(start, v0);
        ApplyNone(d0);
        ApplyNone(v0);
      }
      CommitOutcome(start, d0, v0, hdr);
      assert blocks[..n] == [];
    }

    /** Recovers at boot, when nothing is cached: installs a committed transaction and erases it. */
    method RecoverFromLog()
      requires Valid() && view == disk && Recoverable(start, disk) && pins == multiset{}
      modifies this`disk, this`view, this`trace, this`pins, this`n, blocks
      ensures Quiet() && n == 0
      ensures disk == view == Recovered(start, old(disk))
      ensures trace == old(trace) + RecoverWrites(start, old(disk))
    {
      hide Apply, EncodeHead, InstallsFrom, RecoverWrites, Recovered;
      ghost var d0 := disk;
      RecoverStages(start, d0);
      var ok := ReadHead();
      assert blocks[..n] == DecodeHead(d0[start]);
      InstallTrans(true);
      n := 0;
      assert blocks[..n] == [];
      WriteHead();
    }

    /** Lists block b, absorbing a block that is listed already; a new block is pinned. */
    method Record(b: nat)
      requires n < blocks.Length
      modifies this`n, this`pins, blocks
      ensures n <= blocks.Length && blocks[..n] == Absorb(old(blocks[..n]), b)
      ensures pins == if b in old(blocks[..n]) then old(pins) else old(pins) + multiset{b}
    {
      ghost var hdr := blocks[..n];
      var i := 0;
      while i < n
        invariant i <= n && b !in hdr[..i]
      {
        if blocks[i] == b {
          break;
        }
        i := i + 1;
      }
      blocks[i] := b;
      if i == n {
        pins := pins + multiset{b};
        n := n + 1;
        assert hdr[..i] == hdr && blocks[..n] == hdr + [b];
      } else {
        assert b == hdr[i] && blocks[..n] == hdr;
      }
    }

    /**
      Records that the caller has changed block b. The guard on the header runs before the scan for
      absorption; a block that is listed for the first time is pinned.
     */
    method Write(b: nat) returns (r: WriteResult)
      requires Valid() && b < |disk| && Home(start, b)
      requires EmptyLog(start, disk) && AgreeOutside(disk, view, blocks[..n] + [b]) && pins == multiset(blocks[..n])
      modifies this`n, this`pins, blocks
      ensures r.TransactionTooBig? <==> old(n) >= LOGBLOCKS || old(n) >= size - 1
      ensures r.OutsideOfTransaction? <==> !r.TransactionTooBig? && outstanding < 1
      ensures r.Logged? ==> Quiet() && blocks[..n] == Absorb(old(blocks[..n]), b)
      ensures !r.Logged? ==> n == old(n) && blocks[..] == old(blocks[..]) && pins == old(pins)
    {
      if n >= LOGBLOCKS || n >= size - 1 {
        return TransactionTooBig;
      }
      if outstanding < 1 {
        return OutsideOfTransaction;
      }
      hide EmptyLog, GoodList, AgreeOutside, Home;
      AbsorbKeeps(start, disk, view, blocks[..n], b);
      Record(b);
      r := Logged;
    }

    /** One attempt to begin an operation; the caller sleeps and retries when it is not admitted. */
    method BeginOp() returns (admitted: bool)
      modifies this`outstanding
      ensures admitted <==> !committing && n + (old(outstanding) + 1) * MAXOPBLOCKS <= LOGBLOCKS
      ensures outstanding == if admitted then old(outstanding) + 1 else old(outstanding)
    {
      if committing {
        admitted := false;
      } else if n + (outstanding + 1) * MAXOPBLOCKS > LOGBLOCKS {
        admitted := false;
      } else {
        outstanding := outstanding + 1;
        admitted := true;
      }
    }

    /**
      Ends an operation; the last one out commits everything logged since the previous commit. It
      panics if a commit is in progress, which group commit rules out.
     */
    method EndOp() returns (r: EndResult)
      requires outstanding >= 1 && (!committing ==> Quiet())
      modifies this`outstanding, this`committing, this`disk, this`view, this`trace, this`pins, this`n
      ensures outstanding == old(outstanding) - 1 && committing == old(committing)
      ensures r.WhileCommitting? <==> old(committing)
      ensures r.Committed? <==> !old(committing) && old(outstanding) == 1
      ensures !r.WhileCommitting? ==> Quiet() && SameHome(start, view, old(view))
      ensures r.Committed? ==> n == 0 && SameHome(start, disk, view)
      ensures !r.Committed? ==> n == old(n) && disk == old(disk) && view == old(view) && trace == old(trace)
    {
      hide Apply, CommitWrites, Recovered, Recoverable, EmptyLog, GoodList, AgreeOutside;
      outstanding := outstanding - 1;
      if committing {
        return WhileCommitting;
      }
      if outstanding > 0 {
        return StillOpen;
      }
      committing := true;
      Commit();
      committing := false;
      r := Committed;
    }
  }
}
