/**
  On-disk format of the redo log and the block writes that a commit and a recovery issue.

  The log area starts at block `start`: a header block, followed by LOGBLOCKS log blocks.
  A block is a sequence of 32-bit words, the granularity at which the header is read and written.
*/
module RedoLog {

  const BLOCK_WORDS: nat := 256
  const MAXOPBLOCKS: nat := 10
  const LOGBLOCKS: nat := 30

  type Block = b: seq<nat> | |b| == BLOCK_WORDS witness seq(BLOCK_WORDS, _ => 0)
  type Disk = seq<Block>

  /** One block write reaching the disk. A single block write is atomic. */
  datatype Put = Put(at: nat, data: Block)

  function Store(d: Disk, w: Put): (r: Disk)
    ensures |r| == |d|
  {
    if w.at < |d| then d[w.at := w.data] else d
  }

  /** The disk after a sequence of block writes. */
  function Apply(d: Disk, ws: seq<Put>): (r: Disk)
    ensures |r| == |d|
  {
    if ws == [] then d else Store(Apply(d, ws[..|ws| - 1]), ws[|ws| - 1])
  }

  /** Blocks outside of the log area: the ones a transaction may update. */
  predicate Home(start: nat, b: nat) {
    b < start || start + LOGBLOCKS < b
  }

  /** The disk is large enough to hold the log area. */
  predicate Fits(start: nat, d: Disk) {
    start + LOGBLOCKS < |d|
  }

  predicate Distinct(s: seq<nat>) {
    forall i, j :: 0 <= i < j < |s| ==> s[i] != s[j]
  }

  /** Block lists a header may hold: pairwise different home blocks, as many as fit in the log. */
  predicate GoodList(start: nat, size: nat, hdr: seq<nat>) {
    && |hdr| <= LOGBLOCKS
    && Distinct(hdr)
    && forall i :: 0 <= i < |hdr| ==> Home(start, hdr[i]) && hdr[i] < size
  }

  /** The header block after writing count and block numbers over its previous contents. */
  function EncodeHead(prev: Block, hdr: seq<nat>): (b: Block)
    requires |hdr| <= LOGBLOCKS
  {
    [|hdr|] + hdr + prev[1 + |hdr|..]
  }

  predicate HeadOk(b: Block) {
    b[0] <= LOGBLOCKS
  }

  function DecodeHead(b: Block): (hdr: seq<nat>)
    requires HeadOk(b)
  {
    b[1..1 + b[0]]
  }

  lemma HeadRoundTrip(prev: Block, hdr: seq<nat>)
    requires |hdr| <= LOGBLOCKS
    ensures HeadOk(EncodeHead(prev, hdr))
    ensures DecodeHead(EncodeHead(prev, hdr)) == hdr
    ensures forall k :: 1 + |hdr| <= k < |prev| ==> EncodeHead(prev, hdr)[k] == prev[k]
  {
  }

  /** Writing an empty header twice is the same as writing it once. */
  lemma ClearIdempotent(prev: Block)
    ensures EncodeHead(EncodeHead(prev, []), []) == EncodeHead(prev, [])
  {
  }

  // ---------------------------------------------------------------- commit and recovery

  /** Copies of the modified blocks into the log blocks. */
  function LogCopies(start: nat, view: Disk, hdr: seq<nat>): (ws: seq<Put>)
    requires GoodList(start, |view|, hdr)
    ensures |ws| == |hdr|
  {
    seq(|hdr|, i requires 0 <= i < |hdr| => Put(start + 1 + i, view[hdr[i]]))
  }

  /** Copies of the modified blocks to their home locations. */
  function Installs(start: nat, view: Disk, hdr: seq<nat>): (ws: seq<Put>)
    requires GoodList(start, |view|, hdr)
    ensures |ws| == |hdr|
  {
    seq(|hdr|, i requires 0 <= i < |hdr| => Put(hdr[i], view[hdr[i]]))
  }

  /** All block writes of a commit, in order, when the cache shows `view`. */
  function CommitWrites(start: nat, view: Disk, hdr: seq<nat>): (ws: seq<Put>)
    requires Fits(start, view) && GoodList(start, |view|, hdr)
    ensures |ws| == if hdr == [] then 0 else 2 * |hdr| + 2
  {
    if hdr == [] then [] else
      var full := EncodeHead(view[start], hdr);
      LogCopies(start, view, hdr) + [Put(start, full)] +
      Installs(start, view, hdr) + [Put(start, EncodeHead(full, []))]
  }

  /** A disk whose header can be recovered from. */
  predicate Recoverable(start: nat, d: Disk) {
    && Fits(start, d)
    && HeadOk(d[start])
    && GoodList(start, |d|, DecodeHead(d[start]))
  }

  /** All block writes of a recovery, in order, starting from disk `d`. */
  function RecoverWrites(start: nat, d: Disk): (ws: seq<Put>)
    requires Recoverable(start, d)
    ensures |ws| == d[start][0] + 1
  {
    var hdr := DecodeHead(d[start]);
    seq(|hdr|, i requires 0 <= i < |hdr| => Put(hdr[i], d[start + 1 + i])) +
    [Put(start, EncodeHead(d[start], []))]
  }

  /** The disk that a recovery running to completion leaves. */
  function Recovered(start: nat, d: Disk): (r: Disk)
    requires Recoverable(start, d)
    ensures |r| == |d|
  {
    Apply(d, RecoverWrites(start, d))
  }

  // ---------------------------------------------------------------- reading a disk after writes

  lemma {:induction false} ApplyMiss(d: Disk, ws: seq<Put>, b: nat)
    requires b < |d|
    requires forall i :: 0 <= i < |ws| ==> ws[i].at != b
    ensures Apply(d, ws)[b] == d[b]
  {
    if ws != [] {
      ApplyMiss(d, ws[..|ws| - 1], b);
    }
  }

  /** The last write to a block decides what is read back from it. */
  lemma {:induction false} ApplyHit(d: Disk, ws: seq<Put>, b: nat, i: nat)
    requires b < |d| && i < |ws| && ws[i].at == b
    requires forall j :: i < j < |ws| ==> ws[j].at != b
    ensures Apply(d, ws)[b] == ws[i].data
  {
    if i < |ws| - 1 {
      ApplyHit(d, ws[..|ws| - 1], b, i);
    }
  }

  /** Contents of every block after a recovery: logged blocks from the log, the rest untouched. */
  lemma RecoveredAt(start: nat, d: Disk, b: nat)
    requires Recoverable(start, d) && b < |d|
    ensures var hdr := DecodeHead(d[start]);
            && (b == start ==> Recovered(start, d)[b] == EncodeHead(d[start], []))
            && (b != start && b !in hdr ==> Recovered(start, d)[b] == d[b])
            && (forall i :: 0 <= i < |hdr| && hdr[i] == b ==> Recovered(start, d)[b] == d[start + 1 + i])
  {
    var hdr := DecodeHead(d[start]);
    var ws := RecoverWrites(start, d);
    if b == start {
      ApplyHit(d, ws, b, |hdr|);
    } else if b !in hdr {
      ApplyMiss(d, ws, b);
    } else {
      forall i | 0 <= i < |hdr| && hdr[i] == b
        ensures Recovered(start, d)[b] == d[start + 1 + i]
      {
        ApplyHit(d, ws, b, i);
      }
    }
  }

  /** Contents of every block after the first k writes of a recovery. */
  lemma RecoverPrefixAt(start: nat, d: Disk, k: nat, b: nat)
    requires Recoverable(start, d) && b < |d| && k <= d[start][0]
    ensures var hdr := DecodeHead(d[start]);
            var p := Apply(d, RecoverWrites(start, d)[..k]);
            && (b !in hdr ==> p[b] == d[b])
            && (forall i :: 0 <= i < |hdr| && hdr[i] == b ==> p[b] == if i < k then d[start + 1 + i] else d[b])
  {
    var hdr := DecodeHead(d[start]);
    var ws := RecoverWrites(start, d)[..k];
    if b !in hdr {
      ApplyMiss(d, ws, b);
    } else {
      forall i | 0 <= i < |hdr| && hdr[i] == b
        ensures Apply(d, ws)[b] == if i < k then d[start + 1 + i] else d[b]
      {
        if i < k { ApplyHit(d, ws, b, i); } else { ApplyMiss(d, ws, b); }
      }
    }
  }

  /** A completed recovery leaves nothing to recover. */
  lemma RecoveredStays(start: nat, d: Disk)
    requires Recoverable(start, d)
    ensures Recoverable(start, Recovered(start, d))
    ensures Recovered(start, Recovered(start, d)) == Recovered(start, d)
  {
    hide Recovered, Apply, RecoverWrites, EncodeHead;
    var p := Recovered(start, d);
    RecoveredAt(start, d, start);
    HeadRoundTrip(d[start], []);
    ClearIdempotent(d[start]);
    forall b | 0 <= b < |d| ensures Recovered(start, p)[b] == p[b] {
      RecoveredAt(start, p, b);
    }
  }

  /** Recovering an interrupted recovery, block by block. */
  lemma RestartAt(start: nat, d: Disk, k: nat, b: nat)
    requires Recoverable(start, d) && k <= d[start][0] && b < |d|
    requires
      var p := Apply(d, RecoverWrites(start, d)[..k]);
      Recoverable(start, p) && p[start] == d[start]
    ensures Recovered(start, Apply(d, RecoverWrites(start, d)[..k]))[b] == Recovered(start, d)[b]
  {
    hide Recovered, Apply, RecoverWrites, EncodeHead, Distinct, Home;
    var hdr := DecodeHead(d[start]);
    var p := Apply(d, RecoverWrites(start, d)[..k]);
    if b in hdr {
      var i :| 0 <= i < |hdr| && hdr[i] == b;
      LogCopyKept(start, d, k, i);
      RecoveredEntry(start, d, i);
      RecoveredEntry(start, p, i);
    } else {
      RecoveredAt(start, d, b);
      RecoveredAt(start, p, b);
      RecoverPrefixAt(start, d, k, b);
    }
  }

  /** A listed block is recovered from its log copy. */
  lemma RecoveredEntry(start: nat, d: Disk, i: nat)
    requires Recoverable(start, d) && i < d[start][0]
    ensures
      var b := DecodeHead(d[start])[i];
      b < |d| && start + 1 + i < |d| && Recovered(start, d)[b] == d[start + 1 + i]
  {
    hide Recovered, EncodeHead, Distinct;
    RecoveredAt(start, d, DecodeHead(d[start])[i]);
  }

  /** A recovery leaves the log copies alone. */
  lemma LogCopyKept(start: nat, d: Disk, k: nat, i: nat)
    requires Recoverable(start, d) && k <= d[start][0] && i < d[start][0]
    ensures start + 1 + i < |d| && Apply(d, RecoverWrites(start, d)[..k])[start + 1 + i] == d[start + 1 + i]
  {
    hide Apply, RecoverWrites, Distinct;
    LogNotHome(start, d, start + 1 + i);
    RecoverPrefixAt(start, d, k, start + 1 + i);
  }

  /**
    Recovery can be interrupted: after a crash between any two of its block writes the disk is
    still recoverable, and recovering it gives the same disk as an undisturbed recovery.
   */
  lemma RecoveryRestarts(start: nat, d: Disk, k: nat)
    requires Recoverable(start, d) && k <= |RecoverWrites(start, d)|
    ensures Recoverable(start, Apply(d, RecoverWrites(start, d)[..k]))
    ensures Recovered(start, Apply(d, RecoverWrites(start, d)[..k])) == Recovered(start, d)
  {
    hide Apply, RecoverWrites, EncodeHead;
    var ws := RecoverWrites(start, d);
    if k == |ws| {
      assert ws[..k] == ws;
      RecoveredStays(start, d);
    } else {
      var p := Apply(d, ws[..k]);
      RecoverPrefixAt(start, d, k, start);
      LogNotHome(start, d, start);
      assert p[start] == d[start];
      forall b | 0 <= b < |d| ensures Recovered(start, p)[b] == Recovered(start, d)[b] {
        RestartAt(start, d, k, b);
      }
    }
  }

  /** Blocks of the log area are never listed in the header. */
  lemma LogNotHome(start: nat, d: Disk, b: nat)
    requires Recoverable(start, d) && start <= b <= start + LOGBLOCKS
    ensures b !in DecodeHead(d[start])
  {
  }

  // ---------------------------------------------------------------- crash atomicity of one commit

  /** A disk with no committed transaction in its log. */
  predicate EmptyLog(start: nat, d: Disk) {
    Recoverable(start, d) && d[start][0] == 0
  }

  /** The cache agrees with the disk outside of the blocks listed in `hdr`. */
  predicate AgreeOutside(d: Disk, view: Disk, hdr: seq<nat>) {
    |view| == |d| && forall b :: 0 <= b < |d| && b !in hdr ==> view[b] == d[b]
  }

  predicate SameHome(start: nat, d: Disk, e: Disk) {
    |d| == |e| && forall b :: 0 <= b < |d| && Home(start, b) ==> d[b] == e[b]
  }

  lemma CommitWritesAt(start: nat, view: Disk, hdr: seq<nat>, i: nat)
    requires Fits(start, view) && GoodList(start, |view|, hdr) && hdr != []
    requires i < |CommitWrites(start, view, hdr)|
    ensures var w := CommitWrites(start, view, hdr)[i];
            var n := |hdr|;
            var full := EncodeHead(view[start], hdr);
            && (i < n ==> w == Put(start + 1 + i, view[hdr[i]]))
            && (i == n ==> w == Put(start, full))
            && (n < i <= 2 * n ==> w == Put(hdr[i - n - 1], view[hdr[i - n - 1]]))
            && (i == 2 * n + 1 ==> w == Put(start, EncodeHead(full, [])))
  {
    hide EncodeHead, Distinct, Home;
    var n := |hdr|;
    var full := EncodeHead(view[start], hdr);
    var a, b := LogCopies(start, view, hdr), Installs(start, view, hdr);
    Quarters(a, Put(start, full), b, Put(start, EncodeHead(full, [])), i);
  }

  /** Which of four parts an index falls into. */
  lemma Quarters(a: seq<Put>, x: Put, b: seq<Put>, y: Put, i: nat)
    requires i < |a| + |b| + 2
    ensures (a + [x] + b + [y])[i] ==
            if i < |a| then a[i] else if i == |a| then x else if i <= |a| + |b| then b[i - |a| - 1] else y
  {
  }

  /** Before the header write lands, no home block and no header has changed. */
  lemma CommitBefore(start: nat, d: Disk, view: Disk, hdr: seq<nat>, k: nat)
    requires EmptyLog(start, d) && GoodList(start, |d|, hdr) && hdr != []
    requires AgreeOutside(d, view, hdr) && k <= |hdr|
    ensures var p := Apply(d, CommitWrites(start, view, hdr)[..k]);
            EmptyLog(start, p) && SameHome(start, p, d)
  {
    var ws := CommitWrites(start, view, hdr)[..k];
    forall i | 0 <= i < |ws| ensures ws[i].at == start + 1 + i {
      CommitWritesAt(start, view, hdr, i);
    }
    forall b | 0 <= b < |d| && (b == start || Home(start, b)) ensures Apply(d, ws)[b] == d[b] {
      ApplyMiss(d, ws, b);
    }
  }

  /** Where the first k writes of a commit go. */
  lemma CommitTargets(start: nat, view: Disk, hdr: seq<nat>, k: nat)
    requires Fits(start, view) && GoodList(start, |view|, hdr) && hdr != []
    requires k <= 2 * |hdr| + 2
    ensures var ws := CommitWrites(start, view, hdr)[..k];
            var n := |hdr|;
            && |ws| == k
            && (forall i :: 0 <= i < k && i < n ==> ws[i].at == start + 1 + i)
            && (forall i :: n < i < k && i <= 2 * n ==> ws[i].at == hdr[i - n - 1])
            && (n < k ==> ws[n].at == start)
            && (2 * n + 1 < k ==> ws[2 * n + 1].at == start)
  {
    hide CommitWrites;
    var ws := CommitWrites(start, view, hdr);
    var n := |hdr|;
    forall i | 0 <= i < k
      ensures ws[..k][i].at ==
              if i < n then start + 1 + i else if i == n || i == 2 * n + 1 then start else hdr[i - n - 1]
    {
      CommitWritesAt(start, view, hdr, i);
    }
  }

  /** Once the header write has landed and until it is erased, the header lists the transaction... */
  lemma CommitDuringHead(start: nat, d: Disk, view: Disk, hdr: seq<nat>, k: nat)
    requires EmptyLog(start, d) && GoodList(start, |d|, hdr) && hdr != []
    requires AgreeOutside(d, view, hdr) && |hdr| < k < 2 * |hdr| + 2
    ensures var p := Apply(d, CommitWrites(start, view, hdr)[..k]);
            Recoverable(start, p) && DecodeHead(p[start]) == hdr
  {
    var ws := CommitWrites(start, view, hdr)[..k];
    CommitTargets(start, view, hdr, k);
    CommitWritesAt(start, view, hdr, |hdr|);
    ApplyHit(d, ws, start, |hdr|);
    HeadRoundTrip(view[start], hdr);
  }

  /** ...the log blocks hold its contents... */
  lemma CommitDuringLog(start: nat, d: Disk, view: Disk, hdr: seq<nat>, k: nat, i: nat)
    requires EmptyLog(start, d) && GoodList(start, |d|, hdr) && i < |hdr|
    requires AgreeOutside(d, view, hdr) && |hdr| < k < 2 * |hdr| + 2
    ensures Apply(d, CommitWrites(start, view, hdr)[..k])[start + 1 + i] == view[hdr[i]]
  {
    hide CommitWrites, Apply;
    var ws := CommitWrites(start, view, hdr)[..k];
    CommitTargets(start, view, hdr, k);
    CommitWritesAt(start, view, hdr, i);
    ApplyHit(d, ws, start + 1 + i, i);
  }

  /** ...and no other home block has changed. */
  lemma CommitDuringHome(start: nat, d: Disk, view: Disk, hdr: seq<nat>, k: nat, b: nat)
    requires EmptyLog(start, d) && GoodList(start, |d|, hdr) && hdr != []
    requires AgreeOutside(d, view, hdr) && |hdr| < k < 2 * |hdr| + 2
    requires b < |d| && Home(start, b) && b !in hdr
    ensures Apply(d, CommitWrites(start, view, hdr)[..k])[b] == d[b]
  {
    CommitTargets(start, view, hdr, k);
    ApplyMiss(d, CommitWrites(start, view, hdr)[..k], b);
  }

  /** After the last write the home blocks hold the transaction... */
  lemma CommitAfterHome(start: nat, d: Disk, view: Disk, hdr: seq<nat>, b: nat)
    requires EmptyLog(start, d) && GoodList(start, |d|, hdr) && hdr != []
    requires AgreeOutside(d, view, hdr) && b < |d| && Home(start, b)
    ensures Apply(d, CommitWrites(start, view, hdr))[b] == view[b]
  {
    hide CommitWrites, Apply;
    var n := |hdr|;
    var ws := CommitWrites(start, view, hdr);
    assert ws[..2 * n + 2] == ws;
    CommitTargets(start, view, hdr, 2 * n + 2);
    if b in hdr {
      var i :| 0 <= i < n && hdr[i] == b;
      CommitWritesAt(start, view, hdr, n + 1 + i);
      ApplyHit(d, ws, b, n + 1 + i);
    } else {
      ApplyMiss(d, ws, b);
    }
  }

  /** ...and the log is empty again. */
  lemma CommitAfter(start: nat, d: Disk, view: Disk, hdr: seq<nat>)
    requires EmptyLog(start, d) && GoodList(start, |d|, hdr) && hdr != []
    requires AgreeOutside(d, view, hdr)
    ensures var p := Apply(d, CommitWrites(start, view, hdr));
            EmptyLog(start, p) && SameHome(start, p, view)
  {
    hide CommitWrites, Apply;
    var ws := CommitWrites(start, view, hdr);
    CommitWritesAt(start, view, hdr, |ws| - 1);
    ApplyHit(d, ws, start, |ws| - 1);
    HeadRoundTrip(EncodeHead(view[start], hdr), []);
    forall b | 0 <= b < |d| && Home(start, b) ensures Apply(d, ws)[b] == view[b] {
      CommitAfterHome(start, d, view, hdr, b);
    }
  }

  /** Recovering a disk whose log is empty changes no home block. */
  lemma RecoverEmpty(start: nat, p: Disk)
    requires EmptyLog(start, p)
    ensures SameHome(start, Recovered(start, p), p)
  {
    forall b | 0 <= b < |p| && Home(start, b) ensures Recovered(start, p)[b] == p[b] {
      RecoveredAt(start, p, b);
    }
  }

  /** Recovering while the log holds the transaction installs it. */
  lemma RecoverFull(start: nat, d: Disk, view: Disk, hdr: seq<nat>, k: nat)
    requires EmptyLog(start, d) && GoodList(start, |d|, hdr) && hdr != []
    requires AgreeOutside(d, view, hdr) && |hdr| < k < 2 * |hdr| + 2
    ensures var p := Apply(d, CommitWrites(start, view, hdr)[..k]);
            Recoverable(start, p) && SameHome(start, Recovered(start, p), view)
  {
    var p := Apply(d, CommitWrites(start, view, hdr)[..k]);
    CommitDuringHead(start, d, view, hdr, k);
    hide Apply, CommitWrites, Recovered;
    forall b | 0 <= b < |d| && Home(start, b) ensures Recovered(start, p)[b] == view[b] {
      RecoveredAt(start, p, b);
      if b in hdr {
        var i :| 0 <= i < |hdr| && hdr[i] == b;
        CommitDuringLog(start, d, view, hdr, k, i);
      } else {
        CommitDuringHome(start, d, view, hdr, k, b);
      }
    }
  }

  /**
    Crash atomicity of a commit. After a crash following the first k of its block writes,
    recovery yields the home blocks of before the transaction when the header write (write number
    |hdr|) has not landed, and those of after the transaction when it has.
   */
  lemma CommitAtomic(start: nat, d: Disk, view: Disk, hdr: seq<nat>, k: nat)
    requires EmptyLog(start, d) && GoodList(start, |d|, hdr)
    requires AgreeOutside(d, view, hdr)
    requires k <= |CommitWrites(start, view, hdr)|
    ensures var p := Apply(d, CommitWrites(start, view, hdr)[..k]);
            && Recoverable(start, p)
            && SameHome(start, Recovered(start, p), if k <= |hdr| then d else view)
  {
    var ws := CommitWrites(start, view, hdr);
    var p := Apply(d, ws[..k]);
    if hdr == [] {
      RecoverEmpty(start, d);
    } else if k <= |hdr| {
      CommitBefore(start, d, view, hdr, k);
      RecoverEmpty(start, p);
    } else if k < 2 * |hdr| + 2 {
      RecoverFull(start, d, view, hdr, k);
    } else {
      assert ws[..k] == ws;
      CommitAfter(start, d, view, hdr);
      RecoverEmpty(start, p);
    }
  }

  /**
    Crash atomicity with further crashes: after the crash of the commit, any number of recoveries
    are themselves cut short, attempt number i after cuts[i] writes, before one completes.
   */
  function Attempts(start: nat, d: Disk, cuts: seq<nat>): (r: Disk)
    requires Recoverable(start, d)
    ensures Recoverable(start, r) && Recovered(start, r) == Recovered(start, d)
    decreases |cuts|
  {
    if cuts == [] then d else
      var ws := RecoverWrites(start, d);
      var k := if cuts[0] <= |ws| then cuts[0] else |ws|;
      RecoveryRestarts(start, d, k);
      Attempts(start, Apply(d, ws[..k]), cuts[1..])
  }

  lemma CommitAtomicRepeated(start: nat, d: Disk, view: Disk, hdr: seq<nat>, k: nat, cuts: seq<nat>)
    requires EmptyLog(start, d) && GoodList(start, |d|, hdr)
    requires AgreeOutside(d, view, hdr)
    requires k <= |CommitWrites(start, view, hdr)|
    ensures var p := Apply(d, CommitWrites(start, view, hdr)[..k]);
            && Recoverable(start, p)
            && SameHome(start, Recovered(start, Attempts(start, p, cuts)), if k <= |hdr| then d else view)
  {
    CommitAtomic(start, d, view, hdr, k);
  }
}
