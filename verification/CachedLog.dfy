/**
  A commit of the log through the buffer cache: each block is copied from buffer to buffer, and the
  pins that keep the blocks of the transaction in the cache are references. It is proved to issue
  the writes of the redo log, or else to stop, for want of a buffer, before the header is written.
*/
module CachedLog {
  import opened RedoLog
  import opened RecencyRing
  import opened BufferCache
  import GroupCommit
  import LogDriver

  // ---------------------------------------------------------------- the disk as a sequence of blocks

  predicate HasBlocks(m: map<Key, Contents>, dev: nat, size: nat) {
    forall b: nat :: b < size ==> Key(dev, b) in m && |m[Key(dev, b)]| == BLOCK_WORDS
  }

  function AsDisk(m: map<Key, Contents>, dev: nat, size: nat): (d: Disk)
    requires HasBlocks(m, dev, size)
    ensures |d| == size && forall b: nat :: b < size ==> d[b] == m[Key(dev, b)]
  {
    seq(size, b requires 0 <= b < size && Key(dev, b) in m && |m[Key(dev, b)]| == BLOCK_WORDS => m[Key(dev, b)])
  }

  lemma StoreBlock(m: map<Key, Contents>, dev: nat, size: nat, b: nat, data: Block)
    requires HasBlocks(m, dev, size) && b < size
    ensures HasBlocks(m[Key(dev, b) := data], dev, size)
    ensures AsDisk(m[Key(dev, b) := data], dev, size) == Store(AsDisk(m, dev, size), Put(b, data))
  {
  }

  // ---------------------------------------------------------------- references

  predicate Cached(m: seq<BufMeta>, key: Key) {
    exists j :: 0 <= j < |m| && KeyOf(m[j]) == key
  }

  /** No block has gained a reference, and a buffer that is still referenced holds the same block. */
  predicate Fewer(m: seq<BufMeta>, u: seq<BufMeta>) {
    && |u| == |m|
    && forall j :: 0 <= j < |m| ==>
         && u[j].refCount <= m[j].refCount
         && (u[j].refCount > 0 ==> KeyOf(u[j]) == KeyOf(m[j]) && (m[j].valid ==> u[j].valid))
  }

  /** The blocks of the transaction from position `from` on are in referenced buffers. */
  predicate Pinned(m: seq<BufMeta>, dev: nat, hdr: seq<nat>, holder: seq<nat>, from: nat) {
    && |holder| == |hdr|
    && forall k :: from <= k < |hdr| ==>
         && 0 < holder[k] < |m| && m[holder[k]].valid && m[holder[k]].refCount > 0
         && KeyOf(m[holder[k]]) == Key(dev, hdr[k])
  }

  /** The buffers to read a block into: one without references, or the one that has the block. */
  predicate CanRead(m: seq<BufMeta>, key: Key) {
    !AllReferenced(m) || Cached(m, key)
  }

  /** The references are the same. */
  predicate SameRefs(m: seq<BufMeta>, u: seq<BufMeta>) {
    Fewer(m, u) && forall j :: 0 <= j < |m| ==> u[j].refCount == m[j].refCount
  }

  lemma ListedHome(start: nat, size: nat, hdr: seq<nat>, k: nat)
    requires GoodList(start, size, hdr) && k < |hdr|
    ensures |hdr| <= LOGBLOCKS && hdr[k] < size && (hdr[k] < start || start + LOGBLOCKS < hdr[k])
  {
  }

  /** Block t of the log area can be read. */
  predicate CanReach(m: seq<BufMeta>, dev: nat, start: nat, t: nat) {
    CanRead(m, Key(dev, start + t))
  }

  /** The blocks lo to hi of the log area can be read. */
  ghost predicate Reachable(m: seq<BufMeta>, dev: nat, start: nat, lo: nat, hi: nat) {
    forall t: nat :: lo <= t <= hi ==> CanReach(m, dev, start, t)
  }

  lemma FewerTrans(m: seq<BufMeta>, u: seq<BufMeta>, v: seq<BufMeta>)
    requires Fewer(m, u) && Fewer(u, v)
    ensures Fewer(m, v)
  {
  }

  /** A cache with fewer references reads what could be read, if its head holds no block of a device. */
  lemma FewerReads(m: seq<BufMeta>, u: seq<BufMeta>, key: Key)
    requires Fewer(m, u) && |m| == NBUF && key.dev != 0 && m[HEAD].dev == 0 && CanRead(m, key)
    ensures CanRead(u, key)
  {
    if AllReferenced(u) {
      assert AllReferenced(m) by {
        forall i | 0 < i < |m| ensures m[i].refCount > 0 {
          assert u[i].refCount > 0;
        }
      }
      var j :| 0 <= j < |m| && KeyOf(m[j]) == key;
      assert KeyOf(u[j]) == key;
    }
  }

  /** With the same references, the same can be read as before. */
  lemma SameReads(m: seq<BufMeta>, u: seq<BufMeta>, key: Key)
    requires SameRefs(m, u) && |m| == NBUF && key.dev != 0 && m[HEAD].dev == 0 && u[HEAD].dev == 0
    ensures CanRead(u, key) <==> CanRead(m, key)
  {
    if CanRead(m, key) {
      FewerReads(m, u, key);
    } else {
      forall j | 0 <= j < |u| ensures KeyOf(u[j]) != key {
        if 0 < j {
          assert KeyOf(u[j]) == KeyOf(m[j]);
        }
      }
    }
  }

  /** Buffer id has gained a reference, and no other buffer has changed; a buffer that had no references may hold another block now. */
  predicate Fetched(m: seq<BufMeta>, u: seq<BufMeta>, id: nat) {
    && |u| == |m| && id < |m| && u[id].refCount == m[id].refCount + 1 && u[id].valid
    && (m[id].refCount > 0 ==> KeyOf(u[id]) == KeyOf(m[id]))
    && forall j :: 0 <= j < |m| && j != id ==> u[j] == m[j]
  }

  /** Fetching another block leaves a pinned block where it is. */
  lemma FetchBesidePin(m: seq<BufMeta>, u: seq<BufMeta>, id: nat, h: nat)
    requires Fetched(m, u, id) && h < |m| && m[h].refCount > 0 && KeyOf(u[id]) != KeyOf(m[h])
    ensures id != h && u[h] == m[h] && CanRead(u, KeyOf(m[h]))
  {
    assert KeyOf(u[h]) == KeyOf(m[h]);
  }

  /** Fetching a pinned block finds it. */
  lemma FetchPinned(m: seq<BufMeta>, u: seq<BufMeta>, data: seq<Contents>, disk: map<Key, Contents>, view: map<Key, Contents>,
                    loose: set<Key>, id: nat, h: nat)
    requires Fetched(m, u, id) && h < |m| == NBUF && m[h].refCount > 0 && Coherent(u, data, disk, view, loose)
    requires KeyOf(u[id]) == KeyOf(m[h]) && KeyOf(m[h]).dev != 0
    ensures id == h
  {
  }

  lemma SameDirty(m: seq<BufMeta>, u: seq<BufMeta>, data: seq<Contents>, disk: map<Key, Contents>, id: nat)
    requires id < |m| == |u| == |data| && u[id].valid == m[id].valid && KeyOf(u[id]) == KeyOf(m[id])
    ensures Dirty(u, data, disk, id) <==> Dirty(m, data, disk, id)
  {
  }

  function Less(m: seq<BufMeta>, id: nat): seq<BufMeta>
    requires id < |m| && m[id].refCount > 0
  {
    m[id := m[id].(refCount := m[id].refCount - 1)]
  }

  lemma LessSame(m: seq<BufMeta>, u: seq<BufMeta>, v: seq<BufMeta>, id: nat)
    requires SameBuffers(m, u) && id < |m| && m[id].refCount > 0 && u[id].refCount > 0 && SameBuffers(Less(u, id), v)
    ensures SameBuffers(Less(m, id), v)
  {
    forall j | 0 <= j < |m| ensures SameBuffer(Less(m, id)[j], v[j]) {
      assert SameBuffer(m[j], u[j]) && SameBuffer(Less(u, id)[j], v[j]);
    }
  }

  /** Two blocks fetched and dropped again. */
  lemma Restored(m0: seq<BufMeta>, m1: seq<BufMeta>, m2: seq<BufMeta>, m3: seq<BufMeta>, m4: seq<BufMeta>, a: nat, b: nat)
    requires Fetched(m0, m1, a) && Fetched(m1, m2, b) && a != b
    requires SameBuffers(Less(m2, a), m3) && |m3| == |m2| && m3[b].refCount > 0 && SameBuffers(Less(m3, b), m4)
    ensures SameRefs(m0, m4)
  {
    forall j | 0 <= j < |m0|
      ensures m4[j].refCount == m0[j].refCount
      ensures m4[j].refCount > 0 ==> KeyOf(m4[j]) == KeyOf(m0[j]) && (m0[j].valid ==> m4[j].valid)
    {
      assert SameBuffer(Less(m2, a)[j], m3[j]);
      assert SameBuffer(Less(m3, b)[j], m4[j]);
    }
  }

  lemma RestoredOne(m0: seq<BufMeta>, m1: seq<BufMeta>, m2: seq<BufMeta>, a: nat)
    requires Fetched(m0, m1, a) && SameBuffers(Less(m1, a), m2)
    ensures SameRefs(m0, m2)
  {
    forall j | 0 <= j < |m0|
      ensures m2[j].refCount == m0[j].refCount
      ensures m2[j].refCount > 0 ==> KeyOf(m2[j]) == KeyOf(m0[j]) && (m0[j].valid ==> m2[j].valid)
    {
      assert SameBuffer(Less(m1, a)[j], m2[j]);
    }
  }

  lemma SameRefsSelf(m: seq<BufMeta>)
    ensures SameRefs(m, m)
  {
  }

  lemma SameRefsTrans(m: seq<BufMeta>, u: seq<BufMeta>, v: seq<BufMeta>)
    requires SameRefs(m, u) && SameRefs(u, v)
    ensures SameRefs(m, v)
  {
  }

  lemma PinnedKept(m: seq<BufMeta>, u: seq<BufMeta>, dev: nat, hdr: seq<nat>, holder: seq<nat>)
    requires Pinned(m, dev, hdr, holder, 0) && SameRefs(m, u)
    ensures Pinned(u, dev, hdr, holder, 0)
  {
  }

  /** Every block from position tail on is pinned by a buffer of its own. */
  lemma PinnedApart(m: seq<BufMeta>, dev: nat, start: nat, size: nat, hdr: seq<nat>, holder: seq<nat>, tail: nat, k: nat)
    requires GoodList(start, size, hdr) && Pinned(m, dev, hdr, holder, tail) && tail < k < |hdr|
    ensures holder[k] != holder[tail]
  {
    assert hdr[tail] != hdr[k];
  }

  /** With the first of them unpinned, the rest are pinned still. */
  lemma PinnedRest(m: seq<BufMeta>, u: seq<BufMeta>, dev: nat, start: nat, size: nat, hdr: seq<nat>, holder: seq<nat>, tail: nat)
    requires GoodList(start, size, hdr) && Pinned(m, dev, hdr, holder, tail) && tail < |hdr| && Fewer(m, u)
    requires forall j :: 0 <= j < |m| ==> u[j].refCount == m[j].refCount - (if j == holder[tail] then 1 else 0)
    ensures Pinned(u, dev, hdr, holder, tail + 1)
  {
    hide GoodList;
    forall k | tail < k < |hdr| ensures u[holder[k]].refCount > 0 {
      PinnedApart(m, dev, start, size, hdr, holder, tail, k);
    }
  }

  /** The pins of the first `tail` blocks are gone, and no other reference. */
  predicate PinsDropped(m: seq<BufMeta>, u: seq<BufMeta>, holder: seq<nat>, tail: nat) {
    && |u| == |m| && tail <= |holder|
    && forall j :: 0 <= j < |m| ==> u[j].refCount == m[j].refCount - (if j in holder[..tail] then 1 else 0)
  }

  lemma DropNext(m: seq<BufMeta>, u: seq<BufMeta>, v: seq<BufMeta>, dev: nat, start: nat, size: nat, hdr: seq<nat>,
                 holder: seq<nat>, tail: nat)
    requires PinsDropped(m, u, holder, tail) && tail < |hdr| == |holder| && |v| == |u|
    requires GoodList(start, size, hdr) && Pinned(m, dev, hdr, holder, 0)
    requires forall j :: 0 <= j < |u| ==> v[j].refCount == u[j].refCount - (if j == holder[tail] then 1 else 0)
    ensures PinsDropped(m, v, holder, tail + 1)
  {
    hide GoodList;
    assert holder[tail] !in holder[..tail] by {
      forall k | 0 <= k < tail ensures holder[k] != holder[tail] {
        PinnedFrom(m, dev, hdr, holder, k);
        PinnedApart(m, dev, start, size, hdr, holder, k, tail);
      }
    }
    assert holder[..tail + 1] == holder[..tail] + [holder[tail]];
  }

  lemma PinnedFrom(m: seq<BufMeta>, dev: nat, hdr: seq<nat>, holder: seq<nat>, k: nat)
    requires Pinned(m, dev, hdr, holder, 0)
    ensures Pinned(m, dev, hdr, holder, k)
  {
  }

  /** What the next round of the installs writes. */
  lemma InstallRound(start: nat, d: Disk, v: Disk, hdr: seq<nat>, tail: nat)
    requires Fits(start, v) && GoodList(start, |v|, hdr) && tail < |hdr| && |d| == |v|
    ensures |hdr| <= LOGBLOCKS
    ensures
      var ws := LogDriver.InstallsFrom(start, v, hdr);
      && ws[tail] == Put(hdr[tail], v[start + tail + 1])
      && Apply(d, ws[..tail])[start + tail + 1] == d[start + tail + 1] && Apply(v, ws[..tail])[start + tail + 1] == v[start + tail + 1]
      && Apply(d, ws[..tail + 1]) == Store(Apply(d, ws[..tail]), ws[tail])
      && Apply(v, ws[..tail + 1]) == Store(Apply(v, ws[..tail]), ws[tail])
  {
    hide Apply, LogDriver.InstallsFrom, GoodList;
    ListFits(start, |v|, hdr);
    var ws := LogDriver.InstallsFrom(start, v, hdr);
    InstallsKeepLog(start, d, v, hdr, tail);
    InstallsKeepLog(start, v, v, hdr, tail);
    LogDriver.InstallAt(start, v, hdr, tail);
    GroupCommit.ApplyNext(d, ws, tail);
    GroupCommit.ApplyNext(v, ws, tail);
  }

  /** The references while blocks are installed, `tail` of them so far. */
  predicate Installing(m: seq<BufMeta>, u: seq<BufMeta>, dev: nat, hdr: seq<nat>, holder: seq<nat>, tail: nat) {
    && Fewer(m, u) && PinsDropped(m, u, holder, tail) && Pinned(m, dev, hdr, holder, 0) && Pinned(u, dev, hdr, holder, tail)
  }

  lemma InstallingStart(m: seq<BufMeta>, dev: nat, hdr: seq<nat>, holder: seq<nat>)
    requires Pinned(m, dev, hdr, holder, 0)
    ensures Installing(m, m, dev, hdr, holder, 0)
  {
  }

  lemma InstallingFacts(m: seq<BufMeta>, u: seq<BufMeta>, dev: nat, hdr: seq<nat>, holder: seq<nat>, tail: nat)
    requires Installing(m, u, dev, hdr, holder, tail)
    ensures Fewer(m, u) && Pinned(u, dev, hdr, holder, tail) && |u| == |m|
    ensures tail == |hdr| ==> forall j :: 0 <= j < |m| ==> u[j].refCount == m[j].refCount - (if j in holder then 1 else 0)
  {
    assert tail == |hdr| ==> holder[..tail] == holder;
  }

  lemma InstallPins(m: seq<BufMeta>, u: seq<BufMeta>, v: seq<BufMeta>, dev: nat, start: nat, size: nat, hdr: seq<nat>,
                    holder: seq<nat>, tail: nat)
    requires Installing(m, u, dev, hdr, holder, tail) && tail < |hdr| && GoodList(start, size, hdr) && Fewer(u, v)
    requires forall j :: 0 <= j < |u| ==> v[j].refCount == u[j].refCount - (if j == holder[tail] then 1 else 0)
    ensures Installing(m, v, dev, hdr, holder, tail + 1)
  {
    hide GoodList;
    FewerTrans(m, u, v);
    PinnedRest(u, v, dev, start, size, hdr, holder, tail);
    DropNext(m, u, v, dev, start, size, hdr, holder, tail);
  }

  lemma ListFits(start: nat, size: nat, hdr: seq<nat>)
    requires GoodList(start, size, hdr)
    ensures |hdr| <= LOGBLOCKS
  {
  }

  lemma InstallsKeepLog(start: nat, d: Disk, v: Disk, hdr: seq<nat>, tail: nat)
    requires Fits(start, v) && GoodList(start, |v|, hdr) && tail < |hdr| && |d| == |v|
    ensures Apply(d, LogDriver.InstallsFrom(start, v, hdr)[..tail])[start + tail + 1] == d[start + tail + 1]
  {
    hide Apply;
    var ws := LogDriver.InstallsFrom(start, v, hdr)[..tail];
    forall i | 0 <= i < |ws| ensures ws[i].at != start + tail + 1 {
      assert Home(start, hdr[i]);
    }
    ApplyMiss(d, ws, start + tail + 1);
  }

  lemma PinnedLength(m: seq<BufMeta>, dev: nat, hdr: seq<nat>, holder: seq<nat>)
    requires Pinned(m, dev, hdr, holder, 0)
    ensures |holder| == |hdr|
  {
  }

  // ---------------------------------------------------------------- one pin per listed block

  /** The references to each buffer: those of its holders, and one pin if its block is listed. */
  ghost predicate Accounted(m: seq<BufMeta>, dev: nat, hdr: seq<nat>, holder: seq<nat>, held: seq<nat>) {
    && Pinned(m, dev, hdr, holder, 0) && |held| == |m|
    && forall j :: 0 <= j < |m| ==> m[j].refCount == held[j] + (if j in holder then 1 else 0)
  }

  /** Buffer id gains a holder. */
  lemma AccountFetched(m: seq<BufMeta>, u: seq<BufMeta>, dev: nat, hdr: seq<nat>, holder: seq<nat>, held: seq<nat>, id: nat)
    requires Accounted(m, dev, hdr, holder, held) && Fetched(m, u, id)
    ensures Accounted(u, dev, hdr, holder, held[id := held[id] + 1])
  {
  }

  /** Buffer id loses a holder. */
  lemma AccountDropped(m: seq<BufMeta>, u: seq<BufMeta>, dev: nat, hdr: seq<nat>, holder: seq<nat>, held: seq<nat>, id: nat)
    requires id < |m| == |held| && m[id].refCount > 0
    requires Accounted(m, dev, hdr, holder, held[id := held[id] + 1]) && SameBuffers(Less(m, id), u)
    ensures Accounted(u, dev, hdr, holder, held)
  {
    forall j | 0 <= j < |m| ensures SameBuffer(Less(m, id)[j], u[j]) {
    }
    forall j | 0 <= j < |m| ensures u[j].refCount == held[j] + (if j in holder then 1 else 0) {
      assert m[j].refCount == held[id := held[id] + 1][j] + (if j in holder then 1 else 0);
    }
  }

  /** A block that is listed for the first time is pinned in the buffer of its holder. */
  lemma AccountPinned(m: seq<BufMeta>, dev: nat, hdr: seq<nat>, holder: seq<nat>, held: seq<nat>, id: nat, b: nat)
    requires Accounted(m, dev, hdr, holder, held) && 0 < id < |m| && m[id].valid && KeyOf(m[id]) == Key(dev, b) && b !in hdr
    ensures Accounted(m[id := m[id].(refCount := m[id].refCount + 1)], dev, hdr + [b], holder + [id], held)
  {
    var u, holder' := m[id := m[id].(refCount := m[id].refCount + 1)], holder + [id];
    forall k | 0 <= k < |holder| ensures holder[k] != id {
      assert KeyOf(m[holder[k]]) == Key(dev, hdr[k]);
    }
    forall j | 0 <= j < |m| ensures j in holder' <==> j in holder || j == id {
      assert holder'[|holder|] == id;
      if j in holder {
        var k :| 0 <= k < |holder| && holder[k] == j;
        assert holder'[k] == j;
      }
    }
  }

  /** The buffer of a listed block is pinned. */
  lemma ListedIsPinned(m: seq<BufMeta>, data: seq<Contents>, disk: map<Key, Contents>, view: map<Key, Contents>, loose: set<Key>,
                       dev: nat, hdr: seq<nat>, holder: seq<nat>, held: seq<nat>, id: nat, b: nat)
    requires Coherent(m, data, disk, view, loose) && Accounted(m, dev, hdr, holder, held) && dev != 0
    requires 0 < id < NBUF && KeyOf(m[id]) == Key(dev, b) && b in hdr
    ensures id in holder && m[id].refCount == held[id] + 1
  {
    var k :| 0 <= k < |hdr| && hdr[k] == b;
    var h := holder[k];
    assert KeyOf(m[h]) == KeyOf(m[id]);
    assert h == id;
  }

  lemma AccountLength(m: seq<BufMeta>, dev: nat, hdr: seq<nat>, holder: seq<nat>, held: seq<nat>)
    requires Accounted(m, dev, hdr, holder, held)
    ensures |held| == |m|
  {
  }

  lemma AccountPins(m: seq<BufMeta>, dev: nat, hdr: seq<nat>, holder: seq<nat>, held: seq<nat>)
    requires Accounted(m, dev, hdr, holder, held)
    ensures Pinned(m, dev, hdr, holder, 0)
  {
  }

  lemma AbsorbFits(start: nat, size: nat, hdr: seq<nat>, b: nat)
    requires GoodList(start, size, hdr) && |hdr| < LOGBLOCKS && b < size && Home(start, b)
    ensures GoodList(start, size, GroupCommit.Absorb(hdr, b))
  {
  }

  lemma AgreeChanged(d: Disk, v: Disk, hdr: seq<nat>, b: nat, data: Block)
    requires AgreeOutside(d, v, hdr)
    ensures AgreeOutside(d, Store(v, Put(b, data)), hdr + [b])
  {
    forall c | 0 <= c < |d| && c !in hdr + [b] ensures Store(v, Put(b, data))[c] == d[c] {
      assert b in hdr + [b];
    }
  }

  lemma AgreeAbsorbed(start: nat, d: Disk, v: Disk, hdr: seq<nat>, b: nat)
    requires GoodList(start, |d|, hdr) && |hdr| < LOGBLOCKS && b < |d| && Home(start, b) && AgreeOutside(d, v, hdr + [b])
    ensures AgreeOutside(d, v, GroupCommit.Absorb(hdr, b))
  {
    LogDriver.AbsorbKeeps(start, d, v, hdr, b);
  }

  /** An empty log recovers to what is there. */
  lemma NothingYet(start: nat, d: Disk, v: Disk, hdr: seq<nat>)
    requires EmptyLog(start, d) && GoodList(start, |d|, hdr) && AgreeOutside(d, v, hdr)
    ensures Recoverable(start, d) && SameHome(start, Recovered(start, d), d)
  {
    hide Apply, CommitWrites, Recovered, SameHome;
    LogDriver.CommitOutcome(start, d, v, hdr);
    var ws := CommitWrites(start, v, hdr);
    assert ws[..0] == [];
    LogDriver.ApplyNone(d);
    assert Apply(d, ws[..0]) == d;
  }

  /** After a commit no pin is left. */
  lemma AccountCommitted(m: seq<BufMeta>, u: seq<BufMeta>, dev: nat, hdr: seq<nat>, holder: seq<nat>, held: seq<nat>)
    requires Accounted(m, dev, hdr, holder, held) && |u| == |m|
    requires forall j :: 0 <= j < |m| ==> u[j].refCount == m[j].refCount - (if j in holder then 1 else 0)
    ensures Accounted(u, dev, [], [], held)
  {
  }

  /** With few enough references, any block can be read. */
  lemma EnoughBuffers(m: seq<BufMeta>, dev: nat, start: nat, size: nat, hdr: seq<nat>, holder: seq<nat>)
    requires |m| == NBUF && Pinned(m, dev, hdr, holder, 0) && GoodList(start, size, hdr)
    ensures |hdr| + |Others(m, holder)| <= NBUF - 2 ==> Reachable(m, dev, start, 0, |hdr|)
  {
    hide AllReferenced, Others;
    CommitFindsBuffer(m, hdr, holder);
  }

  // ---------------------------------------------------------------- the stages of a commit

  lemma CommitPrefix(start: nat, v: Disk, hdr: seq<nat>, k: nat)
    requires Fits(start, v) && GoodList(start, |v|, hdr) && hdr != [] && k <= |hdr|
    ensures k <= |CommitWrites(start, v, hdr)| && CommitWrites(start, v, hdr)[..k] == LogCopies(start, v, hdr)[..k]
  {
    hide LogCopies, GoodList;
  }

  lemma ReachKept(m: seq<BufMeta>, u: seq<BufMeta>, dev: nat, start: nat, lo: nat, hi: nat)
    requires SameRefs(m, u) && |m| == NBUF && dev != 0 && m[HEAD].dev == 0 && u[HEAD].dev == 0
    requires Reachable(m, dev, start, lo, hi)
    ensures Reachable(u, dev, start, lo, hi)
  {
    hide CanRead, SameRefs;
    forall t: nat | lo <= t <= hi ensures CanReach(u, dev, start, t) {
      assert CanReach(m, dev, start, t);
      SameReads(m, u, Key(dev, start + t));
    }
  }

  /** Once the log is written, cache and disk agree on the log blocks. */
  lemma LogAgrees(start: nat, d: Disk, v: Disk, hdr: seq<nat>, w: Put)
    requires Fits(start, v) && GoodList(start, |v|, hdr) && AgreeOutside(d, v, hdr) && w.at == start
    ensures
      var a := LogCopies(start, v, hdr);
      forall b :: start < b <= start + LOGBLOCKS ==> Store(Apply(d, a), w)[b] == Store(Apply(v, a), w)[b]
  {
    hide Apply, LogCopies;
    var a := LogCopies(start, v, hdr);
    forall b | start < b <= start + LOGBLOCKS ensures Store(Apply(d, a), w)[b] == Store(Apply(v, a), w)[b] {
      assert b !in hdr;
      LogDriver.ApplyAgree(d, v, a, b);
    }
  }

  /** The four stages, one after the other. */
  lemma CommitApplied(start: nat, d: Disk, v: Disk, hdr: seq<nat>)
    requires Fits(start, v) && GoodList(start, |v|, hdr) && hdr != []
    ensures
      var a := LogCopies(start, v, hdr);
      var w1 := Put(start, EncodeHead(Apply(v, a)[start], hdr));
      var v2 := Store(Apply(v, a), w1);
      var b := LogDriver.InstallsFrom(start, v2, hdr);
      var w2 := Put(start, EncodeHead(Apply(v2, b)[start], []));
      && a + [w1] + b + [w2] == CommitWrites(start, v, hdr)
      && Store(Apply(Store(Apply(d, a), w1), b), w2) == Apply(d, CommitWrites(start, v, hdr))
  {
    hide Apply, LogCopies, EncodeHead, LogDriver.InstallsFrom, CommitWrites, GoodList;
    var a := LogCopies(start, v, hdr);
    ListFits(start, |v|, hdr);
    var w1 := Put(start, EncodeHead(Apply(v, a)[start], hdr));
    var v2 := Store(Apply(v, a), w1);
    var b := LogDriver.InstallsFrom(start, v2, hdr);
    var w2 := Put(start, EncodeHead(Apply(v2, b)[start], []));
    LogDriver.CommitStages(start, v, hdr);
    LogDriver.ApplyStages(d, a, w1, b, w2);
  }

  lemma GoodNone(start: nat, size: nat)
    ensures GoodList(start, size, [])
  {
  }

  /** Two blocks fetched, the second one unpinned, and both dropped: the second has one reference less. */
  lemma Unpinned(m0: seq<BufMeta>, m1: seq<BufMeta>, m2: seq<BufMeta>, m5: seq<BufMeta>, a: nat, b: nat)
    requires Fetched(m0, m1, a) && Fetched(m1, m2, b) && a != b && m0[b].refCount > 0
    requires
      var m := Less(m2, b);
      m[a].refCount > 0 && Less(m, a)[b].refCount > 0 && SameBuffers(Less(Less(m, a), b), m5)
    ensures Fewer(m0, m5) && forall j :: 0 <= j < |m0| ==> m5[j].refCount == m0[j].refCount - (if j == b then 1 else 0)
  {
    forall j | 0 <= j < |m0|
      ensures m5[j].refCount == m0[j].refCount - (if j == b then 1 else 0)
      ensures m5[j].refCount > 0 ==> KeyOf(m5[j]) == KeyOf(m0[j]) && (m0[j].valid ==> m5[j].valid)
    {
      assert SameBuffer(Less(Less(Less(m2, b), a), b)[j], m5[j]);
    }
  }

  datatype UpdateResult = Updated | NoBuffer | TooBig | Outside

  class CachedLog {
    const cache: BCache
    const dev: nat
    const start: nat
    const size: nat              // blocks on the disk
    const nlogs: nat             // blocks of the log area, the header included
    var hdr: seq<nat>            // the blocks of the transaction
    ghost var trace: seq<Put>

    ghost predicate Valid()
      reads this, cache, cache.meta, cache.data
    {
      && cache.Valid() && cache.loose == {} && dev != 0
      && HasBlocks(cache.disk, dev, size) && HasBlocks(cache.view, dev, size)
      && start + LOGBLOCKS < size && GoodList(start, size, hdr) && 0 < nlogs
    }

    ghost function D(): (d: Disk)
      requires HasBlocks(cache.disk, dev, size)
      reads this, cache
      ensures |d| == size
    {
      AsDisk(cache.disk, dev, size)
    }

    ghost function V(): (v: Disk)
      requires HasBlocks(cache.view, dev, size)
      reads this, cache
      ensures |v| == size
    {
      AsDisk(cache.view, dev, size)
    }

    constructor (cache: BCache, dev: nat, start: nat, size: nat, nlogs: nat)
      requires cache.Valid() && cache.loose == {} && dev != 0 && start + LOGBLOCKS < size && 0 < nlogs
      requires HasBlocks(cache.disk, dev, size) && HasBlocks(cache.view, dev, size)
      ensures Valid() && this.cache == cache && this.dev == dev && this.start == start && this.size == size && hdr == [] && trace == []
    {
      this.cache, this.dev, this.start, this.size, this.nlogs, this.hdr, this.trace := cache, dev, start, size, nlogs, [], [];
    }

    /** Puts data into the held buffer of block b and writes it to disk. */
    method PutBuffer(id: nat, b: nat, data: Block)
      requires Valid() && b < size && cache.Held(id) && KeyOf(cache.meta[id]) == Key(dev, b)
      modifies this`trace, cache`view, cache`disk, cache`loose, cache.data
      ensures Valid() && D() == Store(old(D()), Put(b, data)) && V() == Store(old(V()), Put(b, data))
      ensures trace == old(trace) + [Put(b, data)]
      ensures cache.data[..] == old(cache.data[..])[id := data] && cache.disk == old(cache.disk)[Key(dev, b) := data]
      ensures !Dirty(cache.meta[..], cache.data[..], cache.disk, id)
    {
      hide Ring, Coherent, AsDisk, HasBlocks, GoodList;
      StoreBlock(cache.disk, dev, size, b, data);
      StoreBlock(cache.view, dev, size, b, data);
      cache.Modify(id, data);
      cache.Write(id);
      trace := trace + [Put(b, data)];
    }

    /** Drops a reference to a buffer that others hold, or whose contents are on disk. */
    method Drop(id: nat)
      requires Valid() && cache.Held(id)
      requires cache.meta[id].refCount > 1 || !Dirty(cache.meta[..], cache.data[..], cache.disk, id)
      modifies cache`lru, cache`loose, cache.meta
      ensures Valid()
      ensures SameBuffers(old(cache.meta[..])[id := old(cache.meta[id]).(refCount := old(cache.meta[id]).refCount - 1)], cache.meta[..])
    {
      hide Ring, Coherent, HasBlocks, GoodList, Dirty;
      cache.Release(id);
    }

    /** Drops a pin, the buffer being referenced otherwise. */
    method Unpin(id: nat)
      requires Valid() && cache.Held(id) && cache.meta[id].refCount > 1
      modifies cache`loose, cache.meta
      ensures Valid()
      ensures cache.meta[..] == old(cache.meta[..])[id := old(cache.meta[id]).(refCount := old(cache.meta[id]).refCount - 1)]
    {
      hide Ring, Coherent, HasBlocks, GoodList, Dirty;
      cache.Unpin(id);
    }

    /** A buffer with block b of the disk; it fails exactly when no buffer has the block and none is without references. */
    method Fetch(b: nat) returns (ok: bool, id: nat)
      requires Valid() && b < size
      modifies cache`view, cache`loose, cache.meta, cache.data
      ensures Valid() && D() == old(D()) && V() == old(V()) && cache.disk == old(cache.disk)
      ensures ok <==> CanRead(old(cache.meta[..]), Key(dev, b))
      ensures !ok ==> cache.meta[..] == old(cache.meta[..])
      ensures ok ==> cache.Held(id) && KeyOf(cache.meta[id]) == Key(dev, b) && cache.data[id] == V()[b]
      ensures ok ==> Fetched(old(cache.meta[..]), cache.meta[..], id)
      ensures ok ==> forall j :: 0 <= j < NBUF && j != id ==> cache.data[j] == old(cache.data[j])
    {
      hide Ring, Coherent, GoodList, Dirty, AllReferenced;
      var r := cache.Read(Key(dev, b));
      if r.NoBuffers? {
        return false, 0;
      }
      return true, r.id;
    }

    /** The buffers of log block `tail` and of the pinned block `tail` of the transaction. */
    method FetchPair(tail: nat, ghost holder: seq<nat>) returns (ok: bool, log: nat, home: nat, ghost between: seq<BufMeta>)
      requires Valid() && tail < |hdr| && Pinned(cache.meta[..], dev, hdr, holder, tail)
      modifies cache`view, cache`loose, cache.meta, cache.data
      ensures Valid() && D() == old(D()) && V() == old(V()) && cache.disk == old(cache.disk) && start + tail + 1 < size
      ensures ok <==> CanRead(old(cache.meta[..]), Key(dev, start + tail + 1))
      ensures !ok ==> cache.meta[..] == old(cache.meta[..])
      ensures ok ==> cache.Held(log) && KeyOf(cache.meta[log]) == Key(dev, start + tail + 1) && cache.data[log] == V()[start + tail + 1]
      ensures ok ==> cache.Held(home) && KeyOf(cache.meta[home]) == Key(dev, hdr[tail]) && cache.data[home] == V()[hdr[tail]]
      ensures ok ==> log != home == holder[tail] && cache.meta[home].refCount > 1
      ensures ok ==> Fetched(old(cache.meta[..]), between, log) && Fetched(between, cache.meta[..], home)
    {
      hide Ring, Coherent, HasBlocks, GoodList, Dirty, CanRead, AllReferenced, AsDisk;
      ghost var m0 := cache.meta[..];
      ListedHome(start, size, hdr, tail);
      ghost var h := holder[tail];
      between, home := m0, 0;
      ok, log := Fetch(start + tail + 1);
      if !ok {
        return;
      }
      between := cache.meta[..];
      FetchBesidePin(m0, between, log, h);
      ok, home := Fetch(hdr[tail]);
      FetchPinned(between, cache.meta[..], cache.data[..], cache.disk, cache.view, cache.loose, home, h);
    }

    /** Copies block `tail` of the transaction to its log block. */
    method LogBlock(tail: nat, ghost holder: seq<nat>) returns (ok: bool)
      requires Valid() && tail < |hdr| && Pinned(cache.meta[..], dev, hdr, holder, 0)
      modifies this`trace, cache`view, cache`disk, cache`loose, cache`lru, cache.meta, cache.data
      ensures Valid()
      ensures ok <==> CanRead(old(cache.meta[..]), Key(dev, start + tail + 1))
      ensures
        var w := Put(start + tail + 1, old(V())[hdr[tail]]);
        if ok then D() == Store(old(D()), w) && V() == Store(old(V()), w) && trace == old(trace) + [w]
        else D() == old(D()) && V() == old(V()) && trace == old(trace)
      ensures SameRefs(old(cache.meta[..]), cache.meta[..])
    {
      hide Ring, Coherent, HasBlocks, GoodList, Dirty, CanRead, AllReferenced, AsDisk, Fetched;
      ghost var m0 := cache.meta[..];
      var to, from;
      ghost var m1;
      ok, to, from, m1 := FetchPair(tail, holder);
      if !ok {
        return;
      }
      ghost var m2 := cache.meta[..];
      ListedHome(start, size, hdr, tail);
      var data: Block := cache.data[from];
      PutBuffer(to, start + tail + 1, data);
      Drop(to);
      ghost var m3 := cache.meta[..];
      assert SameBuffer(Less(m2, to)[from], m3[from]);
      Drop(from);
      Restored(m0, m1, m2, m3, cache.meta[..], to, from);
    }

    /** Writes the header, with the blocks given, over what the header block held. */
    method WriteHead(blocks: seq<nat>) returns (ok: bool)
      requires Valid() && |blocks| <= LOGBLOCKS
      modifies this`trace, cache`view, cache`disk, cache`loose, cache`lru, cache.meta, cache.data
      ensures Valid()
      ensures ok <==> CanRead(old(cache.meta[..]), Key(dev, start))
      ensures
        var w := Put(start, EncodeHead(old(V())[start], blocks));
        if ok then D() == Store(old(D()), w) && V() == Store(old(V()), w) && trace == old(trace) + [w]
        else D() == old(D()) && V() == old(V()) && trace == old(trace)
      ensures SameRefs(old(cache.meta[..]), cache.meta[..])
    {
      hide Ring, Coherent, HasBlocks, GoodList, Dirty, CanRead, AllReferenced, AsDisk, EncodeHead;
      ghost var m0 := cache.meta[..];
      var id;
      ok, id := Fetch(start);
      if !ok {
        return;
      }
      ghost var m1 := cache.meta[..];
      PutBuffer(id, start, EncodeHead(cache.data[id], blocks));
      Drop(id);
      RestoredOne(m0, m1, cache.meta[..], id);
    }

    /** Copies a clean buffer, of block b, to the buffer of block c and writes that one. */
    method CopyHome(from: nat, b: nat, to: nat, c: nat)
      requires Valid() && b < size && c < size && b != c && cache.Held(from) && cache.Held(to)
      requires KeyOf(cache.meta[from]) == Key(dev, b) && KeyOf(cache.meta[to]) == Key(dev, c)
      requires cache.data[from] == V()[b] == D()[b]
      modifies this`trace, cache`view, cache`disk, cache`loose, cache.data
      ensures Valid()
      ensures var w := Put(c, old(V())[b]); D() == Store(old(D()), w) && V() == Store(old(V()), w) && trace == old(trace) + [w]
      ensures !Dirty(cache.meta[..], cache.data[..], cache.disk, from) && !Dirty(cache.meta[..], cache.data[..], cache.disk, to)
    {
      hide Ring, Coherent, GoodList;
      PutBuffer(to, c, cache.data[from]);
    }

    /** Unpins the second of two clean buffers and releases both. */
    method UnpinPair(a: nat, b: nat)
      requires Valid() && a != b && cache.Held(a) && cache.Held(b) && cache.meta[b].refCount > 1
      requires !Dirty(cache.meta[..], cache.data[..], cache.disk, a) && !Dirty(cache.meta[..], cache.data[..], cache.disk, b)
      modifies cache`loose, cache`lru, cache.meta
      ensures Valid()
      ensures
        var m := Less(old(cache.meta[..]), b);
        && m[a].refCount > 0 && Less(m, a)[b].refCount > 0
        && SameBuffers(Less(Less(m, a), b), cache.meta[..])
    {
      hide Ring, Coherent, HasBlocks, GoodList, Dirty;
      ghost var m2 := cache.meta[..];
      Unpin(b);
      ghost var m3 := cache.meta[..];
      SameDirty(m2, m3, cache.data[..], cache.disk, a);
      SameDirty(m2, m3, cache.data[..], cache.disk, b);
      Drop(a);
      ghost var m4 := cache.meta[..];
      assert SameBuffer(Less(m3, a)[b], m4[b]);
      SameDirty(m3, m4, cache.data[..], cache.disk, b);
      Drop(b);
      LessSame(Less(m3, a), m4, cache.meta[..], b);
    }

    /** Copies the log block `tail` to its home location and unpins that block. */
    method InstallBlock(tail: nat, ghost holder: seq<nat>) returns (ok: bool)
      requires Valid() && tail < |hdr| && Pinned(cache.meta[..], dev, hdr, holder, tail)
      requires start + tail + 1 < size && D()[start + tail + 1] == V()[start + tail + 1]
      modifies this`trace, cache`view, cache`disk, cache`loose, cache`lru, cache.meta, cache.data
      ensures Valid()
      ensures ok <==> CanRead(old(cache.meta[..]), Key(dev, start + tail + 1))
      ensures
        var w := Put(hdr[tail], old(V())[start + tail + 1]);
        if ok then D() == Store(old(D()), w) && V() == Store(old(V()), w) && trace == old(trace) + [w]
        else D() == old(D()) && V() == old(V()) && trace == old(trace)
      ensures Fewer(old(cache.meta[..]), cache.meta[..])
      ensures ok ==> forall j :: 0 <= j < NBUF ==>
                cache.meta[j].refCount == old(cache.meta[j].refCount) - (if j == holder[tail] then 1 else 0)
    {
      hide Ring, Coherent, HasBlocks, GoodList, CanRead, AllReferenced, Dirty, Fetched, Less, SameBuffers, AsDisk;
      ghost var m0 := cache.meta[..];
      ListedHome(start, size, hdr, tail);
      var lbuf, dbuf;
      ghost var m1;
      ok, lbuf, dbuf, m1 := FetchPair(tail, holder);
      if !ok {
        return;
      }
      ghost var m2 := cache.meta[..];
      CopyHome(lbuf, start + tail + 1, dbuf, hdr[tail]);
      UnpinPair(lbuf, dbuf);
      Unpinned(m0, m1, m2, cache.meta[..], lbuf, dbuf);
    }

    // ---------------------------------------------------------------- the commit

    lemma HeadUnused()
      requires Valid()
      ensures cache.meta.Length == NBUF && cache.meta[HEAD].dev == 0 && dev != 0
    {
      CoherentFacts(cache.meta[..], cache.data[..], cache.disk, cache.view, cache.loose);
    }

    /** Copies the blocks of the transaction into the log, or the first `done` of them. */
    method WriteLog(ghost holder: seq<nat>) returns (ok: bool, ghost done: nat)
      requires Valid() && Pinned(cache.meta[..], dev, hdr, holder, 0)
      modifies this`trace, cache`view, cache`disk, cache`loose, cache`lru, cache.meta, cache.data
      ensures Valid() && done <= |hdr| && (ok ==> done == |hdr|)
      ensures ok <==> Reachable(old(cache.meta[..]), dev, start, 1, |hdr|)
      ensures
        var ws := LogCopies(start, old(V()), hdr);
        D() == Apply(old(D()), ws[..done]) && V() == Apply(old(V()), ws[..done]) && trace == old(trace) + ws[..done]
      ensures SameRefs(old(cache.meta[..]), cache.meta[..])
    {
      hide Ring, Coherent, HasBlocks, GoodList, CanRead, AsDisk, Apply, LogCopies, Fewer, Pinned;
      ghost var m0, d0, v0 := cache.meta[..], D(), V();
      ghost var ws := LogCopies(start, v0, hdr);
      assert ws[..0] == [];
      LogDriver.ApplyNone(d0);
      LogDriver.ApplyNone(v0);
      SameRefsSelf(m0);
      HeadUnused();
      done := 0;
      ok := true;
      for tail := 0 to |hdr|
        invariant Valid() && done == tail && ok
        invariant D() == Apply(d0, ws[..tail]) && V() == Apply(v0, ws[..tail]) && trace == old(trace) + ws[..tail]
        invariant SameRefs(m0, cache.meta[..]) && Reachable(m0, dev, start, 1, tail)
      {
        ghost var m1 := cache.meta[..];
        PinnedKept(m0, m1, dev, hdr, holder);
        LogDriver.CopySource(start, v0, hdr, tail);
        LogDriver.LogCopyAt(start, v0, hdr, tail);
        GroupCommit.ApplyNext(d0, ws, tail);
        GroupCommit.ApplyNext(v0, ws, tail);
        HeadUnused();
        SameReads(m0, m1, Key(dev, start + tail + 1));
        ok := LogBlock(tail, holder);
        SameRefsTrans(m0, m1, cache.meta[..]);
        assert ok <==> CanReach(m0, dev, start, tail + 1);
        if !ok {
          return;
        }
        assert ws[..tail + 1] == ws[..tail] + [ws[tail]];
        done := tail + 1;
      }
      assert ws[..|hdr|] == ws;
    }

    /** Copies the blocks of the transaction from the log to their home locations and unpins them. */
    method InstallTrans(ghost holder: seq<nat>)
      requires Valid() && Pinned(cache.meta[..], dev, hdr, holder, 0) && Reachable(cache.meta[..], dev, start, 1, |hdr|)
      requires forall b :: start < b <= start + LOGBLOCKS ==> D()[b] == V()[b]
      modifies this`trace, cache`view, cache`disk, cache`loose, cache`lru, cache.meta, cache.data
      ensures Valid()
      ensures
        var ws := LogDriver.InstallsFrom(start, old(V()), hdr);
        D() == Apply(old(D()), ws) && V() == Apply(old(V()), ws) && trace == old(trace) + ws
      ensures Fewer(old(cache.meta[..]), cache.meta[..])
      ensures forall j :: 0 <= j < NBUF ==>
                cache.meta[j].refCount == old(cache.meta[j].refCount) - (if j in holder then 1 else 0)
    {
      hide Ring, Coherent, HasBlocks, GoodList, CanRead, AsDisk, Apply, LogDriver.InstallsFrom, Fewer, Pinned, Installing;
      ghost var m0, d0, v0 := cache.meta[..], D(), V();
      ListFits(start, size, hdr);
      ghost var ws := LogDriver.InstallsFrom(start, v0, hdr);
      assert ws[..0] == [];
      LogDriver.ApplyNone(d0);
      LogDriver.ApplyNone(v0);
      InstallingStart(m0, dev, hdr, holder);
      HeadUnused();
      for tail := 0 to |hdr|
        invariant Valid()
        invariant D() == Apply(d0, ws[..tail]) && V() == Apply(v0, ws[..tail]) && trace == old(trace) + ws[..tail]
        invariant Installing(m0, cache.meta[..], dev, hdr, holder, tail)
      {
        ghost var m1 := cache.meta[..];
        HeadUnused();
        assert CanReach(m0, dev, start, tail + 1);
        InstallingFacts(m0, m1, dev, hdr, holder, tail);
        FewerReads(m0, m1, Key(dev, start + tail + 1));
        InstallRound(start, d0, v0, hdr, tail);
        var ok := InstallBlock(tail, holder);
        InstallPins(m0, m1, cache.meta[..], dev, start, size, hdr, holder, tail);
        assert ws[..tail + 1] == ws[..tail] + [ws[tail]];
      }
      assert ws[..|hdr|] == ws;
      InstallingFacts(m0, cache.meta[..], dev, hdr, holder, |hdr|);
    }

    /** The first half of a commit: the log blocks and then the header. */
    method WriteToLog(ghost holder: seq<nat>) returns (ok: bool, ghost done: nat)
      requires Valid() && Pinned(cache.meta[..], dev, hdr, holder, 0)
      modifies this`trace, cache`view, cache`disk, cache`loose, cache`lru, cache.meta, cache.data
      ensures Valid() && done <= |hdr| && SameRefs(old(cache.meta[..]), cache.meta[..])
      ensures ok <==> Reachable(old(cache.meta[..]), dev, start, 0, |hdr|)
      ensures |hdr| <= LOGBLOCKS
      ensures
        var a := LogCopies(start, old(V()), hdr);
        var w := Put(start, EncodeHead(Apply(old(V()), a)[start], hdr));
        if ok then D() == Store(Apply(old(D()), a), w) && V() == Store(Apply(old(V()), a), w) && trace == old(trace) + a + [w]
        else D() == Apply(old(D()), a[..done]) && V() == Apply(old(V()), a[..done]) && trace == old(trace) + a[..done]
    {
      hide Ring, Coherent, HasBlocks, GoodList, CanRead, AsDisk, Apply, LogCopies, Fewer, Pinned, EncodeHead;
      ghost var m0 := cache.meta[..];
      ListFits(start, size, hdr);
      ghost var a := LogCopies(start, V(), hdr);
      HeadUnused();
      ok, done := WriteLog(holder);
      ghost var m1 := cache.meta[..];
      if !ok {
        assert exists t: nat :: 1 <= t <= |hdr| && !CanReach(m0, dev, start, t);
        return;
      }
      assert a[..done] == a;
      HeadUnused();
      SameReads(m0, m1, Key(dev, start));
      ok := WriteHead(hdr);
      assert ok <==> CanReach(m0, dev, start, 0);
      SameRefsTrans(m0, m1, cache.meta[..]);
    }

    /** The second half: the home blocks and then an empty header. */
    method InstallAndErase(ghost holder: seq<nat>)
      requires Valid() && Pinned(cache.meta[..], dev, hdr, holder, 0) && Reachable(cache.meta[..], dev, start, 0, |hdr|)
      requires forall b :: start < b <= start + LOGBLOCKS ==> D()[b] == V()[b]
      modifies this, cache`view, cache`disk, cache`loose, cache`lru, cache.meta, cache.data
      ensures Valid() && hdr == [] && |old(hdr)| <= LOGBLOCKS
      ensures
        var b := LogDriver.InstallsFrom(start, old(V()), old(hdr));
        var w := Put(start, EncodeHead(Apply(old(V()), b)[start], []));
        D() == Store(Apply(old(D()), b), w) && V() == Store(Apply(old(V()), b), w) && trace == old(trace) + b + [w]
      ensures Fewer(old(cache.meta[..]), cache.meta[..])
      ensures forall j :: 0 <= j < NBUF ==>
                cache.meta[j].refCount == old(cache.meta[j].refCount) - (if j in holder then 1 else 0)
    {
      hide Ring, Coherent, HasBlocks, GoodList, CanRead, AsDisk, Apply, LogDriver.InstallsFrom, Fewer, Pinned, EncodeHead;
      ghost var m0 := cache.meta[..];
      ListFits(start, size, hdr);
      HeadUnused();
      InstallTrans(holder);
      ghost var m1 := cache.meta[..];
      HeadUnused();
      assert CanReach(m0, dev, start, 0);
      FewerReads(m0, m1, Key(dev, start));
      hdr := [];
      GoodNone(start, size);
      var last := WriteHead([]);
      FewerTrans(m0, m1, cache.meta[..]);
    }

    /** The body of a commit, with its result: how many of its writes were issued. */
    method WriteTransaction(ghost holder: seq<nat>) returns (ok: bool, ghost done: nat)
      requires Valid() && hdr != [] && Pinned(cache.meta[..], dev, hdr, holder, 0) && AgreeOutside(D(), V(), hdr)
      modifies this, cache`view, cache`disk, cache`loose, cache`lru, cache.meta, cache.data
      ensures Valid() && hdr == (if ok then [] else old(hdr))
      ensures ok <==> Reachable(old(cache.meta[..]), dev, start, 0, |old(hdr)|)
      ensures
        var ws := CommitWrites(start, old(V()), old(hdr));
        && (if ok then done == |ws| else done <= |old(hdr)| && done <= |ws|)
        && D() == Apply(old(D()), ws[..done]) && V() == Apply(old(V()), ws[..done]) && trace == old(trace) + ws[..done]
      ensures forall j :: 0 <= j < NBUF ==>
                cache.meta[j].refCount == old(cache.meta[j].refCount) - (if ok && j in holder then 1 else 0)
    {
      hide Ring, Coherent, HasBlocks, GoodList, CanRead, AsDisk, Apply, LogDriver.InstallsFrom, LogCopies, CommitWrites, Fewer, Pinned,
           EncodeHead, AgreeOutside, Reachable;
      ghost var m0, d0, v0, hdr0 := cache.meta[..], D(), V(), hdr;
      ghost var ws := CommitWrites(start, v0, hdr);
      HeadUnused();
      ok, done := WriteToLog(holder);
      CommitPrefix(start, v0, hdr, done);
      if !ok {
        return;
      }
      ghost var m1 := cache.meta[..];
      PinnedKept(m0, m1, dev, hdr, holder);
      HeadUnused();
      ReachKept(m0, m1, dev, start, 0, |hdr|);
      LogAgrees(start, d0, v0, hdr, Put(start, EncodeHead(Apply(v0, LogCopies(start, v0, hdr))[start], hdr)));
      InstallAndErase(holder);
      done := |ws|;
      assert ws[..done] == ws;
      CommitApplied(start, d0, v0, hdr0);
      CommitApplied(start, v0, v0, hdr0);
    }

    /**
      Commits the transaction. It stops for want of a buffer exactly when every buffer is referenced
      and some block of the log area that it needs is not cached; in particular it does not when the
      blocks of the transaction and the other referenced buffers are at most NBUF - 2. It stops before
      the header is written, so a recovery finds the disk as it was before the transaction. At every
      point of the writes a recovery finds the disk before or after the transaction.
    */
    method Commit(ghost holder: seq<nat>) returns (ok: bool)
      requires Valid() && Pinned(cache.meta[..], dev, hdr, holder, 0)
      requires EmptyLog(start, D()) && AgreeOutside(D(), V(), hdr)
      modifies this, cache`view, cache`disk, cache`loose, cache`lru, cache.meta, cache.data
      ensures Valid()
      ensures ok <==> old(hdr) == [] || Reachable(old(cache.meta[..]), dev, start, 0, |old(hdr)|)
      ensures |old(hdr)| + |Others(old(cache.meta[..]), holder)| <= NBUF - 2 ==> ok
      ensures ok ==> hdr == [] && EmptyLog(start, D()) && D() == V() && SameHome(start, D(), old(V()))
      ensures forall j :: 0 <= j < NBUF ==>
                cache.meta[j].refCount == old(cache.meta[j].refCount) - (if ok && j in holder then 1 else 0)
      ensures !ok ==> hdr == old(hdr) && Recoverable(start, D()) && SameHome(start, Recovered(start, D()), old(D()))
      ensures
        var ws := CommitWrites(start, old(V()), old(hdr));
        && (exists done: nat :: done <= |ws| && trace == old(trace) + ws[..done] && D() == Apply(old(D()), ws[..done]))
        && (forall k :: 0 <= k <= |ws| ==>
              var p := Apply(old(D()), ws[..k]);
              && Recoverable(start, p)
              && SameHome(start, Recovered(start, p), if k <= |old(hdr)| then old(D()) else old(V())))
    {
      hide Ring, Coherent, HasBlocks, GoodList, CanRead, AsDisk, Apply, CommitWrites, Fewer, Pinned, AgreeOutside, Recovered, SameHome,
           EmptyLog, Recoverable, Reachable, Others;
      ghost var d0, v0, hdr0 := D(), V(), hdr;
      ghost var ws := CommitWrites(start, v0, hdr);
      LogDriver.CommitOutcome(start, d0, v0, hdr);
      EnoughBuffers(cache.meta[..], dev, start, size, hdr, holder);
      if hdr == [] {
        PinnedLength(cache.meta[..], dev, hdr, holder);
        LogDriver.NoWrites(start, v0);
        LogDriver.ApplyNone(d0);
        LogDriver.ApplyNone(v0);
        assert ws[..0] == [];
        return true;
      }
      ghost var done;
      ok, done := WriteTransaction(holder);
      assert ws[..|ws|] == ws;
      assert trace == old(trace) + ws[..done] && D() == Apply(d0, ws[..done]);
    }

    // ---------------------------------------------------------------- logging blocks

    /** The position of block b in the list, or its length. */
    method Position(b: nat) returns (i: nat)
      ensures i <= |hdr| && b !in hdr[..i] && (i < |hdr| ==> hdr[i] == b)
    {
      i := 0;
      while i < |hdr|
        invariant i <= |hdr| && b !in hdr[..i]
      {
        if hdr[i] == b {
          break;
        }
        i := i + 1;
      }
    }

    /**
      Records that the holder of buffer id has changed its block b. The guard on the header runs
      before the scan for absorption. A block that is listed for the first time is pinned, so every
      listed block carries one pin besides the references of its holders.
     */
    method Write(id: nat, b: nat, outstanding: nat, ghost holder: seq<nat>, ghost held: seq<nat>)
      returns (r: LogDriver.WriteResult, ghost holder': seq<nat>)
      requires Valid() && b < size && Home(start, b) && cache.Held(id) && KeyOf(cache.meta[id]) == Key(dev, b)
      requires Accounted(cache.meta[..], dev, hdr, holder, held)
      modifies this`hdr, cache.meta
      ensures Valid() && cache.Held(id) && KeyOf(cache.meta[id]) == Key(dev, b)
      ensures r.TransactionTooBig? <==> |old(hdr)| >= LOGBLOCKS || |old(hdr)| >= nlogs - 1
      ensures r.OutsideOfTransaction? <==> !r.TransactionTooBig? && outstanding < 1
      ensures hdr == if r.Logged? then GroupCommit.Absorb(old(hdr), b) else old(hdr)
      ensures Accounted(cache.meta[..], dev, hdr, holder', held)
      ensures r.Logged? ==> id in holder' && cache.meta[id].refCount == held[id] + 1
    {
      hide Ring, Coherent, HasBlocks, GoodList, Dirty, Accounted;
      holder' := holder;
      if |hdr| >= LOGBLOCKS || |hdr| >= nlogs - 1 {
        return LogDriver.TransactionTooBig, holder';
      }
      if outstanding < 1 {
        return LogDriver.OutsideOfTransaction, holder';
      }
      AbsorbFits(start, size, hdr, b);
      var i := Position(b);
      if i == |hdr| {
        assert hdr[..i] == hdr;
        AccountPinned(cache.meta[..], dev, hdr, holder, held, id, b);
        cache.Pin(id);
        hdr := hdr + [b];
        holder' := holder + [id];
        assert b in hdr by { assert hdr[i] == b; }
      } else {
        assert hdr[i := b] == hdr;
        hdr := hdr[i := b];
      }
      ListedIsPinned(cache.meta[..], cache.data[..], cache.disk, cache.view, cache.loose, dev, hdr, holder', held, id, b);
      r := LogDriver.Logged;
    }

    /**
      Changes block b as an operation does: reads it, changes it, logs it and releases it. The cache
      shows the change, the disk does not have it, and the references are as before but for the pin.
     */
    method Update(b: nat, data: Block, outstanding: nat, ghost holder: seq<nat>, ghost held: seq<nat>)
      returns (r: UpdateResult, ghost holder': seq<nat>)
      requires Valid() && b < size && Home(start, b)
      requires Accounted(cache.meta[..], dev, hdr, holder, held) && AgreeOutside(D(), V(), hdr)
      modifies this`hdr, cache`view, cache`loose, cache`lru, cache.meta, cache.data
      ensures Valid() && D() == old(D())
      ensures r.NoBuffer? <==> !CanRead(old(cache.meta[..]), Key(dev, b))
      ensures r.TooBig? <==> !r.NoBuffer? && (|old(hdr)| >= LOGBLOCKS || |old(hdr)| >= nlogs - 1)
      ensures r.Outside? <==> !r.NoBuffer? && !r.TooBig? && outstanding < 1
      ensures r.Updated? ==> V() == Store(old(V()), Put(b, data)) && hdr == GroupCommit.Absorb(old(hdr), b)
      ensures r.Updated? ==> Accounted(cache.meta[..], dev, hdr, holder', held) && AgreeOutside(D(), V(), hdr)
    {
      hide Ring, Coherent, HasBlocks, GoodList, Dirty, Accounted, CanRead, AsDisk, Fetched, AgreeOutside, SameBuffers;
      holder' := holder;
      ghost var m0 := cache.meta[..];
      AccountLength(m0, dev, hdr, holder, held);
      var ok, id := Fetch(b);
      if !ok {
        return NoBuffer, holder';
      }
      AccountFetched(m0, cache.meta[..], dev, hdr, holder, held, id);
      StoreBlock(cache.view, dev, size, b, data);
      cache.Modify(id, data);
      AgreeChanged(D(), old(V()), hdr, b, data);
      ghost var held1 := held[id := held[id] + 1];
      var w;
      w, holder' := Write(id, b, outstanding, holder, held1);
      if w.TransactionTooBig? {
        return TooBig, holder';
      }
      if w.OutsideOfTransaction? {
        return Outside, holder';
      }
      AgreeAbsorbed(start, D(), V(), old(hdr), b);
      ghost var m2 := cache.meta[..];
      Drop(id);
      AccountDropped(m2, cache.meta[..], dev, hdr, holder', held, id);
      r := Updated;
    }

    /**
      A whole transaction through the cache: every block is changed and logged, and then all are
      committed. If it comes to its end the disk has every change. If it panics on the way, for want
      of a buffer or of room in the log, a recovery finds the disk as it was before.
     */
    method Transaction(puts: seq<Put>, outstanding: nat, ghost holder: seq<nat>, ghost held: seq<nat>) returns (done: bool)
      requires Valid() && forall k :: 0 <= k < |puts| ==> puts[k].at < size && Home(start, puts[k].at)
      requires Accounted(cache.meta[..], dev, hdr, holder, held)
      requires EmptyLog(start, D()) && AgreeOutside(D(), V(), hdr)
      modifies this, cache`view, cache`disk, cache`loose, cache`lru, cache.meta, cache.data
      ensures Valid()
      ensures done ==> hdr == [] && EmptyLog(start, D()) && D() == V() && SameHome(start, D(), Apply(old(V()), puts))
      ensures done ==> Accounted(cache.meta[..], dev, [], [], held)
      ensures !done ==> Recoverable(start, D()) && SameHome(start, Recovered(start, D()), old(D()))
    {
      hide Ring, Coherent, HasBlocks, GoodList, Accounted, CanRead, AsDisk, Apply, AgreeOutside, EmptyLog, Recovered, Recoverable, SameHome,
           Reachable, CommitWrites, Others, Pinned;
      ghost var d0, v0 := D(), V();
      NothingYet(start, d0, v0, hdr);
      ghost var pins := holder;
      assert puts[..0] == [];
      LogDriver.ApplyNone(v0);
      for k := 0 to |puts|
        invariant Valid() && D() == d0 && V() == Apply(v0, puts[..k])
        invariant Accounted(cache.meta[..], dev, hdr, pins, held) && AgreeOutside(D(), V(), hdr)
      {
        GroupCommit.ApplyNext(v0, puts, k);
        var r;
        r, pins := Update(puts[k].at, puts[k].data, outstanding, pins, held);
        if !r.Updated? {
          return false;
        }
      }
      assert puts[..|puts|] == puts;
      ghost var m := cache.meta[..];
      AccountPins(m, dev, hdr, pins, held);
      ghost var listed := hdr;
      done := Commit(pins);
      if done {
        AccountCommitted(m, cache.meta[..], dev, listed, pins, held);
      }
    }
  }
}
