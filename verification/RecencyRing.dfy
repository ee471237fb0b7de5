/**
  The recency list of the buffer cache: a doubly linked ring kept by indices in the buffer
  metadata. The ring is described by the sequence of its members, starting at the list head.
*/
module RecencyRing {

  const NBUF: nat := 30
  const HEAD: nat := 0

  datatype BufMeta = BufMeta(valid: bool, dev: nat, blockNo: nat, refCount: nat, prev: nat, next: nat)

  predicate Distinct(r: seq<nat>) {
    forall i, j :: 0 <= i < j < |r| ==> r[i] != r[j]
  }

  predicate Link(m: seq<BufMeta>, a: nat, b: nat)
    requires a < |m| && b < |m|
  {
    m[a].next == b && m[b].prev == a
  }

  function Succ(k: nat, n: nat): (r: nat) {
    if k + 1 == n then 0 else k + 1
  }

  /** The indices of `m` in `r` form one ring, in that order. */
  predicate Linked(m: seq<BufMeta>, r: seq<nat>) {
    && Distinct(r)
    && (forall k :: 0 <= k < |r| ==> r[k] < |m|)
    && (forall k :: 0 <= k < |r| ==> Link(m, r[k], r[Succ(k, |r|)]))
  }

  predicate SameBuffer(a: BufMeta, b: BufMeta) {
    a.valid == b.valid && a.dev == b.dev && a.blockNo == b.blockNo && a.refCount == b.refCount
  }

  /** Only the links differ. */
  predicate SameBuffers(m: seq<BufMeta>, u: seq<BufMeta>) {
    |u| == |m| && forall i :: 0 <= i < |m| ==> SameBuffer(m[i], u[i])
  }

  function Drop(r: seq<nat>, p: nat): (s: seq<nat>)
    requires p < |r|
    ensures |s| == |r| - 1
    ensures forall k :: 0 <= k < |s| ==> s[k] == r[if k < p then k else k + 1]
  {
    r[..p] + r[p + 1..]
  }

  function Unlink(m: seq<BufMeta>, id: nat): (u: seq<BufMeta>)
    requires id < |m| && m[id].next < |m| && m[id].prev < |m|
    ensures SameBuffers(m, u)
  {
    var next, prev := m[id].next, m[id].prev;
    var a := m[next := m[next].(prev := m[id].prev)];
    a[prev := a[prev].(next := a[id].next)]
  }

  function InsertAfterHead(m: seq<BufMeta>, id: nat): (u: seq<BufMeta>)
    requires id < |m| && HEAD < |m| && m[HEAD].next < |m|
    ensures SameBuffers(m, u)
  {
    var first := m[HEAD].next;
    var a := m[id := m[id].(next := first, prev := HEAD)];
    var b := a[first := a[first].(prev := id)];
    b[HEAD := b[HEAD].(next := id)]
  }

  /** Unlinking a member leaves a ring of the others. */
  lemma UnlinkKeeps(m: seq<BufMeta>, r: seq<nat>, p: nat)
    requires Linked(m, r) && 0 < p < |r|
    ensures m[r[p]].next < |m| && m[r[p]].prev < |m|
    ensures Linked(Unlink(m, r[p]), Drop(r, p))
  {
    var id, n := r[p], |r|;
    assert Link(m, r[p - 1], r[Succ(p - 1, n)]);
    assert Link(m, id, r[Succ(p, n)]);
    var u, s := Unlink(m, id), Drop(r, p);
    forall k | 0 <= k < |s| ensures Link(u, s[k], s[Succ(k, |s|)]) {
      var j := if k < p then k else k + 1;
      assert Link(m, r[j], r[Succ(j, n)]);
    }
  }

  /** Inserting an outsider after the head puts it second in the ring. */
  lemma InsertKeeps(m: seq<BufMeta>, r: seq<nat>, id: nat)
    requires Linked(m, r) && 0 < |r| && r[0] == HEAD && id !in r && id < |m|
    ensures m[HEAD].next < |m|
    ensures Linked(InsertAfterHead(m, id), [HEAD, id] + r[1..])
  {
    var n := |r|;
    assert Link(m, r[0], r[Succ(0, n)]);
    var u, s := InsertAfterHead(m, id), [HEAD, id] + r[1..];
    forall k | 0 <= k < |s| ensures s[k] < |u| && Link(u, s[k], s[Succ(k, |s|)]) {
      if k >= 2 {
        assert Link(m, r[k - 1], r[Succ(k - 1, n)]);
      }
    }
  }

  /** A ring of the head and the other buffers, most recently released first. */
  predicate Ring(m: seq<BufMeta>, lru: seq<nat>) {
    && |m| == NBUF && |lru| == NBUF - 1
    && Linked(m, [HEAD] + lru)
    && (forall k :: 0 <= k < |lru| ==> 0 < lru[k] < NBUF)
    && (forall i :: 0 < i < NBUF ==> i in lru)
  }

  /** Releasing the last reference moves the buffer to the front of the recency list. */
  lemma MoveToFront(m: seq<BufMeta>, lru: seq<nat>, p: nat)
    requires Ring(m, lru) && p < |lru|
    ensures var id := lru[p];
            && m[id].next < |m| && m[id].prev < |m|
            && Unlink(m, id)[HEAD].next < |m|
            && Ring(InsertAfterHead(Unlink(m, id), id), [id] + Drop(lru, p))
            && SameBuffers(m, InsertAfterHead(Unlink(m, id), id))
  {
    hide Unlink, InsertAfterHead;
    var r, id := [HEAD] + lru, lru[p];
    UnlinkKeeps(m, r, p + 1);
    var u, s := Unlink(m, id), Drop(r, p + 1);
    assert id !in s;
    InsertKeeps(u, s, id);
    hide Linked;
    assert [HEAD, id] + s[1..] == [HEAD] + ([id] + Drop(lru, p));
    forall i | 0 < i < NBUF ensures i in [id] + Drop(lru, p) {
      DropKeeps(lru, p, i);
    }
  }

  lemma DropKeeps(r: seq<nat>, p: nat, x: nat)
    requires p < |r| && x in r
    ensures x == r[p] || x in Drop(r, p)
  {
    var k :| 0 <= k < |r| && r[k] == x;
    if k < p { assert Drop(r, p)[k] == x; }
    if p < k { assert Drop(r, p)[k - 1] == x; }
  }

  lemma Position(m: seq<BufMeta>, lru: seq<nat>, i: nat) returns (p: nat)
    requires Ring(m, lru) && 0 < i < NBUF
    ensures p < |lru| && lru[p] == i
  {
    assert i in lru;
    p :| p < |lru| && lru[p] == i;
  }

  /** The ring built by initialization. */
  lemma InitialRing(m: seq<BufMeta>, lru: seq<nat>)
    requires |m| == NBUF && lru == seq(NBUF - 1, i => i + 1)
    requires forall i :: 0 <= i < NBUF ==>
               m[i].prev == (if i == 0 then NBUF - 1 else i - 1) && m[i].next == (if i == NBUF - 1 then 0 else i + 1)
    ensures Ring(m, lru)
  {
    var r := [HEAD] + lru;
    assert forall k :: 0 <= k < NBUF ==> r[k] == k;
    forall i | 0 < i < NBUF ensures i in lru {
      assert lru[i - 1] == i;
    }
  }

  /** Changes that leave the links alone keep the ring. */
  lemma RingKept(m: seq<BufMeta>, u: seq<BufMeta>, lru: seq<nat>)
    requires Ring(m, lru) && |u| == |m|
    requires forall i :: 0 <= i < |m| ==> u[i].prev == m[i].prev && u[i].next == m[i].next
    ensures Ring(u, lru)
  {
    var r := [HEAD] + lru;
    forall k | 0 <= k < |r| ensures Link(u, r[k], r[Succ(k, |r|)]) {
      assert Link(m, r[k], r[Succ(k, |r|)]);
    }
  }

  // ---------------------------------------------------------------- which buffer is recycled

  /** Buffer lru[p] is the least recently released buffer without references. */
  predicate LeastRecent(m: seq<BufMeta>, lru: seq<nat>, p: nat)
    requires Ring(m, lru)
  {
    && p < |lru| && m[lru[p]].refCount == 0
    && forall k :: p < k < |lru| ==> m[lru[k]].refCount > 0
  }

  /** Every buffer but the head is referenced. */
  predicate AllReferenced(m: seq<BufMeta>) {
    forall i :: 0 < i < |m| ==> m[i].refCount > 0
  }

  function Referenced(m: seq<BufMeta>): (s: set<nat>) {
    set i | 0 < i < |m| && m[i].refCount > 0
  }

  /** The indices of the buffers other than the head. */
  function NonHead(n: nat): (s: set<nat>)
    ensures forall i :: i in s <==> 0 < i < n
    ensures |s| == if n == 0 then 0 else n - 1
  {
    if n <= 1 then {} else NonHead(n - 1) + {n - 1}
  }

  /** A buffer can be recycled exactly when at most NBUF - 2 of them are referenced. */
  lemma RecyclableCount(m: seq<BufMeta>)
    requires |m| == NBUF
    ensures !AllReferenced(m) <==> |Referenced(m)| <= NBUF - 2
  {
    hide NonHead;
    var all := NonHead(NBUF);
    if AllReferenced(m) {
      assert Referenced(m) == all;
    } else {
      var i :| 0 < i < NBUF && m[i].refCount == 0;
      assert Referenced(m) <= all - {i};
      Subset(Referenced(m), all - {i});
    }
  }

  lemma {:induction false} Subset(a: set<nat>, b: set<nat>)
    requires a <= b
    ensures |a| <= |b|
    decreases a
  {
    if a != {} {
      var x :| x in a;
      Subset(a - {x}, b - {x});
    }
  }

  lemma {:induction false} CountHolders(m: seq<BufMeta>, blocks: seq<nat>, holder: seq<nat>) returns (s: set<nat>)
    requires |holder| == |blocks| && Distinct(blocks)
    requires forall k :: 0 <= k < |blocks| ==> 0 < holder[k] < |m| && m[holder[k]].blockNo == blocks[k]
    ensures s == (set k | 0 <= k < |holder| :: holder[k]) && |s| == |holder|
  {
    s := {};
    if blocks != [] {
      var n := |blocks| - 1;
      var t := CountHolders(m, blocks[..n], holder[..n]);
      assert holder[n] !in t by {
        forall k | 0 <= k < n ensures holder[..n][k] != holder[n] {
          assert m[holder[k]].blockNo != m[holder[n]].blockNo;
        }
      }
      s := t + {holder[n]};
      assert s == set k | 0 <= k < |holder| :: holder[k] by {
        forall x | x in s ensures exists k :: 0 <= k < |holder| && holder[k] == x {
          if x in t { var k :| 0 <= k < n && holder[..n][k] == x; assert holder[k] == x; }
        }
        forall k | 0 <= k < |holder| ensures holder[k] in s {
          if k < n { assert holder[..n][k] in t; }
        }
      }
    }
  }

  /** The referenced buffers that hold no block of the transaction. */
  function Others(m: seq<BufMeta>, holder: seq<nat>): (s: set<nat>) {
    set i | 0 < i < |m| && m[i].refCount > 0 && i !in holder
  }

  /**
    A commit reads log blocks while every block of the transaction is pinned. It finds a buffer to
    recycle exactly when the blocks of the transaction and the other referenced buffers are at most
    NBUF - 2; the log itself admits LOGBLOCKS = NBUF blocks.
   */
  lemma CommitFindsBuffer(m: seq<BufMeta>, blocks: seq<nat>, holder: seq<nat>)
    requires |m| == NBUF && |holder| == |blocks| && Distinct(blocks)
    requires forall k :: 0 <= k < |blocks| ==>
               0 < holder[k] < |m| && m[holder[k]].blockNo == blocks[k] && m[holder[k]].refCount > 0
    ensures !AllReferenced(m) <==> |blocks| + |Others(m, holder)| <= NBUF - 2
  {
    var s := CountHolders(m, blocks, holder);
    assert Referenced(m) == s + Others(m, holder) && s !! Others(m, holder);
    RecyclableCount(m);
  }
}
