/**
  The buffer cache over a disk. It is proved to be transparent: `view` is the map from blocks to
  their latest contents, every read returns the entry of `view`, and only a holder changing a
  buffer changes it. Recycling loses an update only of a block that was given up changed, without
  being written or pinned; as long as no block is, none is lost.
*/
module BufferCache {
  import opened RecencyRing

  /** A block of a device. Device numbers of cached blocks are nonzero. */
  datatype Key = Key(dev: nat, blockNo: nat)

  /** The bytes of a block. */
  type Contents = seq<nat>

  datatype GetResult = Got(id: nat) | NoBuffers

  function KeyOf(b: BufMeta): (k: Key) {
    Key(b.dev, b.blockNo)
  }

  /** Each cached block is in at most one buffer; the head is never used. */
  predicate Placed(m: seq<BufMeta>, disk: map<Key, Contents>) {
    && |m| == NBUF && m[HEAD].dev == 0
    && (forall i :: 0 <= i < NBUF && m[i].dev != 0 ==> KeyOf(m[i]) in disk)
    && (forall i :: 0 <= i < NBUF && m[i].valid ==> m[i].dev != 0)
    && (forall i, j :: 0 <= i < j < NBUF && m[i].dev != 0 ==> KeyOf(m[i]) != KeyOf(m[j]))
  }

  /** The block of buffer i has contents that the disk does not have. */
  predicate Dirty(m: seq<BufMeta>, data: seq<Contents>, disk: map<Key, Contents>, i: nat)
    requires i < |m| && i < |data|
  {
    m[i].valid && KeyOf(m[i]) in disk && data[i] != disk[KeyOf(m[i])]
  }

  predicate CachedValid(m: seq<BufMeta>, k: Key) {
    exists i :: 0 <= i < |m| && m[i].valid && KeyOf(m[i]) == k
  }

  /**
    The cache shows `view`, and what differs from the disk is referenced, except for the loose blocks:
    those whose last holder gave up a changed buffer without writing or logging it.
   */
  predicate Coherent(m: seq<BufMeta>, data: seq<Contents>, disk: map<Key, Contents>, view: map<Key, Contents>, loose: set<Key>) {
    && Placed(m, disk) && |data| == NBUF && view.Keys == disk.Keys
    && (forall i :: 0 <= i < NBUF && m[i].valid ==> view[KeyOf(m[i])] == data[i])
    && (forall i :: 0 <= i < NBUF && Dirty(m, data, disk, i) ==> m[i].refCount > 0 || KeyOf(m[i]) in loose)
    && (forall k :: k in disk && !CachedValid(m, k) ==> view[k] == disk[k])
  }

  // ---------------------------------------------------------------- what each change keeps

  /** Replacing one buffer leaves the others cached. */
  lemma CachedKept(m: seq<BufMeta>, i: nat, b: BufMeta, k: Key)
    requires i < |m| && CachedValid(m, k)
    requires k != KeyOf(m[i]) || (b.valid && KeyOf(b) == k)
    ensures CachedValid(m[i := b], k)
  {
    var j :| 0 <= j < |m| && m[j].valid && KeyOf(m[j]) == k;
    assert m[i := b][j].valid && KeyOf(m[i := b][j]) == k;
  }

  /** Changing links or counts; a changed buffer that loses its last reference makes its block loose. */
  lemma CountKeeps(m: seq<BufMeta>, u: seq<BufMeta>, data: seq<Contents>, disk: map<Key, Contents>, view: map<Key, Contents>,
                   loose: set<Key>, loose': set<Key>)
    requires Coherent(m, data, disk, view, loose) && |u| == |m|
    requires forall i :: 0 <= i < |m| ==> u[i].valid == m[i].valid && KeyOf(u[i]) == KeyOf(m[i])
    requires forall i :: 0 <= i < |m| && Dirty(m, data, disk, i) ==> u[i].refCount > 0 || KeyOf(u[i]) in loose'
    ensures Coherent(u, data, disk, view, loose')
  {
    forall k | CachedValid(m, k) ensures CachedValid(u, k) {
      var i :| 0 <= i < |m| && m[i].valid && KeyOf(m[i]) == k;
      assert u[i].valid && KeyOf(u[i]) == k;
    }
  }

  lemma RecyclePlaced(m: seq<BufMeta>, disk: map<Key, Contents>, i: nat, b: BufMeta)
    requires Placed(m, disk) && 0 < i < NBUF && b.dev != 0 && KeyOf(b) in disk && !b.valid
    requires forall j :: 0 <= j < NBUF ==> KeyOf(m[j]) != KeyOf(b)
    ensures Placed(m[i := b], disk)
  {
  }

  lemma CoherentFacts(m: seq<BufMeta>, data: seq<Contents>, disk: map<Key, Contents>, view: map<Key, Contents>, loose: set<Key>)
    requires Coherent(m, data, disk, view, loose)
    ensures |m| == |data| == NBUF && m[HEAD].dev == 0 && view.Keys == disk.Keys
    ensures forall i :: 0 <= i < NBUF && Dirty(m, data, disk, i) ==> m[i].refCount > 0 || KeyOf(m[i]) in loose
  {
  }

  /** What is seen once the buffer of block k is gone: the contents on disk. */
  function Forget(view: map<Key, Contents>, disk: map<Key, Contents>, k: Key): map<Key, Contents> {
    if k in disk then view[k := disk[k]] else view
  }

  /** Recycling an unreferenced buffer for a block that is not cached falls back on the disk for the old block. */
  lemma RecycleForgets(m: seq<BufMeta>, data: seq<Contents>, disk: map<Key, Contents>, view: map<Key, Contents>, loose: set<Key>,
                       i: nat, b: BufMeta)
    requires Coherent(m, data, disk, view, loose) && 0 < i < NBUF && m[i].refCount == 0
    requires b.dev != 0 && KeyOf(b) in disk && !b.valid && b.refCount > 0
    requires forall j :: 0 <= j < NBUF ==> KeyOf(m[j]) != KeyOf(b)
    ensures Coherent(m[i := b], data, disk, Forget(view, disk, KeyOf(m[i])), loose - {KeyOf(m[i])})
  {
    hide CachedValid;
    var u, k0 := m[i := b], KeyOf(m[i]);
    var view', loose' := Forget(view, disk, k0), loose - {k0};
    RecyclePlaced(m, disk, i, b);
    assert view'.Keys == disk.Keys;
    forall j | 0 <= j < NBUF && u[j].valid ensures view'[KeyOf(u[j])] == data[j] {
      OtherKey(m, disk, i, j);
    }
    forall j | 0 <= j < NBUF && Dirty(u, data, disk, j) ensures u[j].refCount > 0 || KeyOf(u[j]) in loose' {
      OtherKey(m, disk, i, j);
      assert Dirty(m, data, disk, j);
    }
    forall k | CachedValid(m, k) && k != k0 ensures CachedValid(u, k) {
      CachedKept(m, i, b, k);
    }
  }

  lemma OtherKey(m: seq<BufMeta>, disk: map<Key, Contents>, i: nat, j: nat)
    requires Placed(m, disk) && i < NBUF && j < NBUF && i != j && m[j].valid
    ensures KeyOf(m[j]) != KeyOf(m[i])
  {
    if i < j {
      assert m[i].dev != 0 ==> KeyOf(m[i]) != KeyOf(m[j]);
    }
  }

  /** Recycling loses an update exactly when the block is loose and differs from the disk. */
  lemma RecycleKeeps(m: seq<BufMeta>, data: seq<Contents>, disk: map<Key, Contents>, view: map<Key, Contents>, loose: set<Key>, i: nat)
    requires Coherent(m, data, disk, view, loose) && 0 < i < NBUF && m[i].refCount == 0
    ensures Forget(view, disk, KeyOf(m[i])) == view <==> !Dirty(m, data, disk, i)
    ensures Dirty(m, data, disk, i) ==> KeyOf(m[i]) in loose
  {
    var k := KeyOf(m[i]);
    if k in disk {
      if m[i].valid {
        assert view[k] == data[i];
        if data[i] == disk[k] {
          assert view[k := disk[k]] == view;
        } else {
          assert view[k := disk[k]][k] != view[k];
        }
      } else {
        assert !CachedValid(m, k);
        assert view[k := disk[k]] == view;
      }
    }
  }

  /** Reading a block into its buffer shows what was already shown. */
  lemma FillKeeps(m: seq<BufMeta>, data: seq<Contents>, disk: map<Key, Contents>, view: map<Key, Contents>, loose: set<Key>, i: nat)
    requires Coherent(m, data, disk, view, loose) && i < NBUF && m[i].dev != 0 && !m[i].valid
    ensures Coherent(m[i := m[i].(valid := true)], data[i := disk[KeyOf(m[i])]], disk, view, loose)
  {
    var u, e := m[i := m[i].(valid := true)], data[i := disk[KeyOf(m[i])]];
    assert !CachedValid(m, KeyOf(m[i]));
    forall j | 0 <= j < NBUF && Dirty(u, e, disk, j) ensures u[j].refCount > 0 || KeyOf(u[j]) in loose {
      assert Dirty(m, data, disk, j);
    }
    hide CachedValid;
    forall k | CachedValid(m, k) ensures CachedValid(u, k) {
      CachedKept(m, i, u[i], k);
    }
  }

  /** Writing a buffer to its block changes the disk, not the view. */
  lemma WriteKeeps(m: seq<BufMeta>, data: seq<Contents>, disk: map<Key, Contents>, view: map<Key, Contents>, loose: set<Key>, i: nat)
    requires Coherent(m, data, disk, view, loose) && i < NBUF && m[i].valid
    ensures Coherent(m, data, disk[KeyOf(m[i]) := data[i]], view, loose - {KeyOf(m[i])})
    ensures !Dirty(m, data, disk[KeyOf(m[i]) := data[i]], i)
  {
    var e := disk[KeyOf(m[i]) := data[i]];
    assert e.Keys == disk.Keys;
    assert CachedValid(m, KeyOf(m[i]));
    forall j | 0 <= j < NBUF && Dirty(m, data, e, j) ensures m[j].refCount > 0 || KeyOf(m[j]) in loose - {KeyOf(m[i])} {
      assert Dirty(m, data, disk, j);
    }
  }

  /** A holder changing its buffer changes the view of that block only. */
  lemma ModifyKeeps(m: seq<BufMeta>, data: seq<Contents>, disk: map<Key, Contents>, view: map<Key, Contents>, loose: set<Key>,
                   i: nat, x: Contents)
    requires Coherent(m, data, disk, view, loose) && i < NBUF && m[i].valid && m[i].refCount > 0
    ensures Coherent(m, data[i := x], disk, view[KeyOf(m[i]) := x], loose)
  {
    var e, v := data[i := x], view[KeyOf(m[i]) := x];
    assert v.Keys == view.Keys;
    assert CachedValid(m, KeyOf(m[i]));
    forall j | 0 <= j < NBUF && Dirty(m, e, disk, j) ensures m[j].refCount > 0 || KeyOf(m[j]) in loose {
      assert j == i || Dirty(m, data, disk, j);
    }
  }

  lemma ValidShows(m: seq<BufMeta>, data: seq<Contents>, disk: map<Key, Contents>, view: map<Key, Contents>, loose: set<Key>, i: nat)
    requires Coherent(m, data, disk, view, loose) && i < NBUF && m[i].valid
    ensures KeyOf(m[i]) in view && view[KeyOf(m[i])] == data[i]
  {
  }

  class BCache {
    const meta: array<BufMeta>
    const data: array<Contents>
    var disk: map<Key, Contents>
    ghost var view: map<Key, Contents>
    ghost var lru: seq<nat>
    ghost var loose: set<Key>

    ghost predicate Valid()
      reads this, meta, data
    {
      && meta.Length == NBUF && data.Length == NBUF && meta as object != data
      && Ring(meta[..], lru)
      && Coherent(meta[..], data[..], disk, view, loose)
    }

    /** A holder of buffer `id` has a reference to it and sees the contents of its block. */
    ghost predicate Held(id: nat)
      requires Valid()
      reads this, meta, data
    {
      0 < id < NBUF && meta[id].valid && meta[id].refCount > 0
    }

    /** The ring head -> 1 -> ... -> NBUF - 1 -> head over buffers that hold nothing. */
    constructor (disk: map<Key, Contents>, zero: Contents)
      ensures Valid() && this.disk == view == disk && fresh(meta) && fresh(data)
      ensures lru == seq(NBUF - 1, i => i + 1) && loose == {}
      ensures forall i :: 0 <= i < NBUF ==> meta[i].refCount == 0 && meta[i].dev == 0
    {
      this.disk, this.view, this.loose := disk, disk, {};
      lru := seq(NBUF - 1, i => i + 1);
      var buffers := new BufMeta[NBUF](_ => BufMeta(false, 0, 0, 0, 0, 0));
      for i := 0 to NBUF
        invariant forall j :: 0 <= j < i ==>
                    buffers[j] == BufMeta(false, 0, 0, 0, if j == 0 then NBUF - 1 else j - 1, if j == NBUF - 1 then 0 else j + 1)
        invariant forall j :: i <= j < NBUF ==> buffers[j] == BufMeta(false, 0, 0, 0, 0, 0)
      {
        buffers[i] := buffers[i].(prev := if i == 0 then NBUF - 1 else i - 1);
        buffers[i] := buffers[i].(next := if i == NBUF - 1 then 0 else i + 1);
      }
      meta := buffers;
      data := new Contents[NBUF](_ => zero);
      new;
      InitialRing(meta[..], lru);
    }

    /** The buffer caching a block, if there is one. */
    method Find(key: Key) returns (found: bool, id: nat)
      requires meta.Length == NBUF
      ensures found ==> id < NBUF && KeyOf(meta[id]) == key
      ensures !found ==> forall j :: 0 <= j < NBUF ==> KeyOf(meta[j]) != key
    {
      for i := 0 to NBUF
        invariant forall j :: 0 <= j < i ==> KeyOf(meta[j]) != key
      {
        if meta[i].dev == key.dev && meta[i].blockNo == key.blockNo {
          return true, i;
        }
      }
      return false, 0;
    }

    /** Walks the ring from its tail to the least recently released buffer without references. */
    method Walk() returns (found: bool, id: nat, ghost p: nat)
      requires Valid()
      ensures found ==> LeastRecent(meta[..], lru, p) && id == lru[p]
      ensures !found ==> AllReferenced(meta[..])
    {
      ghost var r := [HEAD] + lru;
      ghost var at: nat := NBUF - 1;
      assert Link(meta[..], r[at], r[Succ(at, NBUF)]);
      id := meta[HEAD].prev;
      while id != HEAD
        invariant at < NBUF && id == r[at] && (id == HEAD <==> at == 0)
        invariant forall k :: at <= k < |lru| ==> meta[..][lru[k]].refCount > 0
        decreases at
      {
        if meta[id].refCount == 0 {
          return true, id, at - 1;
        }
        assert Link(meta[..], r[at - 1], r[Succ(at - 1, NBUF)]);
        id := meta[id].prev;
        at := at - 1;
      }
      forall i | 0 < i < NBUF ensures meta[..][i].refCount > 0 {
        assert i in lru;
      }
      return false, HEAD, 0;
    }

    /**
      Takes a reference to the buffer of a block, recycling one when the block is not cached. The
      block whose buffer is recycled is seen as the disk has it from then on, which is a change only
      if it was loose. There is no buffer exactly when all but the head are referenced.
     */
    method Get(key: Key) returns (r: GetResult)
      requires Valid() && key.dev != 0 && key in disk
      modifies meta, this`view, this`loose
      ensures Valid()
      ensures r.NoBuffers? <==> AllReferenced(old(meta[..])) && forall j :: 0 <= j < NBUF ==> KeyOf(old(meta[..])[j]) != key
      ensures r.NoBuffers? ==> meta[..] == old(meta[..]) && view == old(view) && loose == old(loose)
      ensures r.Got? ==> 0 < r.id < NBUF && KeyOf(meta[r.id]) == key && meta[r.id].refCount > 0
      ensures r.Got? && KeyOf(old(meta[..])[r.id]) == key ==>
                && meta[..] == old(meta[..])[r.id := old(meta[r.id]).(refCount := old(meta[r.id]).refCount + 1)]
                && view == old(view) && loose == old(loose)
      ensures r.Got? && KeyOf(old(meta[..])[r.id]) != key ==>
                && meta[..] == old(meta[..])[r.id := BufMeta(false, key.dev, key.blockNo, 1, meta[r.id].prev, meta[r.id].next)]
                && view == Forget(old(view), disk, KeyOf(old(meta[..])[r.id])) && loose == old(loose) - {KeyOf(old(meta[..])[r.id])}
                && exists p: nat :: LeastRecent(old(meta[..]), lru, p) && r.id == lru[p]
      ensures forall k :: k in disk && k !in old(loose) ==> k in view && k in old(view) && view[k] == old(view)[k]
      ensures old(loose) == {} ==> view == old(view) && loose == {}
    {
      hide Coherent, Dirty;
      ghost var m := meta[..];
      CoherentFacts(m, data[..], disk, view, loose);
      var found, id := Find(key);
      if found {
        meta[id] := meta[id].(refCount := meta[id].refCount + 1);
        CountKeeps(m, meta[..], data[..], disk, view, loose, loose);
        RingKept(m, meta[..], lru);
        return Got(id);
      }
      ghost var p;
      found, id, p := Walk();
      if !found {
        return NoBuffers;
      }
      meta[id] := meta[id].(dev := key.dev, blockNo := key.blockNo, valid := false);
      meta[id] := meta[id].(refCount := meta[id].refCount + 1);
      assert meta[..] == m[id := meta[id]];
      RecycleForgets(m, data[..], disk, view, loose, id, meta[id]);
      RecycleKeeps(m, data[..], disk, view, loose, id);
      RingKept(m, meta[..], lru);
      view, loose := Forget(view, disk, KeyOf(m[id])), loose - {KeyOf(m[id])};
      return Got(id);
    }

    /** Returns a buffer with the latest contents of the block. */
    method Read(key: Key) returns (r: GetResult)
      requires Valid() && key.dev != 0 && key in disk
      modifies meta, data, this`view, this`loose
      ensures Valid()
      ensures r.NoBuffers? <==> AllReferenced(old(meta[..])) && forall j :: 0 <= j < NBUF ==> KeyOf(old(meta[..])[j]) != key
      ensures r.NoBuffers? ==> meta[..] == old(meta[..]) && data[..] == old(data[..]) && view == old(view) && loose == old(loose)
      ensures r.Got? ==> Held(r.id) && KeyOf(meta[r.id]) == key && data[r.id] == view[key] == old(view)[key]
      ensures r.Got? ==> forall j :: 0 <= j < NBUF && j != r.id ==> meta[j] == old(meta[j]) && data[j] == old(data[j])
      ensures r.Got? ==> meta[r.id].refCount == 1 + (if KeyOf(old(meta[..])[r.id]) == key then old(meta[..])[r.id].refCount else 0)
      ensures r.Got? && KeyOf(old(meta[..])[r.id]) != key ==> old(meta[..])[r.id].refCount == 0
      ensures forall k :: k in disk && k !in old(loose) ==> k in view && k in old(view) && view[k] == old(view)[k]
      ensures old(loose) == {} ==> view == old(view) && loose == {}
    {
      hide Coherent, Dirty, CachedValid, Ring;
      CoherentFacts(meta[..], data[..], disk, view, loose);
      r := Get(key);
      CoherentFacts(meta[..], data[..], disk, view, loose);
      if r.Got? {
        if !meta[r.id].valid {
          FillKeeps(meta[..], data[..], disk, view, loose, r.id);
          RingKept(meta[..], meta[..][r.id := meta[r.id].(valid := true)], lru);
          data[r.id] := disk[key];
          meta[r.id] := meta[r.id].(valid := true);
        }
        ValidShows(meta[..], data[..], disk, view, loose, r.id);
      }
    }

    /** A holder changes its buffer. */
    method Modify(id: nat, x: Contents)
      requires Valid() && Held(id)
      modifies data, this`view
      ensures Valid() && Held(id) && view == old(view)[KeyOf(meta[id]) := x] && data[..] == old(data[..])[id := x]
    {
      ModifyKeeps(meta[..], data[..], disk, view, loose, id, x);
      data[id] := x;
      view := view[KeyOf(meta[id]) := x];
    }

    /** Writes a buffer to disk; its block is no longer loose. */
    method Write(id: nat)
      requires Valid() && Held(id)
      modifies this`disk, this`loose
      ensures Valid() && Held(id) && disk == old(disk)[KeyOf(meta[id]) := data[id]]
      ensures !Dirty(meta[..], data[..], disk, id) && loose == old(loose) - {KeyOf(meta[id])}
    {
      WriteKeeps(meta[..], data[..], disk, view, loose, id);
      disk := disk[KeyOf(meta[id]) := data[id]];
      loose := loose - {KeyOf(meta[id])};
    }

    /** The loose blocks once a reference to buffer `id` is gone: its block joins them if it was the last one to a changed buffer. */
    ghost function Loosened(id: nat): set<Key>
      requires Valid() && Held(id)
      reads this, meta, data
    {
      if meta[id].refCount == 1 && Dirty(meta[..], data[..], disk, id) then loose + {KeyOf(meta[id])} else loose
    }

    /** Drops a reference. A buffer without references becomes the most recently released one. */
    method Release(id: nat)
      requires Valid() && Held(id)
      modifies meta, this`lru, this`loose
      ensures Valid() && loose == old(Loosened(id))
      ensures SameBuffers(old(meta[..])[id := old(meta[id]).(refCount := old(meta[id]).refCount - 1)], meta[..])
      ensures old(meta[id]).refCount > 1 ==> lru == old(lru)
      ensures old(meta[id]).refCount == 1 ==>
                exists p :: 0 <= p < |old(lru)| && old(lru)[p] == id && lru == [id] + Drop(old(lru), p)
    {
      hide Ring, Unlink, InsertAfterHead, Coherent, Dirty;
      ghost var m, loose' := meta[..], Loosened(id);
      CoherentFacts(m, data[..], disk, view, loose);
      meta[id] := meta[id].(refCount := meta[id].refCount - 1);
      ghost var c := meta[..];
      CountKeeps(m, c, data[..], disk, view, loose, loose');
      RingKept(m, c, lru);
      loose := loose';
      if meta[id].refCount == 0 {
        ghost var p := Position(c, lru, id);
        MoveToFront(c, lru, p);
        Relink(id);
        lru := [id] + Drop(lru, p);
        CoherentFacts(c, data[..], disk, view, loose);
        CountKeeps(c, meta[..], data[..], disk, view, loose, loose);
      }
    }

    /** Unlinks a buffer and links it in again right after the head. */
    method Relink(id: nat)
      requires meta.Length == NBUF && id < NBUF && meta[id].next < NBUF && meta[id].prev < NBUF
      requires Unlink(meta[..], id)[HEAD].next < NBUF
      modifies meta
      ensures meta[..] == InsertAfterHead(Unlink(old(meta[..]), id), id)
    {
      var next := meta[id].next;
      var prev := meta[id].prev;
      meta[next] := meta[next].(prev := meta[id].prev);
      meta[prev] := meta[prev].(next := meta[id].next);
      assert meta[..] == Unlink(old(meta[..]), id);

      var first := meta[HEAD].next;
      meta[id] := meta[id].(next := first);
      meta[id] := meta[id].(prev := HEAD);
      meta[first] := meta[first].(prev := id);
      meta[HEAD] := meta[HEAD].(next := id);
    }

    /** Takes a reference that keeps a logged buffer from being recycled. */
    method Pin(id: nat)
      requires Valid() && Held(id)
      modifies meta
      ensures Valid() && Held(id)
      ensures meta[..] == old(meta[..])[id := old(meta[id]).(refCount := old(meta[id]).refCount + 1)]
    {
      ghost var m := meta[..];
      meta[id] := meta[id].(refCount := meta[id].refCount + 1);
      CountKeeps(m, meta[..], data[..], disk, view, loose, loose);
      RingKept(m, meta[..], lru);
    }

    /** Drops the reference taken by Pin; the buffer keeps its place in the recency list. */
    method Unpin(id: nat)
      requires Valid() && Held(id)
      modifies meta, this`loose
      ensures Valid() && loose == old(Loosened(id))
      ensures meta[..] == old(meta[..])[id := old(meta[id]).(refCount := old(meta[id]).refCount - 1)]
    {
      hide Ring, Coherent, Dirty;
      ghost var m, loose' := meta[..], Loosened(id);
      CoherentFacts(m, data[..], disk, view, loose);
      meta[id] := meta[id].(refCount := meta[id].refCount - 1);
      CountKeeps(m, meta[..], data[..], disk, view, loose, loose');
      RingKept(m, meta[..], lru);
      loose := loose';
    }
  }

  // ---------------------------------------------------------------- a transaction that the cache cannot hold

  /** Block k + 1 of device 1 is in buffer holder[k], once referenced; the other buffers are unused. */
  predicate HoldsBlocks(m: seq<BufMeta>, holder: seq<nat>) {
    && (forall k :: 0 <= k < |holder| ==>
          0 < holder[k] < |m| && KeyOf(m[holder[k]]) == Key(1, k + 1) && m[holder[k]].refCount == 1)
    && (forall i :: 0 <= i < |m| && i !in holder ==> m[i].dev == 0 && m[i].refCount == 0)
  }

  lemma HoldsAll(m: seq<BufMeta>, holder: seq<nat>)
    requires |m| == NBUF && HoldsBlocks(m, holder)
    ensures !AllReferenced(m) <==> |holder| <= NBUF - 2
    ensures forall i :: 0 <= i < NBUF ==> KeyOf(m[i]) != Key(1, |holder| + 1)
  {
    hide AllReferenced;
    var blocks := seq(|holder|, k => k + 1);
    assert Others(m, holder) == {};
    CommitFindsBuffer(m, blocks, holder);
    forall i | 0 <= i < NBUF ensures KeyOf(m[i]) != Key(1, |holder| + 1) {
      if i in holder {
        var k :| 0 <= k < |holder| && holder[k] == i;
      }
    }
  }

  lemma HoldsOneMore(m: seq<BufMeta>, u: seq<BufMeta>, holder: seq<nat>, id: nat)
    requires HoldsBlocks(m, holder) && |u| == |m| && 0 < id < |m| && m[id].refCount == 0
    requires KeyOf(u[id]) == Key(1, |holder| + 1) && u[id].refCount == 1
    requires forall j :: 0 <= j < |m| && j != id ==> SameBuffer(m[j], u[j])
    ensures HoldsBlocks(u, holder + [id])
  {
    forall k | 0 <= k < |holder| ensures holder[k] != id {
      assert m[holder[k]].refCount == 1;
    }
    forall i | 0 <= i < |m| && i !in holder + [id] ensures u[i].dev == 0 && u[i].refCount == 0 {
      assert (holder + [id])[|holder|] == id;
      assert SameBuffer(m[i], u[i]);
    }
  }

  /**
    One transaction reads, changes, pins and releases the blocks 1 to NBUF - 1, fewer than the log
    admits. Each of these reads finds a buffer; the next read, of one more block, does not.
   */
  method FillWithPins(disk: map<Key, Contents>, x: Contents) returns (r: GetResult)
    requires forall b :: 1 <= b <= NBUF ==> Key(1, b) in disk
    ensures r.NoBuffers?
  {
    hide Ring, Coherent, Dirty, HoldsBlocks;
    var cache := new BCache(disk, x);
    ghost var holder := [];
    FreshHolds(cache.meta[..]);
    for j := 0 to NBUF - 1
      invariant cache.Valid() && fresh(cache) && fresh(cache.meta) && fresh(cache.data) && cache.disk == disk
      invariant |holder| == j && HoldsBlocks(cache.meta[..], holder)
    {
      ghost var m := cache.meta[..];
      HoldsAll(m, holder);
      r := cache.Read(Key(1, j + 1));
      cache.Modify(r.id, x);
      cache.Pin(r.id);
      cache.Release(r.id);
      HoldsOneMore(m, cache.meta[..], holder, r.id);
      holder := holder + [r.id];
    }
    HoldsAll(cache.meta[..], holder);
    r := cache.Read(Key(1, NBUF));
  }

  lemma FreshHolds(m: seq<BufMeta>)
    requires forall i :: 0 <= i < |m| ==> m[i].refCount == 0 && m[i].dev == 0
    ensures HoldsBlocks(m, [])
  {
  }
}
