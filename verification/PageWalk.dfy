/**
  The operations on a page table held in memory: the walk that may create tables, mapping and
  unmapping a range of pages, and the recursive release of every table.
*/
module PageWalk {
  import opened PageTree

  datatype WalkResult =
    | Slot(page: nat, index: nat)       // the bottom entry's place in memory
    | InvalidAddress
    | InvalidPage
    | NoMemory

  datatype MapResult = Mapped | MapFailed | Remap

  /** The index of an address at a level. */
  function Px(level: nat, va: nat): nat
    requires level <= 2
  {
    if level == 2 then va / 0x4000_0000 % 512 else if level == 1 then va / 0x20_0000 % 512 else va / 0x1000 % 512
  }

  lemma PxOfPage(va: nat)
    requires va < MAXVA
    ensures va / PGSIZE < MAXPAGE
    ensures Px(2, va) == Top(va / PGSIZE) < 256
    ensures Px(1, va) == Middle(va / PGSIZE)
    ensures Px(0, va) == Bottom(va / PGSIZE)
  {
  }

  function PlaceAt(va: nat, level: nat): Place
    requires level <= 2
  {
    if level == 2 then Root else if level == 1 then Mid(Px(2, va)) else Low(Px(2, va), Px(1, va))
  }

  /** The frames mapped in a range of pages, in order. */
  ghost function Frames(heap: Tables, tab: Layout, v: nat, n: nat): seq<nat> {
    if n == 0 then []
    else
      var rest := Frames(heap, tab, v, n - 1);
      var w := v + n - 1;
      if w < MAXPAGE && Lookup(heap, tab, w).Valid? then rest + [Lookup(heap, tab, w).page] else rest
  }

  /** The translations of two tables differ exactly in n pages from first on, now mapped to frame and up. */
  ghost predicate MapsExactly(heap: Tables, tab: Layout, heap': Tables, tab': Layout,
                              first: nat, n: nat, frame: nat, perm: Perm) {
    && (forall v :: 0 <= v < MAXPAGE && !(first <= v < first + n) ==> Lookup(heap', tab', v) == Lookup(heap, tab, v))
    && (forall v :: first <= v < first + n ==> NewlyMapped(heap, tab, heap', tab', first, frame, perm, v))
  }

  predicate NewlyMapped(heap: Tables, tab: Layout, heap': Tables, tab': Layout, first: nat, frame: nat, perm: Perm, v: nat) {
    && first <= v < MAXPAGE && Lookup(heap, tab, v).Invalid?
    && Lookup(heap', tab', v) == Valid(frame + (v - first), perm)
  }

  /** The translations of two tables differ exactly in n pages from first on, now unmapped. */
  ghost predicate UnmapsExactly(heap: Tables, heap': Tables, tab: Layout, first: nat, n: nat) {
    && (forall v :: 0 <= v < MAXPAGE && !(first <= v < first + n) ==> Lookup(heap', tab, v) == Lookup(heap, tab, v))
    && (forall v :: 0 <= v < MAXPAGE && first <= v < first + n ==> Lookup(heap', tab, v).Invalid?)
  }

  // ---------- Releasing a subtree ----------

  predicate Under(t: Place, s: Place) {
    s.Root? || t == s || (s.Mid? && t.Low? && t.a == s.a)
  }

  /** Which entry of the table at s leads to the table at t. */
  function Branch(t: Place, s: Place): nat
    requires Under(t, s) && t != s
  {
    if s.Root? then t.a else t.b
  }

  ghost function Pages(tab: Layout, s: Place): set<nat> {
    set t | t in tab && Under(t, s) :: tab[t]
  }

  /** The pages below the first i entries of the table at s. */
  ghost function PagesBefore(tab: Layout, s: Place, i: nat): set<nat> {
    set t | t in tab && Under(t, s) && t != s && Branch(t, s) < i :: tab[t]
  }

  ghost predicate Subtree(heap: Tables, tab: Layout, s: Place) {
    && Shaped(tab) && s in tab
    && forall t :: t in tab && Under(t, s) ==> TableOk(heap, tab, t)
  }

  ghost predicate NoLeaves(heap: Tables, tab: Layout, s: Place)
    requires Subtree(heap, tab, s)
  {
    forall t, c :: t in tab && Under(t, s) && t.Low? && 0 <= c < ENTRIES ==> Load(heap, tab[t], c).Invalid?
  }

  /** There are leaf entries, in whatever table, exactly when some page is mapped. */
  lemma LeavesAreMappings(heap: Tables, tab: Layout, root: nat)
    requires Tree(heap, tab, root)
    ensures Subtree(heap, tab, Root) && Pages(tab, Root) == heap.Keys
    ensures NoLeaves(heap, tab, Root) <==> forall v :: 0 <= v < MAXPAGE ==> Lookup(heap, tab, v).Invalid?
  {
    if forall v :: 0 <= v < MAXPAGE ==> Lookup(heap, tab, v).Invalid? {
      forall t, c | t in tab && t.Low? && 0 <= c < ENTRIES ensures Load(heap, tab[t], c).Invalid? {
        var v := (t.a * 512 + t.b) * 512 + c;
        assert v / 512 == t.a * 512 + t.b;
        assert Top(v) == t.a && Middle(v) == t.b && Bottom(v) == c && v < MAXPAGE;
        assert Lookup(heap, tab, v).Invalid?;
      }
    }
  }

  lemma {:induction false} FramesAgree(heap: Tables, heap': Tables, tab: Layout, v: nat, n: nat)
    requires forall w :: v <= w < v + n && w < MAXPAGE ==> Lookup(heap', tab, w) == Lookup(heap, tab, w)
    ensures Frames(heap', tab, v, n) == Frames(heap, tab, v, n)
  {
    if n > 0 {
      FramesAgree(heap, heap', tab, v, n - 1);
    }
  }

  const TRAMPOLINE: nat := MAXVA - PGSIZE
  const TRAPFRAME: nat := TRAMPOLINE - PGSIZE

  function PagesIn(size: nat): nat {
    (size + PGSIZE - 1) / PGSIZE
  }

  /** No leaf entry in the table at s before i, nor in any table below those entries. */
  ghost predicate NoLeavesBefore(heap: Tables, tab: Layout, s: Place, i: nat)
    requires Subtree(heap, tab, s)
  {
    && (s.Low? ==> forall c :: 0 <= c < i && c < ENTRIES ==> Load(heap, tab[s], c).Invalid?)
    && (forall t, c :: t in tab && Under(t, s) && t != s && Branch(t, s) < i && t.Low? && 0 <= c < ENTRIES ==>
          Load(heap, tab[t], c).Invalid?)
  }

  /** What lies below entry i of the table at s is what lies under that entry's table. */
  lemma BelowEntry(tab: Layout, s: Place, i: nat)
    requires !s.Low?
    ensures forall t :: Under(t, Sub(s, i)) <==> Under(t, s) && t != s && Branch(t, s) == i
    ensures Shaped(tab) && Sub(s, i) !in tab ==> forall t :: t in tab ==> !Under(t, Sub(s, i))
  {
  }

  lemma PagesStep(tab: Layout, s: Place, i: nat)
    requires Shaped(tab) && s in tab
    ensures s.Low? || Sub(s, i) !in tab ==> PagesBefore(tab, s, i + 1) == PagesBefore(tab, s, i)
    ensures !s.Low? ==> PagesBefore(tab, s, i + 1) == PagesBefore(tab, s, i) + Pages(tab, Sub(s, i))
    ensures !s.Low? ==> PagesBefore(tab, s, i) !! Pages(tab, Sub(s, i))
    ensures tab[s] !in PagesBefore(tab, s, i + 1)
  {
    if !s.Low? {
      BelowEntry(tab, s, i);
    }
  }

  lemma NoLeavesStep(heap: Tables, tab: Layout, s: Place, i: nat)
    requires Subtree(heap, tab, s) && i < ENTRIES
    ensures !s.Low? && Sub(s, i) in tab ==> Subtree(heap, tab, Sub(s, i))
    ensures NoLeavesBefore(heap, tab, s, i + 1) <==>
            && NoLeavesBefore(heap, tab, s, i)
            && (s.Low? ==> Load(heap, tab[s], i).Invalid?)
            && (!s.Low? && Sub(s, i) in tab ==> NoLeaves(heap, tab, Sub(s, i)))
    ensures NoLeaves(heap, tab, s) ==> NoLeavesBefore(heap, tab, s, i + 1)
  {
    if !s.Low? {
      BelowEntry(tab, s, i);
    }
  }

  lemma NoLeavesAll(heap: Tables, tab: Layout, s: Place)
    requires Subtree(heap, tab, s)
    ensures NoLeavesBefore(heap, tab, s, ENTRIES) ==> NoLeaves(heap, tab, s)
    ensures Pages(tab, s) == PagesBefore(tab, s, ENTRIES) + {tab[s]}
  {
    forall t | t in tab && Under(t, s) && t != s ensures Branch(t, s) < ENTRIES {
      assert InRange(t);
    }
  }

  lemma TableAt(heap: Tables, tab: Layout, s: Place)
    requires Subtree(heap, tab, s)
    ensures tab[s] in heap && |heap[tab[s]]| == ENTRIES
    ensures PagesBefore(tab, s, 0) == {} && NoLeavesBefore(heap, tab, s, 0)
  {
    assert TableOk(heap, tab, s);
  }

  /** An entry leads to the table below it, and a bottom entry to a leaf. */
  lemma EntryAt(heap: Tables, tab: Layout, s: Place, i: nat)
    requires Subtree(heap, tab, s) && i < ENTRIES
    ensures tab[s] in heap && |heap[tab[s]]| == ENTRIES
    ensures
      var e := heap[tab[s]][i];
      && Load(heap, tab[s], i) == e
      && (e.Valid? ==> (LeafPerm(e.perm) <==> s.Low?))
      && (!s.Low? ==> (e.Valid? <==> Sub(s, i) in tab))
      && (e.Valid? && !s.Low? ==> e.page == tab[Sub(s, i)])
  {
    assert TableOk(heap, tab, s);
    assert EntryOk(heap, tab, s, i);
  }

  /** A subtree whose pages were left alone is as it was. */
  lemma SubtreeKept(heap: Tables, heap': Tables, tab: Layout, s: Place)
    requires Subtree(heap, tab, s)
    requires forall p :: p in Pages(tab, s) ==> p in heap' && heap'[p] == heap[p]
    ensures Subtree(heap', tab, s)
    ensures NoLeaves(heap', tab, s) <==> NoLeaves(heap, tab, s)
  {
    forall t | t in tab && Under(t, s) ensures TableOk(heap', tab, t) && heap'[tab[t]] == heap[tab[t]] {
      assert tab[t] in Pages(tab, s);
      assert TableOk(heap, tab, t);
      forall k | 0 <= k < ENTRIES ensures EntryOk(heap', tab, t, k) {
        assert EntryOk(heap, tab, t, k);
      }
    }
    forall t, c | t in tab && Under(t, s) && t.Low? && 0 <= c < ENTRIES
      ensures Load(heap', tab[t], c) == Load(heap, tab[t], c)
    {
    }
  }

  /** Releasing what lies below earlier entries leaves the table under entry i as it was. */
  lemma ChildKept(heap: Tables, heap': Tables, tab: Layout, s: Place, i: nat)
    requires Subtree(heap, tab, s) && !s.Low? && Sub(s, i) in tab
    requires heap'.Keys == heap.Keys - PagesBefore(tab, s, i)
    requires forall p :: p in heap' && p != tab[s] ==> heap'[p] == heap[p]
    ensures Subtree(heap, tab, Sub(s, i)) && Subtree(heap', tab, Sub(s, i))
    ensures NoLeaves(heap', tab, Sub(s, i)) <==> NoLeaves(heap, tab, Sub(s, i))
  {
    var child := Sub(s, i);
    BelowEntry(tab, s, i);
    forall p | p in Pages(tab, child) ensures p in heap' && heap'[p] == heap[p] {
      var t :| t in tab && Under(t, child) && tab[t] == p;
      assert TableOk(heap, tab, t);
    }
    SubtreeKept(heap, heap', tab, child);
  }

  /** A walk in between changes nothing about what has been mapped. */
  lemma MapsThenWalk(heap: Tables, tab: Layout, h: Tables, t: Layout, h': Tables, t': Layout,
                     first: nat, n: nat, frame: nat, perm: Perm)
    requires MapsExactly(heap, tab, h, t, first, n, frame, perm)
    requires forall v :: 0 <= v < MAXPAGE ==> Lookup(h', t', v) == Lookup(h, t, v)
    ensures MapsExactly(heap, tab, h', t', first, n, frame, perm)
  {
    hide Lookup;
    forall v | 0 <= v < MAXPAGE && !(first <= v < first + n) ensures Lookup(h', t', v) == Lookup(heap, tab, v) {
      assert Lookup(h', t', v) == Lookup(h, t, v);
    }
    forall v | first <= v < first + n ensures NewlyMapped(heap, tab, h', t', first, frame, perm, v) {
      assert NewlyMapped(heap, tab, h, t, first, frame, perm, v);
      assert Lookup(h', t', v) == Lookup(h, t, v);
    }
  }

  /** Mapping one more page, which was not mapped. */
  lemma MapsOneMore(heap: Tables, tab: Layout, h: Tables, h': Tables, t: Layout, first: nat, n: nat, frame: nat, perm: Perm)
    requires MapsExactly(heap, tab, h, t, first, n, frame, perm)
    requires first + n < MAXPAGE && Lookup(h, t, first + n).Invalid?
    requires Lookup(h', t, first + n) == Valid(frame + n, perm)
    requires forall w :: 0 <= w < MAXPAGE && w != first + n ==> Lookup(h', t, w) == Lookup(h, t, w)
    ensures MapsExactly(heap, tab, h', t, first, n + 1, frame, perm)
  {
    hide Lookup;
    forall v | 0 <= v < MAXPAGE && !(first <= v < first + n + 1) ensures Lookup(h', t, v) == Lookup(heap, tab, v) {
      assert Lookup(h', t, v) == Lookup(h, t, v);
    }
    forall v | first <= v < first + n + 1 ensures NewlyMapped(heap, tab, h', t, first, frame, perm, v) {
      if v < first + n {
        assert NewlyMapped(heap, tab, h, t, first, frame, perm, v);
        assert Lookup(h', t, v) == Lookup(h, t, v);
      }
    }
  }

  /** The page after those mapped so far is as it was. */
  lemma NextPage(heap: Tables, tab: Layout, h: Tables, t: Layout, first: nat, n: nat, frame: nat, perm: Perm)
    requires MapsExactly(heap, tab, h, t, first, n, frame, perm) && first + n < MAXPAGE
    ensures Lookup(h, t, first + n) == Lookup(heap, tab, first + n)
  {
  }

  lemma MapsNothing(heap: Tables, tab: Layout, first: nat, frame: nat, perm: Perm)
    ensures MapsExactly(heap, tab, heap, tab, first, 0, frame, perm)
  {
  }

  lemma NoFrames(heap: Tables, tab: Layout)
    ensures Frames(heap, tab, 0, 0) == []
  {
  }

  lemma TreeEntry(heap: Tables, tab: Layout, root: nat, s: Place, i: nat)
    requires Tree(heap, tab, root) && s in tab && i < ENTRIES
    ensures tab[s] in heap && |heap[tab[s]]| == ENTRIES && EntryOk(heap, tab, s, i)
  {
    assert TableOk(heap, tab, s);
  }

  class PageTable {
    var heap: Tables
    var root: nat
    var free: set<nat>        // pages the allocator may hand out
    ghost var tab: Layout

    ghost predicate Valid() reads this {
      Tree(heap, tab, root) && heap.Keys !! free
    }

    constructor (root: nat, free: set<nat>)
      requires root !in free
      ensures Valid() && this.root == root && this.free == free
      ensures heap.Keys == {root}
      ensures forall v :: 0 <= v < MAXPAGE ==> Lookup(heap, tab, v).Invalid?
    {
      this.root := root;
      this.free := free;
      heap := map[root := seq(ENTRIES, i => Invalid)];
      tab := map[Root := root];
    }

    /** Zeroed memory for a table, unless the allocator has none to give. */
    method TryNew() returns (page: nat, ok: bool)
      modifies this`free
      ensures !ok ==> free == old(free)
      ensures ok ==> page in old(free) && free == old(free) - {page}
    {
      page, ok := 0, false;
      if free != {} {
        if * {
          page :| page in free;
          free, ok := free - {page}, true;
        }
      }
    }

    /** One level of the walk: follow the entry, or hang a new table under it. */
    method Descend(page: nat, i: nat, alloc: bool, ghost s: Place) returns (next: nat, ok: bool)
      requires Valid() && s in tab && tab[s] == page && !s.Low?
      requires i < ENTRIES && InRange(Sub(s, i))
      modifies this
      ensures Valid() && root == old(root)
      ensures ok ==> Sub(s, i) in tab && tab[Sub(s, i)] == next
      ensures !alloc ==> heap == old(heap) && tab == old(tab) && free == old(free)
      ensures !alloc ==> (ok <==> Sub(s, i) in tab)
      ensures !ok ==> heap == old(heap) && tab == old(tab) && Sub(s, i) !in tab
      ensures tab == old(tab) || (Sub(s, i) !in old(tab) && ok && tab == old(tab)[Sub(s, i) := next])
      ensures heap.Keys + free == old(heap.Keys + free)
      ensures forall v :: 0 <= v < MAXPAGE ==> Lookup(heap, tab, v) == Lookup(old(heap), old(tab), v)
    {
      hide Lookup, Tree;
      TreeEntry(heap, tab, root, s, i);
      var e := heap[page][i];
      if e.Valid? {
        next, ok := e.page, true;
      } else if !alloc {
        next, ok := 0, false;
      } else {
        next, ok := TryNew();
        if ok {
          AddTable(heap, tab, root, s, i, next);
          heap := heap[page := heap[page][i := Entry.Valid(next, NOPERM)]][next := seq(ENTRIES, k => Invalid)];
          tab := tab[Sub(s, i) := next];
        }
      }
    }

    /**
      The walk: the place of the bottom entry for va. No translation changes, whatever tables it
      has to create, and without alloc nothing changes at all.
    */
    method Walk(va: nat, alloc: bool) returns (r: WalkResult)
      requires Valid()
      modifies this
      ensures Valid() && root == old(root)
      ensures r.InvalidAddress? <==> va >= MAXVA
      ensures r.InvalidPage? ==> !alloc
      ensures r.NoMemory? ==> alloc && Low(Px(2, va), Px(1, va)) !in old(tab)
      ensures !alloc ==> heap == old(heap) && tab == old(tab) && free == old(free)
      ensures !alloc && va < MAXVA ==> (r.Slot? <==> Low(Px(2, va), Px(1, va)) in tab)
      ensures forall t :: t in old(tab) ==> t in tab
      ensures r.Slot? ==> Low(Px(2, va), Px(1, va)) in tab
      ensures r.Slot? ==> r.page == tab[Low(Px(2, va), Px(1, va))] && r.index == Px(0, va)
      ensures heap.Keys + free == old(heap.Keys + free)
      ensures forall v :: 0 <= v < MAXPAGE ==> Lookup(heap, tab, v) == Lookup(old(heap), old(tab), v)
    {
      hide Lookup, Tree;
      if va >= MAXVA {
        return InvalidAddress;
      }
      PxOfPage(va);
      assert Root in tab && tab[Root] == root && Shaped(tab) by { Rooted(); }
      var page := root;
      var level := 2;
      while level > 0
        invariant 0 <= level <= 2
        invariant Valid() && root == old(root)
        invariant PlaceAt(va, level) in tab && tab[PlaceAt(va, level)] == page
        invariant forall t :: t in old(tab) ==> t in tab
        invariant !alloc ==> heap == old(heap) && tab == old(tab) && free == old(free)
        invariant heap.Keys + free == old(heap.Keys + free)
        invariant forall v :: 0 <= v < MAXPAGE ==> Lookup(heap, tab, v) == Lookup(old(heap), old(tab), v)
      {
        var next, ok := Descend(page, Px(level, va), alloc, PlaceAt(va, level));
        if !ok {
          Rooted();
          return if alloc then NoMemory else InvalidPage;
        }
        page, level := next, level - 1;
      }
      return Slot(page, Px(0, va));
    }

    lemma Rooted()
      requires Valid()
      ensures Root in tab && tab[Root] == root && Shaped(tab)
    {
    }

    /** Writes the bottom entry found by a walk. */
    method SetEntry(v: nat, page: nat, index: nat, e: Entry)
      requires Valid() && v < MAXPAGE
      requires Low(Top(v), Middle(v)) in tab && page == tab[Low(Top(v), Middle(v))] && index == Bottom(v)
      requires e.Valid? ==> LeafPerm(e.perm)
      modifies this`heap
      ensures Valid() && heap.Keys == old(heap.Keys)
      ensures Lookup(heap, tab, v) == e
      ensures forall w :: 0 <= w < MAXPAGE && w != v ==> Lookup(heap, tab, w) == Lookup(old(heap), tab, w)
    {
      hide Lookup, Tree;
      SetLeaf(heap, tab, root, v, e);
      heap := heap[page := heap[page][index := e]];
    }

    /** The entry a walk found is the translation of the page. */
    lemma SlotIsLookup(v: nat)
      requires Valid() && v < MAXPAGE && Low(Top(v), Middle(v)) in tab
      ensures
        var p := tab[Low(Top(v), Middle(v))];
        p in heap && |heap[p]| == ENTRIES && heap[p][Bottom(v)] == Lookup(heap, tab, v)
      ensures Lookup(heap, tab, v).Valid? ==> LeafPerm(Lookup(heap, tab, v).perm)
    {
      var s := Low(Top(v), Middle(v));
      assert TableOk(heap, tab, s);
      assert EntryOk(heap, tab, s, Bottom(v));
    }

    /**
      Maps size bytes at va to the frames from frame on. The pages before the one that stopped it
      are mapped; they were unmapped before, and no other translation changes. It fails only beyond
      MAXVA and where a table was missing.
    */
    method MapPages(va: nat, frame: nat, size: nat, perm: Perm) returns (r: MapResult, ghost done: nat)
      requires Valid()
      requires va % PGSIZE == 0 && size % PGSIZE == 0 && size != 0
      requires LeafPerm(perm)
      modifies this
      ensures Valid() && root == old(root)
      ensures heap.Keys + free == old(heap.Keys + free)
      ensures MapsExactly(old(heap), old(tab), heap, tab, va / PGSIZE, done, frame, perm)
      ensures done <= size / PGSIZE && (r.Mapped? <==> done == size / PGSIZE)
      ensures r.Remap? ==> va / PGSIZE + done < MAXPAGE && Lookup(old(heap), old(tab), va / PGSIZE + done).Valid?
      ensures r.MapFailed? ==>
                var at := va + done * PGSIZE;
                at >= MAXVA || Low(Px(2, at), Px(1, at)) !in old(tab)
    {
      hide Lookup, Tree, MapsExactly;
      MapsNothing(heap, tab, va / PGSIZE, frame, perm);
      var last := va + size - PGSIZE;
      var at, target := va, frame;
      done := 0;
      while true
        invariant Valid() && root == old(root)
        invariant heap.Keys + free == old(heap.Keys + free)
        invariant at == va + done * PGSIZE <= last && target == frame + done
        invariant forall t :: t in old(tab) ==> t in tab
        invariant MapsExactly(old(heap), old(tab), heap, tab, va / PGSIZE, done, frame, perm)
        decreases last - at
      {
        assert at / PGSIZE == va / PGSIZE + done;
        ghost var h, t := heap, tab;
        var slot := Walk(at, true);
        MapsThenWalk(old(heap), old(tab), h, t, heap, tab, va / PGSIZE, done, frame, perm);
        if !slot.Slot? {
          return MapFailed, done;
        }
        PxOfPage(at);
        SlotIsLookup(at / PGSIZE);
        NextPage(old(heap), old(tab), heap, tab, va / PGSIZE, done, frame, perm);
        if heap[slot.page][slot.index].Valid? {
          return Remap, done;
        }
        h := heap;
        SetEntry(at / PGSIZE, slot.page, slot.index, Entry.Valid(target, perm));
        MapsOneMore(old(heap), old(tab), h, heap, tab, va / PGSIZE, done, frame, perm);
        done := done + 1;
        if at == last {
          break;
        }
        at, target := at + PGSIZE, target + 1;
      }
      r := Mapped;
    }

    /** Removes npages mappings from va on and says which frames to release. Absent pages are skipped. */
    method Unmap(va: nat, npages: nat, release: bool) returns (freed: seq<nat>)
      requires Valid() && va % PGSIZE == 0
      modifies this
      ensures Valid() && root == old(root)
      ensures heap.Keys == old(heap.Keys) && free == old(free) && tab == old(tab)
      ensures UnmapsExactly(old(heap), heap, tab, va / PGSIZE, npages)
      ensures freed == if release then Frames(old(heap), old(tab), va / PGSIZE, npages) else []
    {
      hide Lookup, Tree;
      freed := [];
      ghost var first := va / PGSIZE;
      var n := 0;
      while n < npages
        invariant 0 <= n <= npages
        invariant Valid() && root == old(root)
        invariant heap.Keys == old(heap.Keys) && free == old(free) && tab == old(tab)
        invariant UnmapsExactly(old(heap), heap, tab, first, n)
        invariant freed == if release then Frames(old(heap), old(tab), first, n) else []
      {
        var at := va + n * PGSIZE;
        assert at / PGSIZE == first + n;
        var slot := Walk(at, false);
        if slot.Slot? {
          PxOfPage(at);
          SlotIsLookup(first + n);
          var e := heap[slot.page][slot.index];
          if e.Valid? {
            assert LeafPerm(e.perm);      // the walk never ends at an inner entry
            if release {
              freed := freed + [e.page];
            }
            SetEntry(at / PGSIZE, slot.page, slot.index, Invalid);
          }
        } else {
          Absent(at);
        }
        n := n + 1;
      }
    }

    /** Without its bottom table a page is not mapped. */
    lemma Absent(va: nat)
      requires Valid() && (va >= MAXVA || Low(Px(2, va), Px(1, va)) !in tab)
      ensures va / PGSIZE >= MAXPAGE || Lookup(heap, tab, va / PGSIZE).Invalid?
    {
      if va < MAXVA {
        PxOfPage(va);
      }
    }

    // ---------- Releasing the tables ----------

    /** Gives one table page back to the allocator, which must not have it already. */
    method FreePage(page: nat)
      requires page in heap && page !in free
      modifies this`heap, this`free
      ensures heap == old(heap) - {page} && free == old(free) + {page}
    {
      heap, free := heap - {page}, free + {page};
    }

    /**
      Releases the table at s and every table below it, each page once. It panics, answering
      false, exactly when a leaf entry is left somewhere below.
    */
    method FreeWalk(page: nat, ghost s: Place) returns (ok: bool)
      requires Subtree(heap, tab, s) && tab[s] == page
      requires heap.Keys !! free
      modifies this`heap, this`free
      ensures ok <==> NoLeaves(old(heap), tab, s)
      ensures ok ==> heap == old(heap) - Pages(tab, s)
      ensures ok ==> free == old(free) + Pages(tab, s)
      decreases if s.Root? then 2 else if s.Mid? then 1 else 0
    {
      hide NoLeaves, NoLeavesBefore, Pages, PagesBefore, Shaped, Under, EntryOk, TableOk;
      ghost var start := heap;
      TableAt(heap, tab, s);
      var i := 0;
      while i < ENTRIES
        invariant 0 <= i <= ENTRIES
        invariant page in heap && |heap[page]| == ENTRIES
        invariant heap.Keys == start.Keys - PagesBefore(tab, s, i)
        invariant free == old(free) + PagesBefore(tab, s, i)
        invariant forall j :: i <= j < ENTRIES ==> heap[page][j] == start[page][j]
        invariant forall p :: p in heap && p != page ==> heap[p] == start[p]
        invariant heap.Keys !! free
        invariant NoLeavesBefore(start, tab, s, i)
      {
        EntryAt(start, tab, s, i);
        PagesStep(tab, s, i);
        NoLeavesStep(start, tab, s, i);
        var e := heap[page][i];
        if e.Valid? {
          if LeafPerm(e.perm) {
            return false;
          }
          ghost var child := Sub(s, i);
          ChildKept(start, heap, tab, s, i);
          var done := FreeWalk(e.page, child);
          if !done {
            return false;
          }
          heap := heap[page := heap[page][i := Invalid]];
        }
        i := i + 1;
      }
      NoLeavesAll(start, tab, s);
      FreePage(page);
      ok := true;
    }

    /** Unmaps the user pages below size, releasing their frames, then releases every table. */
    method Free(size: nat) returns (ok: bool, freed: seq<nat>)
      requires Valid()
      modifies this
      ensures ok <==> forall v :: 0 <= v < MAXPAGE && Lookup(old(heap), old(tab), v).Valid? ==> v < PagesIn(size)
      ensures ok ==> heap == map[] && free == old(free) + old(heap.Keys)
      ensures freed == Frames(old(heap), old(tab), 0, PagesIn(size))
    {
      hide Lookup, NoLeaves, Frames;
      freed := [];
      if size > 0 {
        freed := Unmap(0, PagesIn(size), true);
      } else {
        NoFrames(heap, tab);
      }
      LeavesAreMappings(heap, tab, root);
      ok := FreeWalk(root, Root);
    }

    /**
      Takes down a process's page table: the two fixed pages keep their frames, the user pages
      below size give theirs up. No panic, and no table left, exactly when nothing else is mapped.
    */
    method ProcFree(size: nat) returns (ok: bool, freed: seq<nat>)
      requires Valid()
      modifies this
      ensures ok <==> forall v :: 0 <= v < MAXPAGE && Lookup(old(heap), old(tab), v).Valid? ==>
                        v < PagesIn(size) || v == TRAPFRAME / PGSIZE || v == TRAMPOLINE / PGSIZE
      ensures ok ==> heap == map[] && free == old(free) + old(heap.Keys)
      ensures size <= TRAPFRAME ==> freed == Frames(old(heap), old(tab), 0, PagesIn(size))
    {
      hide Lookup, Tree, Frames;
      var _ := Unmap(TRAMPOLINE, 1, false);
      var _ := Unmap(TRAPFRAME, 1, false);
      if size <= TRAPFRAME {
        FramesAgree(old(heap), heap, tab, 0, PagesIn(size));
      }
      ok, freed := Free(size);
    }
  }
}
