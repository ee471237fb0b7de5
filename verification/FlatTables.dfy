/**
  The three-level tables seen as the flat maps that the rest of memory management speaks of: what
  each operation on the tables does to the map is the operation of the same name on the map.
*/
module FlatTables {
  import opened PageTree
  import opened PageWalk
  import opened CowMemory
  import opened UserMemory

  /** The pages that the hardware would translate, with their frames and permissions. */
  function Flat(heap: Tables, root: nat): map<nat, Leaf> {
    map v | 0 <= v < MAXPAGE && Translate(heap, root, v).Valid? ::
      Leaf(Translate(heap, root, v).page, Translate(heap, root, v).perm)
  }

  /** The flat map holds at each page what the tree of tables holds there. */
  lemma FlatAt(heap: Tables, tab: Layout, root: nat, v: nat)
    requires Tree(heap, tab, root) && v < MAXPAGE
    ensures v in Flat(heap, root) <==> Lookup(heap, tab, v).Valid?
    ensures v in Flat(heap, root) ==> Flat(heap, root)[v] == Leaf(Lookup(heap, tab, v).page, Lookup(heap, tab, v).perm)
  {
    TranslateIsLookup(heap, tab, root, v);
    hide Translate, Lookup, Tree;
  }

  /** Tables created on the way are not seen in the map. */
  lemma WalkIsUnseen(heap: Tables, tab: Layout, heap': Tables, tab': Layout, root: nat)
    requires Tree(heap, tab, root) && Tree(heap', tab', root)
    requires forall v :: 0 <= v < MAXPAGE ==> Lookup(heap', tab', v) == Lookup(heap, tab, v)
    ensures Flat(heap', root) == Flat(heap, root)
  {
    hide Lookup, Tree, Translate;
    forall v: nat | v < MAXPAGE
      ensures v in Flat(heap', root) <==> v in Flat(heap, root)
      ensures v in Flat(heap, root) ==> Flat(heap', root)[v] == Flat(heap, root)[v]
    {
      FlatAt(heap, tab, root, v);
      FlatAt(heap', tab', root, v);
    }
  }

  /** Mapping one page in the tables puts one leaf into the map, where there was none. */
  lemma MapIsPut(heap: Tables, tab: Layout, heap': Tables, tab': Layout, root: nat, v: nat, frame: nat, perm: Perm)
    requires Tree(heap, tab, root) && Tree(heap', tab', root)
    requires MapsExactly(heap, tab, heap', tab', v, 1, frame, perm)
    ensures v !in Flat(heap, root) && Flat(heap', root) == Flat(heap, root)[v := Leaf(frame, perm)]
  {
    hide Lookup, Tree, Translate;
    assert NewlyMapped(heap, tab, heap', tab', v, frame, perm, v);
    FlatAt(heap, tab, root, v);
    FlatAt(heap', tab', root, v);
    forall w: nat | w < MAXPAGE && w != v
      ensures w in Flat(heap', root) <==> w in Flat(heap, root)
      ensures w in Flat(heap, root) ==> Flat(heap', root)[w] == Flat(heap, root)[w]
    {
      FlatAt(heap, tab, root, w);
      FlatAt(heap', tab', root, w);
    }
  }

  /** Unmapping a range in the tables cuts the range out of the map. */
  lemma UnmapIsCut(heap: Tables, heap': Tables, tab: Layout, root: nat, first: nat, n: nat)
    requires Tree(heap, tab, root) && Tree(heap', tab, root)
    requires UnmapsExactly(heap, heap', tab, first, n)
    ensures Flat(heap', root) == CutRange(Flat(heap, root), first, first + n)
  {
    hide Lookup, Tree, Translate;
    var cut := CutRange(Flat(heap, root), first, first + n);
    forall w: nat | w < MAXPAGE
      ensures w in Flat(heap', root) <==> w in cut
      ensures w in cut ==> Flat(heap', root)[w] == cut[w]
    {
      FlatAt(heap, tab, root, w);
      FlatAt(heap', tab, root, w);
    }
  }

  /** A page table holds the user pages of process a and, besides them, at most the two fixed pages. */
  ghost predicate Holds(heap: Tables, root: nat, s: State, a: nat) {
    && a in s.spaces
    && forall v :: v in Flat(heap, root) ==> v in s.spaces[a].pt || v == TRAP || v == TRAP + 1
  }

  /** Below the fixed pages the table of process a maps what its flat map says, and nothing else. */
  ghost predicate Mirrors(heap: Tables, root: nat, s: State, a: nat) {
    && a in s.spaces
    && forall v: nat :: v < TRAP ==> SamePage(Flat(heap, root), s.spaces[a].pt, v)
  }

  predicate SamePage(f: map<nat, Leaf>, pt: map<nat, Leaf>, v: nat) {
    (v in f <==> v in pt) && (v in f ==> f[v] == pt[v])
  }

  /** The trapframe and the trampoline are mapped. */
  predicate FixedMapped(heap: Tables, root: nat) {
    TRAP in Flat(heap, root) && TRAP + 1 in Flat(heap, root)
  }

  lemma FlatPages(heap: Tables, root: nat)
    ensures forall v :: v in Flat(heap, root) ==> v < TRAP || v == TRAP || v == TRAP + 1
  {
    hide Translate;
  }

  lemma MirrorsHolds(heap: Tables, root: nat, s: State, a: nat)
    requires Mirrors(heap, root, s, a)
    ensures Holds(heap, root, s, a)
  {
    hide Flat;
    FlatPages(heap, root);
    forall v | v in Flat(heap, root) ensures v in s.spaces[a].pt || v == TRAP || v == TRAP + 1 {
      if v < TRAP {
        assert SamePage(Flat(heap, root), s.spaces[a].pt, v);
      }
    }
  }

  /** One leaf put into both maps. */
  lemma MirrorsPut(heap: Tables, heap': Tables, root: nat, s: State, a: nat, v: nat, leaf: Leaf)
    requires Mirrors(heap, root, s, a) && Flat(heap', root) == Flat(heap, root)[v := leaf] && v < TRAP
    ensures Mirrors(heap', root, PutLeaf(s, a, v, leaf), a)
    ensures FixedMapped(heap, root) ==> FixedMapped(heap', root)
  {
    hide Flat;
    var pt := s.spaces[a].pt;
    var pt' := pt[v := leaf];
    forall u: nat | u < TRAP ensures SamePage(Flat(heap', root), pt', u) {
      assert SamePage(Flat(heap, root), pt, u);
    }
  }

  /** A range cut out of both maps. */
  lemma MirrorsCut(heap: Tables, heap': Tables, root: nat, s: State, s': State, a: nat, lo: nat, hi: nat)
    requires Mirrors(heap, root, s, a) && a in s'.spaces
    requires Flat(heap', root) == CutRange(Flat(heap, root), lo, hi) && s'.spaces[a].pt == CutRange(s.spaces[a].pt, lo, hi)
    ensures Mirrors(heap', root, s', a)
    ensures FixedMapped(heap, root) && !HoldsFixed(lo, hi) ==> FixedMapped(heap', root)
  {
    hide Flat;
    forall u: nat | u < TRAP ensures SamePage(Flat(heap', root), s'.spaces[a].pt, u) {
      assert SamePage(Flat(heap, root), s.spaces[a].pt, u);
    }
  }

  lemma MirrorsSame(heap: Tables, heap': Tables, root: nat, s: State, a: nat)
    requires Mirrors(heap, root, s, a) && Flat(heap', root) == Flat(heap, root)
    ensures Mirrors(heap', root, s, a) && (FixedMapped(heap, root) ==> FixedMapped(heap', root))
  {
    hide Flat;
  }

  /** Rewriting the entry of a mapped page puts another leaf into the map. */
  lemma SetIsPut(heap: Tables, heap': Tables, tab: Layout, root: nat, v: nat, frame: nat, perm: Perm)
    requires Tree(heap, tab, root) && Tree(heap', tab, root) && v < MAXPAGE
    requires Lookup(heap', tab, v) == Valid(frame, perm)
    requires forall w :: 0 <= w < MAXPAGE && w != v ==> Lookup(heap', tab, w) == Lookup(heap, tab, w)
    ensures Flat(heap', root) == Flat(heap, root)[v := Leaf(frame, perm)]
  {
    hide Lookup, Tree, Translate;
    FlatAt(heap', tab, root, v);
    forall w: nat | w < MAXPAGE && w != v
      ensures w in Flat(heap', root) <==> w in Flat(heap, root)
      ensures w in Flat(heap, root) ==> Flat(heap', root)[w] == Flat(heap, root)[w]
    {
      FlatAt(heap, tab, root, w);
      FlatAt(heap', tab, root, w);
    }
  }

  /**
    Mapping a page of process a in its table has the outcomes that Vm.MapPage promises, and the table
    goes on to mirror the flat map.
  */
  method MapInTable(t: PageTable, vm: Vm, a: nat, v: nat, leaf: Leaf) returns (r: MapResult)
    requires t.Valid() && a in vm.spaces && Mirrors(t.heap, t.root, vm.S(), a) && FixedMapped(t.heap, t.root)
    requires LeafPerm(leaf.perm)
    modifies t, vm`spaces, vm`refusals
    ensures t.Valid() && t.root == old(t.root) && Mirrors(t.heap, t.root, vm.S(), a) && FixedMapped(t.heap, t.root)
    ensures r.Mapped? ==> v < TRAP && v !in old(vm.spaces)[a].pt && vm.S() == PutLeaf(old(vm.S()), a, v, leaf)
    ensures r.Remap? ==> v in old(vm.spaces)[a].pt || v == TRAP || v == TRAP + 1
    ensures !r.Mapped? ==> vm.spaces == old(vm.spaces)
    ensures vm.refusals >= old(vm.refusals) && (r.MapFailed? ==> v >= MAXPAGE || vm.refusals > old(vm.refusals))
  {
    hide Tree, Lookup, Flat, MapsExactly, Translate;
    ghost var heap, tab := t.heap, t.tab;
    ghost var done;
    r, done := t.MapPages(v * PGSIZE, leaf.frame, PGSIZE, leaf.perm);
    assert v * PGSIZE / PGSIZE == v;
    assert v < TRAP ==> SamePage(Flat(heap, t.root), vm.spaces[a].pt, v);
    if r.Mapped? {
      MapIsPut(heap, tab, t.heap, t.tab, t.root, v, leaf.frame, leaf.perm);
      assert v in Flat(t.heap, t.root);
      FlatPages(t.heap, t.root);
      MirrorsPut(heap, t.heap, t.root, vm.S(), a, v, leaf);
      vm.spaces := vm.spaces[a := Space(vm.spaces[a].pt[v := leaf], vm.spaces[a].size)];
    } else {
      MapsNone(heap, tab, t.heap, t.tab, v, leaf.frame, leaf.perm);
      WalkIsUnseen(heap, tab, t.heap, t.tab, t.root);
      MirrorsSame(heap, t.heap, t.root, vm.S(), a);
      if r.Remap? {
        FlatAt(heap, tab, t.root, v);
        FlatPages(heap, t.root);
      } else if v < MAXPAGE {
        vm.refusals := vm.refusals + 1;
      }
    }
  }

  lemma MapsNone(heap: Tables, tab: Layout, heap': Tables, tab': Layout, v: nat, frame: nat, perm: Perm)
    requires MapsExactly(heap, tab, heap', tab', v, 0, frame, perm)
    ensures forall w :: 0 <= w < MAXPAGE ==> Lookup(heap', tab', w) == Lookup(heap, tab, w)
  {
    hide Lookup;
  }

  /** Unmapping a range of process a in its table and in the flat map: the same pages go from both. */
  method UnmapInTable(t: PageTable, vm: Vm, a: nat, lo: nat, hi: nat) returns (lost: bool, freed: seq<nat>)
    requires t.Valid() && Core(vm.S()) && a in vm.spaces && Mirrors(t.heap, t.root, vm.S(), a) && FixedMapped(t.heap, t.root) && lo <= hi
    modifies t, vm
    ensures t.Valid() && t.root == old(t.root) && Core(vm.S()) && a in vm.spaces && Mirrors(t.heap, t.root, vm.S(), a)
    ensures lost <==> HoldsFixed(lo, hi)
    ensures !lost ==> FixedMapped(t.heap, t.root)
    ensures vm.spaces[a].pt == CutRange(old(vm.spaces)[a].pt, lo, hi)
    ensures freed == Frames(old(t.heap), old(t.tab), lo, hi - lo)
  {
    hide Tree, Lookup, Flat, Core, Translate, View, UnmapsExactly;
    ghost var heap, s := t.heap, vm.S();
    freed := t.Unmap(lo * PGSIZE, hi - lo, true);
    assert lo * PGSIZE / PGSIZE == lo;
    UnmapIsCut(heap, t.heap, t.tab, t.root, lo, hi - lo);
    lost := vm.UnmapPages(a, lo, hi, true);
    MirrorsCut(heap, t.heap, t.root, s, vm.S(), a, lo, hi);
  }

  /** Rewriting the entry of a mapped page, as the fault handler and copy do, in the table and in the flat map. */
  method SetInTable(t: PageTable, vm: Vm, a: nat, v: nat, leaf: Leaf)
    requires t.Valid() && a in vm.spaces && Mirrors(t.heap, t.root, vm.S(), a) && FixedMapped(t.heap, t.root)
    requires v < TRAP && v in vm.spaces[a].pt && LeafPerm(leaf.perm)
    modifies t, vm`spaces
    ensures t.Valid() && t.root == old(t.root) && vm.S() == PutLeaf(old(vm.S()), a, v, leaf)
    ensures Mirrors(t.heap, t.root, vm.S(), a) && FixedMapped(t.heap, t.root)
  {
    hide Tree, Lookup, Flat, Translate;
    ghost var heap := t.heap;
    assert SamePage(Flat(heap, t.root), vm.spaces[a].pt, v);
    FlatAt(heap, t.tab, t.root, v);
    MappedSlot(heap, t.tab, v);
    PxOfPage(v * PGSIZE);
    assert v * PGSIZE / PGSIZE == v;
    var slot := t.Walk(v * PGSIZE, false);
    t.SetEntry(v, slot.page, slot.index, Valid(leaf.frame, leaf.perm));
    SetIsPut(heap, t.heap, t.tab, t.root, v, leaf.frame, leaf.perm);
    MirrorsPut(heap, t.heap, t.root, vm.S(), a, v, leaf);
    vm.spaces := vm.spaces[a := Space(vm.spaces[a].pt[v := leaf], vm.spaces[a].size)];
  }

  lemma MappedSlot(heap: Tables, tab: Layout, v: nat)
    requires Lookup(heap, tab, v).Valid?
    ensures Low(Top(v), Middle(v)) in tab
  {
  }

  lemma EmptyFlat(heap: Tables, tab: Layout, root: nat)
    requires Tree(heap, tab, root) && forall v :: 0 <= v < MAXPAGE ==> Lookup(heap, tab, v).Invalid?
    ensures Flat(heap, root) == map[]
  {
    hide Lookup, Tree, Translate;
    forall v: nat | v < MAXPAGE ensures v !in Flat(heap, root) {
      FlatAt(heap, tab, root, v);
    }
  }

  lemma EmptyLookup(heap: Tables, tab: Layout, root: nat, v: nat)
    requires Tree(heap, tab, root) && v < MAXPAGE && v !in Flat(heap, root)
    ensures Lookup(heap, tab, v).Invalid?
  {
    hide Lookup, Tree, Translate;
    FlatAt(heap, tab, root, v);
  }

  const READ_EXECUTE: Perm := Perm(true, false, true, false, false)
  const READ_WRITE: Perm := Perm(true, true, false, false, false)

  /**
    The table of a new process: the two fixed pages and nothing else. Without memory for it the
    table is taken down again, and every page of it goes back to the allocator.
  */
  method CreateTable(t: PageTable, trampoline: nat, trapframe: nat) returns (ok: bool)
    requires t.Valid() && forall v :: 0 <= v < MAXPAGE ==> Lookup(t.heap, t.tab, v).Invalid?
    modifies t
    ensures ok ==> t.Valid() && t.root == old(t.root) && FixedMapped(t.heap, t.root)
    ensures ok ==> Flat(t.heap, t.root) == map[TRAP + 1 := Leaf(trampoline, READ_EXECUTE), TRAP := Leaf(trapframe, READ_WRITE)]
    ensures ok ==> t.heap.Keys + t.free == old(t.heap.Keys + t.free)
    ensures !ok ==> t.heap == map[] && t.free == old(t.heap.Keys + t.free)
  {
    hide Tree, Lookup, Flat, Translate, MapsExactly, UnmapsExactly, Frames;
    ghost var h0, t0 := t.heap, t.tab;
    EmptyFlat(h0, t0, t.root);
    var r;
    ghost var done;
    r, done := t.MapPages(TRAMPOLINE, trampoline, PGSIZE, READ_EXECUTE);
    if !r.Mapped? {
      MapsNone(h0, t0, t.heap, t.tab, TRAP + 1, trampoline, READ_EXECUTE);
      var _ := GiveUp(t);
      return false;
    }
    ghost var h1, t1 := t.heap, t.tab;
    MapIsPut(h0, t0, h1, t1, t.root, TRAP + 1, trampoline, READ_EXECUTE);
    r, done := t.MapPages(TRAPFRAME, trapframe, PGSIZE, READ_WRITE);
    if !r.Mapped? {
      MapsNone(h1, t1, t.heap, t.tab, TRAP, trapframe, READ_WRITE);
      WalkIsUnseen(h1, t1, t.heap, t.tab, t.root);
      ghost var h2 := t.heap;
      var none := t.Unmap(TRAMPOLINE, 1, false);
      UnmapIsCut(h2, t.heap, t.tab, t.root, TRAP + 1, 1);
      forall v | 0 <= v < MAXPAGE ensures Lookup(t.heap, t.tab, v).Invalid? {
        EmptyLookup(t.heap, t.tab, t.root, v);
      }
      var _ := GiveUp(t);
      return false;
    }
    MapIsPut(h1, t1, t.heap, t.tab, t.root, TRAP, trapframe, READ_WRITE);
    ok := true;
  }

  /** Takes down a table without mappings. */
  method GiveUp(t: PageTable) returns (ok: bool)
    requires t.Valid() && forall v :: 0 <= v < MAXPAGE ==> Lookup(t.heap, t.tab, v).Invalid?
    modifies t
    ensures ok && t.heap == map[] && t.free == old(t.free) + old(t.heap.Keys)
  {
    hide Tree, Lookup, Frames;
    var freed;
    ok, freed := t.Free(0);
  }

  /** A new process without user memory is mirrored by its new table. */
  lemma NewMirrors(heap: Tables, root: nat, s: State, a: nat)
    requires a in s.spaces && s.spaces[a].pt == map[] && Flat(heap, root).Keys == {TRAP + 1, TRAP}
    ensures Mirrors(heap, root, s, a) && FixedMapped(heap, root)
  {
    hide Flat;
  }

  /** Between operations nothing is mapped beyond the size of a process but the fixed pages. */
  lemma NothingElseMapped(heap: Tables, tab: Layout, root: nat, s: State, a: nat, v: nat)
    requires Tree(heap, tab, root) && Inv(s) && Holds(heap, root, s, a)
    requires v < MAXPAGE && Lookup(heap, tab, v).Valid?
    ensures v < PagesIn(s.spaces[a].size) || v == TRAPFRAME / PGSIZE || v == TRAMPOLINE / PGSIZE
  {
    hide Tree, Lookup, Core, Flat;
    FlatAt(heap, tab, root, v);
    assert Below(s, a, PagesIn(s.spaces[a].size));
  }

  /**
    Teardown is complete: the table of a process can be taken down in any state between operations.
    No leaf is left, so the panic does not occur, and every table page goes back to the allocator,
    which did not have it.
  */
  method TearDown(t: PageTable, ghost s: State, ghost a: nat, size: nat) returns (freed: seq<nat>)
    requires t.Valid() && Inv(s) && Holds(t.heap, t.root, s, a) && size == s.spaces[a].size
    modifies t
    ensures t.heap == map[] && t.free == old(t.free) + old(t.heap.Keys) && old(t.free) !! old(t.heap.Keys)
    ensures size <= TRAPFRAME ==> freed == Frames(old(t.heap), old(t.tab), 0, PagesIn(size))
  {
    hide Tree, Lookup, Core, Flat, Frames;
    forall v | 0 <= v < MAXPAGE && Lookup(t.heap, t.tab, v).Valid?
      ensures v < PagesIn(size) || v == TRAPFRAME / PGSIZE || v == TRAMPOLINE / PGSIZE
    {
      NothingElseMapped(t.heap, t.tab, t.root, s, a, v);
    }
    var ok;
    ok, freed := t.ProcFree(size);
  }
}
