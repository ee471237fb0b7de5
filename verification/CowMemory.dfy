/**
  User memory as a value: one flat map of leaf entries per process, frames with 8-bit reference
  counts, and the memory that each process sees through its map. The lemmas give the effect of
  each elementary step on the invariant and on what every process sees.
*/
module CowMemory {
  import opened PageTree
  import opened PageWalk

  const NPROC: nat := 64
  const TRAP: nat := TRAPFRAME / PGSIZE      // the first page number not open to the user

  type Page = s: seq<bv8> | |s| == PGSIZE witness seq(PGSIZE, i => 0)

  function ZeroPage(): Page {
    seq(PGSIZE, i => 0)
  }

  datatype Leaf = Leaf(frame: nat, perm: Perm)

  /** The user part of an address space: its mapped pages, and its size in bytes. */
  datatype Space = Space(pt: map<nat, Leaf>, size: nat)

  /** All address spaces by process slot, the frames, and the allocator. Kernel frames are not counted. */
  datatype State = State(spaces: map<nat, Space>, mem: seq<Page>, refs: seq<nat>, free: set<nat>, kernel: set<nat>)

  predicate MapsTo(s: State, a: nat, v: nat, f: nat) {
    a in s.spaces && v in s.spaces[a].pt && s.spaces[a].pt[v].frame == f
  }

  predicate Writable(s: State, a: nat, v: nat) {
    a in s.spaces && v in s.spaces[a].pt && s.spaces[a].pt[v].perm.w
  }

  /** The entries, over all address spaces, that map frame f. */
  function Mappings(s: State, f: nat): set<(nat, nat)> {
    set a, v | a in s.spaces && v in s.spaces[a].pt && s.spaces[a].pt[v].frame == f :: (a, v)
  }

  /** What process a sees at page v. A page that is not there yet reads as zeros. */
  function View(s: State, a: nat, v: nat): Page {
    if a in s.spaces && v in s.spaces[a].pt && s.spaces[a].pt[v].frame < |s.mem| then s.mem[s.spaces[a].pt[v].frame]
    else ZeroPage()
  }

  // ---------- The invariant ----------

  predicate Sane(s: State) {
    && |s.mem| == |s.refs|
    && (forall a :: a in s.spaces ==> a < NPROC)
    && (forall f :: f in s.free ==> f < |s.refs|)
    && s.free !! s.kernel
  }

  predicate PermOk(p: Perm) {
    p.r && !(p.w && p.cow)
  }

  predicate PageOk(s: State, a: nat, v: nat)
    requires a in s.spaces && v in s.spaces[a].pt
  {
    var leaf := s.spaces[a].pt[v];
    && v < TRAP
    && leaf.frame < |s.refs| && leaf.frame !in s.kernel
    && PermOk(leaf.perm)
  }

  ghost predicate PagesOk(s: State) {
    forall a, v {:trigger PageOk(s, a, v)} :: a in s.spaces && v in s.spaces[a].pt ==> PageOk(s, a, v)
  }

  /** No process maps a frame twice. */
  ghost predicate Once(s: State) {
    forall a, v, u, f :: MapsTo(s, a, v, f) && MapsTo(s, a, u, f) ==> v == u
  }

  /** A writable entry is the only entry of its frame. */
  ghost predicate Exclusive(s: State) {
    forall a, v, b, u, f :: MapsTo(s, a, v, f) && MapsTo(s, b, u, f) && Writable(s, a, v) ==> a == b && v == u
  }

  predicate CountOk(s: State, f: nat)
    requires f < |s.refs|
  {
    s.refs[f] == |Mappings(s, f)| && (f in s.free <==> s.refs[f] == 0)
  }

  /** Counts are exact, and the free frames are exactly those that nothing maps. */
  ghost predicate Counted(s: State) {
    forall f {:trigger CountOk(s, f)} :: 0 <= f < |s.refs| && f !in s.kernel ==> CountOk(s, f)
  }

  ghost predicate Core(s: State) {
    Sane(s) && PagesOk(s) && Once(s) && Exclusive(s) && Counted(s)
  }

  /** Process a maps only pages below page number n. */
  ghost predicate Below(s: State, a: nat, n: nat) {
    a in s.spaces ==> forall v :: v in s.spaces[a].pt ==> v < n
  }

  /** The invariant between operations: besides, no page lies beyond the size of its process. */
  ghost predicate Inv(s: State) {
    Core(s) && forall a :: a in s.spaces ==> Below(s, a, PagesIn(s.spaces[a].size))
  }

  // ---------- A count fits in a byte ----------

  lemma {:induction false} InjectiveCount(pairs: set<(nat, nat)>, keys: set<nat>)
    requires forall p :: p in pairs ==> p.0 in keys
    requires forall p, q :: p in pairs && q in pairs && p.0 == q.0 ==> p == q
    ensures |pairs| <= |keys|
  {
    if pairs != {} {
      var p :| p in pairs;
      InjectiveCount(pairs - {p}, keys - {p.0});
    }
  }

  lemma {:induction false} BelowCount(keys: set<nat>, n: nat)
    requires forall k :: k in keys ==> k < n
    ensures |keys| <= n
  {
    if n == 0 {
      assert keys == {};
    } else {
      BelowCount(keys - {n - 1}, n - 1);
      assert |keys| <= |keys - {n - 1}| + 1 by {
        if n - 1 in keys {
          assert keys == (keys - {n - 1}) + {n - 1};
        } else {
          assert keys == keys - {n - 1};
        }
      }
    }
  }

  /** However often memory is forked, a frame is mapped at most once per process. */
  lemma CountFits(s: State, f: nat)
    requires Sane(s) && Once(s)
    ensures |Mappings(s, f)| <= |s.spaces.Keys| <= NPROC
  {
    forall p, q | p in Mappings(s, f) && q in Mappings(s, f) && p.0 == q.0 ensures p == q {
      assert MapsTo(s, p.0, p.1, f) && MapsTo(s, q.0, q.1, f);
    }
    InjectiveCount(Mappings(s, f), s.spaces.Keys);
    BelowCount(s.spaces.Keys, NPROC);
  }

  // ---------- The allocator's counters, as 8-bit words ----------

  function Alloc(s: State, f: nat): State
    requires f < |s.refs| && f < |s.mem|
  {
    State(s.spaces, s.mem[f := ZeroPage()], s.refs[f := 1], s.free - {f}, s.kernel)
  }

  function Dealloc(s: State, f: nat): State
    requires f < |s.refs|
  {
    State(s.spaces, s.mem, s.refs[f := (s.refs[f] + 255) % 256],
          if s.refs[f] == 1 then s.free + {f} else s.free, s.kernel)
  }

  function IncrementRef(s: State, f: nat): State
    requires f < |s.refs|
  {
    State(s.spaces, s.mem, s.refs[f := (s.refs[f] + 1) % 256], s.free, s.kernel)
  }

  // ---------- Entries ----------

  function WithSpace(s: State, a: nat, space: Space): State {
    State(s.spaces[a := space], s.mem, s.refs, s.free, s.kernel)
  }

  function WithPage(s: State, f: nat, page: Page): State
    requires f < |s.mem|
  {
    State(s.spaces, s.mem[f := page], s.refs, s.free, s.kernel)
  }

  function PutLeaf(s: State, a: nat, v: nat, leaf: Leaf): State
    requires a in s.spaces
  {
    WithSpace(s, a, Space(s.spaces[a].pt[v := leaf], s.spaces[a].size))
  }

  function ClearLeaf(s: State, a: nat, v: nat): State
    requires a in s.spaces
  {
    WithSpace(s, a, Space(s.spaces[a].pt - {v}, s.spaces[a].size))
  }

  /** Two states show every process the same memory, except perhaps page v of process a. */
  ghost predicate SameViewBut(s: State, s': State, a: nat, v: nat) {
    forall b: nat, u: nat :: (b, u) != (a, v) ==> View(s', b, u) == View(s, b, u)
  }

  ghost predicate SameView(s: State, s': State) {
    forall b: nat, u: nat :: View(s', b, u) == View(s, b, u)
  }

  // ---------- A fresh frame under an absent page ----------

  function MapFresh(s: State, a: nat, v: nat, f: nat, page: Page, perm: Perm): State
    requires a in s.spaces && f < |s.refs| && f < |s.mem|
  {
    PutLeaf(WithPage(Alloc(s, f), f, page), a, v, Leaf(f, perm))
  }

  lemma MapFreshMappings(s: State, a: nat, v: nat, f: nat, page: Page, perm: Perm, g: nat)
    requires a in s.spaces && v !in s.spaces[a].pt && f < |s.refs| && f < |s.mem|
    ensures
      var s' := MapFresh(s, a, v, f, page, perm);
      Mappings(s', g) == if g == f then Mappings(s, f) + {(a, v)} else Mappings(s, g)
  {
  }

  lemma MapFreshKeeps(s: State, a: nat, v: nat, f: nat, page: Page, perm: Perm)
    requires Core(s) && a in s.spaces && v !in s.spaces[a].pt && f in s.free
    requires v < TRAP && PermOk(perm)
    ensures f < |s.refs| && f < |s.mem|
    ensures Core(MapFresh(s, a, v, f, page, perm))
    ensures SameViewBut(s, MapFresh(s, a, v, f, page, perm), a, v)
    ensures View(MapFresh(s, a, v, f, page, perm), a, v) == page
  {
    hide Once, Exclusive, Counted, Mappings;
    var s' := MapFresh(s, a, v, f, page, perm);
    Unmapped(s, f);
    forall b, u | b in s'.spaces && u in s'.spaces[b].pt ensures PageOk(s', b, u) {
      if (b, u) != (a, v) { assert PageOk(s, b, u); }
    }
    MapFreshCounts(s, a, v, f, page, perm);
    MapFreshRelations(s, a, v, f, page, perm);
    forall b: nat, u: nat | (b, u) != (a, v) ensures View(s', b, u) == View(s, b, u) {
      if b in s.spaces && u in s.spaces[b].pt {
        assert !MapsTo(s, b, u, f);
      }
    }
  }

  lemma MapFreshCounts(s: State, a: nat, v: nat, f: nat, page: Page, perm: Perm)
    requires Core(s) && a in s.spaces && v !in s.spaces[a].pt && f in s.free && f < |s.refs|
    ensures Counted(MapFresh(s, a, v, f, page, perm))
  {
    hide PagesOk, Once, Exclusive, Mappings;
    Unmapped(s, f);
    var s' := MapFresh(s, a, v, f, page, perm);
    forall g | 0 <= g < |s'.refs| && g !in s'.kernel ensures CountOk(s', g) {
      MapFreshMappings(s, a, v, f, page, perm, g);
      assert CountOk(s, g);
    }
  }

  /** Nothing maps a free frame. */
  lemma Unmapped(s: State, f: nat)
    requires Core(s) && f in s.free
    ensures f < |s.refs| && f < |s.mem| && f !in s.kernel && s.refs[f] == 0
    ensures Mappings(s, f) == {} && forall b: nat, u: nat :: !MapsTo(s, b, u, f)
  {
    assert CountOk(s, f);
    assert Mappings(s, f) == {};
    forall b: nat, u: nat ensures !MapsTo(s, b, u, f) {
      assert (b, u) !in Mappings(s, f);
    }
  }

  /** With no more mappings, and none newly writable, the sharing discipline holds as before. */
  lemma FewerMappings(s: State, s': State)
    requires Once(s) && Exclusive(s)
    requires forall b: nat, u: nat, g: nat :: MapsTo(s', b, u, g) ==> MapsTo(s, b, u, g)
    requires forall b: nat, u: nat :: Writable(s', b, u) ==> Writable(s, b, u)
    ensures Once(s') && Exclusive(s')
  {
    hide MapsTo, Writable;
  }

  /** The mappings after the step are those before it and the new one. */
  lemma MapFreshRelations(s: State, a: nat, v: nat, f: nat, page: Page, perm: Perm)
    requires Core(s) && a in s.spaces && v !in s.spaces[a].pt && f < |s.refs|
    requires forall b: nat, u: nat :: !MapsTo(s, b, u, f)
    ensures Once(MapFresh(s, a, v, f, page, perm)) && Exclusive(MapFresh(s, a, v, f, page, perm))
  {
    var s' := MapFresh(s, a, v, f, page, perm);
    forall b: nat, u: nat, g: nat ensures MapsTo(s', b, u, g) <==> MapsTo(s, b, u, g) || (b == a && u == v && g == f) {
    }
    forall b: nat, u: nat | (b, u) != (a, v) ensures Writable(s', b, u) <==> Writable(s, b, u) {
    }
  }

  // ---------- Dropping a page ----------

  function DropPage(s: State, a: nat, v: nat): State
    requires a in s.spaces && v in s.spaces[a].pt && s.spaces[a].pt[v].frame < |s.refs|
  {
    ClearLeaf(Dealloc(s, s.spaces[a].pt[v].frame), a, v)
  }

  lemma DropMappings(s: State, a: nat, v: nat, g: nat)
    requires a in s.spaces && v in s.spaces[a].pt && s.spaces[a].pt[v].frame < |s.refs|
    ensures Mappings(DropPage(s, a, v), g) == Mappings(s, g) - {(a, v)}
    ensures (a, v) in Mappings(s, g) <==> g == s.spaces[a].pt[v].frame
  {
  }

  /** The frame of a mapped page is counted, and not free. */
  lemma MappedFrame(s: State, a: nat, v: nat)
    requires Core(s) && a in s.spaces && v in s.spaces[a].pt
    ensures
      var f := s.spaces[a].pt[v].frame;
      f < |s.refs| && f < |s.mem| && f !in s.kernel && f !in s.free && 1 <= s.refs[f] <= NPROC
      && s.refs[f] == |Mappings(s, f)| && (a, v) in Mappings(s, f)
  {
    var f := s.spaces[a].pt[v].frame;
    assert PageOk(s, a, v);
    assert CountOk(s, f);
    assert (a, v) in Mappings(s, f);
    CountFits(s, f);
  }

  /**
    Dropping a page takes it from its process alone; the frame is freed exactly when this was its
    last mapping.
  */
  lemma DropKeeps(s: State, a: nat, v: nat)
    requires Core(s) && a in s.spaces && v in s.spaces[a].pt
    ensures
      var f := s.spaces[a].pt[v].frame;
      f < |s.refs|
      && (f in DropPage(s, a, v).free <==> Mappings(s, f) == {(a, v)})
    ensures Core(DropPage(s, a, v))
    ensures SameViewBut(s, DropPage(s, a, v), a, v)
    ensures View(DropPage(s, a, v), a, v) == ZeroPage()
  {
    hide PagesOk, Counted, Once, Exclusive;
    MappedFrame(s, a, v);
    SingleMapping(Mappings(s, s.spaces[a].pt[v].frame), (a, v));
    DropCounts(s, a, v);
    DropRelations(s, a, v);
  }

  lemma DropCounts(s: State, a: nat, v: nat)
    requires Core(s) && a in s.spaces && v in s.spaces[a].pt && s.spaces[a].pt[v].frame < |s.refs|
    ensures Counted(DropPage(s, a, v))
  {
    hide PagesOk, Once, Exclusive, Mappings;
    MappedFrame(s, a, v);
    var s' := DropPage(s, a, v);
    forall g | 0 <= g < |s'.refs| && g !in s'.kernel ensures CountOk(s', g) {
      DropMappings(s, a, v, g);
      assert CountOk(s, g);
    }
  }

  lemma DropRelations(s: State, a: nat, v: nat)
    requires Core(s) && a in s.spaces && v in s.spaces[a].pt && s.spaces[a].pt[v].frame < |s.refs|
    ensures Sane(DropPage(s, a, v)) && PagesOk(DropPage(s, a, v))
    ensures Once(DropPage(s, a, v)) && Exclusive(DropPage(s, a, v))
  {
    hide Counted, Once, Exclusive;
    var s' := DropPage(s, a, v);
    assert PageOk(s, a, v);
    forall b, u | b in s'.spaces && u in s'.spaces[b].pt ensures PageOk(s', b, u) {
      assert PageOk(s, b, u);
    }
    FewerMappings(s, s');
  }

  lemma SingleMapping(pairs: set<(nat, nat)>, p: (nat, nat))
    requires p in pairs
    ensures |pairs| == 1 <==> pairs == {p}
  {
    assert pairs == (pairs - {p}) + {p};
    if |pairs| == 1 {
      assert pairs - {p} == {};
    }
  }

  // ---------- Changing permissions ----------

  /** Taking write permission away, or leaving it as it is, is seen by nobody. */
  lemma RepermKeeps(s: State, a: nat, v: nat, perm: Perm)
    requires Core(s) && a in s.spaces && v in s.spaces[a].pt
    requires PermOk(perm) && (perm.w ==> s.spaces[a].pt[v].perm.w)
    ensures Core(PutLeaf(s, a, v, Leaf(s.spaces[a].pt[v].frame, perm)))
    ensures SameView(s, PutLeaf(s, a, v, Leaf(s.spaces[a].pt[v].frame, perm)))
  {
    hide Counted, Once, Exclusive;
    var s' := PutLeaf(s, a, v, Leaf(s.spaces[a].pt[v].frame, perm));
    assert PageOk(s, a, v);
    forall b, u | b in s'.spaces && u in s'.spaces[b].pt ensures PageOk(s', b, u) {
      assert PageOk(s, b, u);
    }
    FewerMappings(s, s');
    SameCounts(s, s');
  }

  lemma SameCounts(s: State, s': State)
    requires Counted(s) && s'.refs == s.refs && s'.free == s.free && s'.kernel == s.kernel
    requires forall b: nat, u: nat, g: nat :: MapsTo(s', b, u, g) <==> MapsTo(s, b, u, g)
    ensures Counted(s')
  {
    hide Mappings, MapsTo;
    forall g | 0 <= g < |s'.refs| && g !in s'.kernel ensures CountOk(s', g) {
      assert CountOk(s, g);
      SameMappings(s, s', g);
    }
  }

  lemma SameMappings(s: State, s': State, g: nat)
    requires forall b: nat, u: nat :: MapsTo(s', b, u, g) <==> MapsTo(s, b, u, g)
    ensures Mappings(s', g) == Mappings(s, g)
  {
    forall p | p in Mappings(s, g) ensures p in Mappings(s', g) {
      assert MapsTo(s, p.0, p.1, g);
    }
    forall p | p in Mappings(s', g) ensures p in Mappings(s, g) {
      assert MapsTo(s', p.0, p.1, g);
    }
  }

  // ---------- Sharing a page with a child ----------

  /** Maps page v of process a into process b as well and counts the new mapping. */
  function SharePage(s: State, a: nat, v: nat, b: nat): State
    requires a in s.spaces && v in s.spaces[a].pt && b in s.spaces && s.spaces[a].pt[v].frame < |s.refs|
  {
    IncrementRef(PutLeaf(s, b, v, s.spaces[a].pt[v]), s.spaces[a].pt[v].frame)
  }

  lemma ShareMappings(s: State, a: nat, v: nat, b: nat, g: nat)
    requires a in s.spaces && v in s.spaces[a].pt && b in s.spaces && s.spaces[a].pt[v].frame < |s.refs|
    requires v !in s.spaces[b].pt
    ensures Mappings(SharePage(s, a, v, b), g) ==
            if g == s.spaces[a].pt[v].frame then Mappings(s, g) + {(b, v)} else Mappings(s, g)
    ensures (b, v) !in Mappings(s, g)
  {
  }

  /** A page that is not writable can be shared: the child sees what the parent sees, the count stays exact. */
  lemma ShareKeeps(s: State, a: nat, v: nat, b: nat)
    requires Core(s) && a in s.spaces && v in s.spaces[a].pt && b in s.spaces && v !in s.spaces[b].pt
    requires !Writable(s, a, v) && forall u: nat :: !MapsTo(s, b, u, s.spaces[a].pt[v].frame)
    ensures s.spaces[a].pt[v].frame < |s.refs|
    ensures Core(SharePage(s, a, v, b))
    ensures SameViewBut(s, SharePage(s, a, v, b), b, v)
    ensures View(SharePage(s, a, v, b), b, v) == View(s, a, v)
  {
    hide Counted, Once, Exclusive;
    MappedFrame(s, a, v);
    var s' := SharePage(s, a, v, b);
    assert PagesOk(s') by {
      forall c, u | c in s'.spaces && u in s'.spaces[c].pt ensures PageOk(s', c, u) {
        assert PageOk(s, a, v);
        if (c, u) != (b, v) { assert PageOk(s, c, u); }
      }
    }
    ShareCounts(s, a, v, b);
    ShareRelations(s, a, v, b);
  }

  lemma ShareCounts(s: State, a: nat, v: nat, b: nat)
    requires Core(s) && a in s.spaces && v in s.spaces[a].pt && b in s.spaces && v !in s.spaces[b].pt
    requires s.spaces[a].pt[v].frame < |s.refs|
    ensures Counted(SharePage(s, a, v, b))
  {
    hide PagesOk, Once, Exclusive, Mappings;
    MappedFrame(s, a, v);
    var s' := SharePage(s, a, v, b);
    forall g | 0 <= g < |s'.refs| && g !in s'.kernel ensures CountOk(s', g) {
      ShareMappings(s, a, v, b, g);
      assert CountOk(s, g);
    }
  }

  lemma ShareRelations(s: State, a: nat, v: nat, b: nat)
    requires Core(s) && a in s.spaces && v in s.spaces[a].pt && b in s.spaces && v !in s.spaces[b].pt
    requires s.spaces[a].pt[v].frame < |s.refs|
    requires !Writable(s, a, v) && forall u: nat :: !MapsTo(s, b, u, s.spaces[a].pt[v].frame)
    ensures Once(SharePage(s, a, v, b)) && Exclusive(SharePage(s, a, v, b))
  {
    var f := s.spaces[a].pt[v].frame;
    var s' := SharePage(s, a, v, b);
    assert MapsTo(s, a, v, f);
    forall c: nat, u: nat, g: nat ensures MapsTo(s', c, u, g) <==> MapsTo(s, c, u, g) || (c == b && u == v && g == f) {
    }
    forall c: nat, u: nat ensures Writable(s', c, u) ==> Writable(s, c, u) && (c, u) != (b, v) {
    }
  }

  // ---------- Storing ----------

  /** A store through a writable entry is seen at its own page of its own process and nowhere else. */
  lemma StoreKeeps(s: State, a: nat, v: nat, page: Page)
    requires Core(s) && Writable(s, a, v)
    ensures s.spaces[a].pt[v].frame < |s.mem|
    ensures Core(WithPage(s, s.spaces[a].pt[v].frame, page))
    ensures SameViewBut(s, WithPage(s, s.spaces[a].pt[v].frame, page), a, v)
    ensures View(WithPage(s, s.spaces[a].pt[v].frame, page), a, v) == page
  {
    MappedFrame(s, a, v);
    var f := s.spaces[a].pt[v].frame;
    var s' := WithPage(s, f, page);
    assert MapsTo(s, a, v, f);
    forall b: nat, u: nat | (b, u) != (a, v) ensures View(s', b, u) == View(s, b, u) {
      assert !MapsTo(s, b, u, f);
    }
    MemoryIrrelevant(s, s');
  }

  /** The invariant does not speak of contents. */
  lemma MemoryIrrelevant(s: State, s': State)
    requires Core(s) && s' == State(s.spaces, s'.mem, s.refs, s.free, s.kernel) && |s'.mem| == |s.mem|
    ensures Core(s')
  {
    forall b: nat, u: nat, g: nat ensures MapsTo(s', b, u, g) <==> MapsTo(s, b, u, g) {
    }
    forall b: nat, u: nat ensures Writable(s', b, u) <==> Writable(s, b, u) {
    }
    forall b, u | b in s'.spaces && u in s'.spaces[b].pt ensures PageOk(s', b, u) {
      assert PageOk(s, b, u);
    }
    forall g | 0 <= g < |s'.refs| && g !in s'.kernel ensures CountOk(s', g) {
      assert CountOk(s, g);
      SameMappings(s, s', g);
    }
  }

  /** Taking a frame and giving it back leaves no trace. */
  lemma TakeAndReturn(s: State, f: nat)
    requires Core(s) && f in s.free
    ensures f < |s.refs| && f < |s.mem|
    ensures Dealloc(Alloc(s, f), f) == WithPage(s, f, ZeroPage())
    ensures Core(Dealloc(Alloc(s, f), f)) && SameView(s, Dealloc(Alloc(s, f), f))
  {
    Unmapped(s, f);
    var s' := WithPage(s, f, ZeroPage());
    assert Dealloc(Alloc(s, f), f).refs == s.refs;
    assert Dealloc(Alloc(s, f), f).free == s.free;
    MemoryIrrelevant(s, s');
    forall b: nat, u: nat ensures View(s', b, u) == View(s, b, u) {
      assert !MapsTo(s, b, u, f);
    }
  }
}
