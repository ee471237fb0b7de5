/**
  The operations on user memory: growing and shrinking, page faults, fork's copy, teardown, and
  the kernel's copies to and from user memory. Page tables appear as flat maps; the two fixed
  pages at the top of every table, the trapframe and the trampoline, are always mapped.
*/
module UserMemory {
  import opened PageTree
  import opened PageWalk
  import opened CowMemory

  /** FixedPageLost: the operation has unmapped and freed a fixed page, after which nothing is promised. */
  datatype VmResult<T> = Ok(value: T) | Err | Panic | FixedPageLost

  /** A range of pages that holds the trapframe or the trampoline. */
  predicate HoldsFixed(lo: nat, hi: nat) {
    (lo <= TRAP < hi) || (lo <= TRAP + 1 < hi)
  }

  /** A map of pages without those from lo up to hi. */
  function CutRange(pt: map<nat, Leaf>, lo: nat, hi: nat): map<nat, Leaf> {
    map u | u in pt && !(lo <= u < hi) :: pt[u]
  }

  lemma CutStep(pt: map<nat, Leaf>, lo: nat, hi: nat)
    requires lo <= hi
    ensures hi in pt ==> CutRange(pt, lo, hi + 1) == CutRange(pt, lo, hi) - {hi}
    ensures hi !in pt ==> CutRange(pt, lo, hi + 1) == CutRange(pt, lo, hi)
    ensures CutRange(pt, lo, lo) == pt
  {
  }

  /** A page added at the end of a range is cut with the range. */
  lemma CutAdd(pt: map<nat, Leaf>, lo: nat, hi: nat, leaf: Leaf)
    requires lo <= hi && hi !in pt
    ensures CutRange(pt[hi := leaf], lo, hi + 1) == CutRange(pt, lo, hi)
  {
  }

  /** Only pages lo up to hi of process a look different, and they read as zeros. */
  ghost predicate ZeroedOnly(s: State, s': State, a: nat, lo: nat, hi: nat) {
    && (forall b: nat, u: nat :: !(b == a && lo <= u < hi) ==> View(s', b, u) == View(s, b, u))
    && (forall u: nat :: lo <= u < hi ==> View(s', a, u) == ZeroPage())
  }

  lemma ZeroedStep(s: State, s1: State, s2: State, a: nat, lo: nat, hi: nat)
    requires lo <= hi && ZeroedOnly(s, s1, a, lo, hi)
    requires SameViewBut(s1, s2, a, hi) && View(s2, a, hi) == ZeroPage()
    ensures ZeroedOnly(s, s2, a, lo, hi + 1)
  {
    hide View, ZeroPage;
  }

  lemma SameViewTrans(s: State, s1: State, s2: State)
    requires SameView(s, s1) && SameView(s1, s2)
    ensures SameView(s, s2)
  {
    hide View;
  }

  lemma SameViewStep(s: State, s1: State, s2: State, a: nat, v: nat)
    requires SameView(s, s1) && SameViewBut(s1, s2, a, v) && View(s2, a, v) == View(s1, a, v)
    ensures SameView(s, s2)
  {
    hide View;
    forall b: nat, u: nat ensures View(s2, b, u) == View(s, b, u) {
      assert View(s1, b, u) == View(s, b, u);
    }
  }

  /** Zeroed pages that come and go again were never seen. */
  lemma RolledBack(s: State, s1: State, s2: State, a: nat, lo: nat, hi: nat)
    requires SameView(s, s1) && ZeroedOnly(s1, s2, a, lo, hi)
    requires a in s.spaces && Below(s, a, lo)
    ensures SameView(s, s2)
  {
    forall u: nat | lo <= u < hi ensures View(s, a, u) == ZeroPage() {
      AbsentIsZero(s, a, u);
    }
    hide View, ZeroPage;
    forall b: nat, u: nat ensures View(s2, b, u) == View(s, b, u) {
      assert View(s1, b, u) == View(s, b, u);
    }
  }

  /** A page that is not mapped reads as zeros. */
  lemma AbsentIsZero(s: State, a: nat, v: nat)
    requires a in s.spaces && v !in s.spaces[a].pt
    ensures View(s, a, v) == ZeroPage()
  {
  }

  /** Setting the size of a process to cover its pages. */
  lemma Resized(s: State, a: nat, size: nat)
    requires Core(s) && a in s.spaces && Below(s, a, PagesIn(size))
    requires forall b :: b in s.spaces && b != a ==> Below(s, b, PagesIn(s.spaces[b].size))
    ensures Inv(WithSpace(s, a, Space(s.spaces[a].pt, size)))
    ensures SameView(s, WithSpace(s, a, Space(s.spaces[a].pt, size)))
  {
    hide Once, Exclusive, Counted;
    var s' := WithSpace(s, a, Space(s.spaces[a].pt, size));
    forall b: nat, u: nat, g: nat ensures MapsTo(s', b, u, g) <==> MapsTo(s, b, u, g) {
    }
    forall b, u | b in s'.spaces && u in s'.spaces[b].pt ensures PageOk(s', b, u) {
      assert PageOk(s, b, u);
    }
    FewerMappings(s, s');
    SameCounts(s, s');
  }

  /** One more page, below the size of its process, keeps the bounds. */
  lemma StillBelow(s: State, s': State, a: nat, v: nat)
    requires Inv(s) && Core(s') && a in s.spaces && a in s'.spaces && v in s'.spaces[a].pt
    requires v < PagesIn(s.spaces[a].size)
    requires s'.spaces == s.spaces[a := Space(s.spaces[a].pt[v := s'.spaces[a].pt[v]], s.spaces[a].size)]
    ensures Inv(s')
  {
    hide Core;
    forall b | b in s'.spaces ensures Below(s', b, PagesIn(s'.spaces[b].size)) {
      assert Below(s, b, PagesIn(s.spaces[b].size));
    }
  }

  lemma SpacesKeepInv(s: State, s': State)
    requires Inv(s) && Core(s') && s'.spaces == s.spaces
    ensures Inv(s')
  {
    hide Core;
    forall b | b in s'.spaces ensures Below(s', b, PagesIn(s'.spaces[b].size)) {
      assert Below(s, b, PagesIn(s.spaces[b].size));
    }
  }

  lemma PageOfMapped(s: State, a: nat, v: nat)
    requires Core(s) && a in s.spaces && v in s.spaces[a].pt
    ensures s.spaces[a].pt[v].frame < |s.mem| && View(s, a, v) == s.mem[s.spaces[a].pt[v].frame]
    ensures v < TRAP && PermOk(s.spaces[a].pt[v].perm)
  {
    assert PageOk(s, a, v);
  }

  /** Replacing a shared frame by a copy is dropping the page and mapping a fresh one. */
  lemma CopyIsDropAndMap(s: State, a: nat, v: nat, f: nat, perm: Perm)
    requires Core(s) && a in s.spaces && v in s.spaces[a].pt && f in s.free
    ensures
      var g := s.spaces[a].pt[v].frame;
      && f < |s.refs| && f < |s.mem| && g < |s.refs| && g < |s.mem|
      && f in DropPage(s, a, v).free
      && Dealloc(PutLeaf(WithPage(Alloc(s, f), f, s.mem[g]), a, v, Leaf(f, perm)), g)
         == MapFresh(DropPage(s, a, v), a, v, f, s.mem[g], perm)
  {
    hide Core, MapsTo, Mappings;
    MappedFrame(s, a, v);
    Unmapped(s, f);
    var g := s.spaces[a].pt[v].frame;
    var x := Dealloc(PutLeaf(WithPage(Alloc(s, f), f, s.mem[g]), a, v, Leaf(f, perm)), g);
    var y := MapFresh(DropPage(s, a, v), a, v, f, s.mem[g], perm);
    assert x.refs == y.refs;
    assert x.free == y.free;
    assert x.mem == y.mem;
    assert x.spaces[a].pt == y.spaces[a].pt;
    assert x.spaces == y.spaces;
  }

  lemma CopySeen(s: State, s1: State, s2: State, a: nat, v: nat)
    requires SameViewBut(s, s1, a, v) && SameViewBut(s1, s2, a, v) && View(s2, a, v) == View(s, a, v)
    ensures SameView(s, s2)
  {
    hide View;
    forall b: nat, u: nat ensures View(s2, b, u) == View(s, b, u) {
      if (b, u) != (a, v) {
        assert View(s1, b, u) == View(s, b, u);
      }
    }
  }

  // ---------- What fork's copy does to the entries ----------

  /** A writable entry becomes a copy-on-write entry; others stay. */
  function Protect(leaf: Leaf): Leaf {
    if leaf.perm.w then Leaf(leaf.frame, Perm(leaf.perm.r, false, leaf.perm.x, leaf.perm.u, true)) else leaf
  }

  function ProtectBelow(pt: map<nat, Leaf>, n: nat): map<nat, Leaf> {
    map u | u in pt :: if u < n then Protect(pt[u]) else pt[u]
  }

  function CopyBelow(pt: map<nat, Leaf>, n: nat): map<nat, Leaf> {
    map u | u in pt && u < n :: Protect(pt[u])
  }

  lemma CopyStep(pt: map<nat, Leaf>, n: nat)
    ensures n in pt ==> ProtectBelow(pt, n + 1) == ProtectBelow(pt, n)[n := Protect(pt[n])]
    ensures n in pt ==> CopyBelow(pt, n + 1) == CopyBelow(pt, n)[n := Protect(pt[n])]
    ensures n !in pt ==> ProtectBelow(pt, n + 1) == ProtectBelow(pt, n) && CopyBelow(pt, n + 1) == CopyBelow(pt, n)
    ensures n in pt ==> n in ProtectBelow(pt, n) && ProtectBelow(pt, n)[n] == pt[n]
    ensures (n in ProtectBelow(pt, n) <==> n in pt) && n !in CopyBelow(pt, n)
    ensures ProtectBelow(pt, 0) == pt && CopyBelow(pt, 0) == map[]
    ensures CutRange(CopyBelow(pt, n), 0, n) == map[]
  {
  }

  /** The child sees the first n pages of what the parent saw; for the others nothing has changed. */
  ghost predicate ViewCopied(s: State, s': State, a: nat, b: nat, n: nat) {
    && (forall c: nat, u: nat :: c != b ==> View(s', c, u) == View(s, c, u))
    && (forall u: nat :: u < n ==> View(s', b, u) == View(s, a, u))
    && (forall u: nat :: u >= n ==> View(s', b, u) == ZeroPage())
  }

  lemma ViewCopiedStart(s: State, a: nat, b: nat)
    requires forall u: nat :: View(s, b, u) == ZeroPage()
    ensures ViewCopied(s, s, a, b, 0)
  {
  }

  lemma SameViewButRefl(s: State, b: nat, v: nat)
    ensures SameViewBut(s, s, b, v)
  {
  }

  lemma ViewCopiedStep(s: State, s1: State, s2: State, a: nat, b: nat, n: nat)
    requires a != b && ViewCopied(s, s1, a, b, n)
    requires SameViewBut(s1, s2, b, n) && View(s2, b, n) == View(s1, a, n)
    ensures ViewCopied(s, s2, a, b, n + 1)
  {
    hide View, ZeroPage;
    forall c: nat, u: nat | c != b ensures View(s2, c, u) == View(s, c, u) {
      assert View(s1, c, u) == View(s, c, u);
    }
    forall u: nat | u < n ensures View(s2, b, u) == View(s, a, u) {
      assert View(s1, b, u) == View(s, a, u);
    }
    forall u: nat | u >= n + 1 ensures View(s2, b, u) == ZeroPage() {
      assert View(s1, b, u) == ZeroPage();
    }
  }

  /** The child cannot map the frame already: the parent would map it twice. */
  lemma NotYetShared(s: State, a: nat, b: nat, pt: map<nat, Leaf>, v: nat)
    requires Core(s) && a in s.spaces && b in s.spaces && v in pt
    requires s.spaces[a].pt == ProtectBelow(pt, v) && s.spaces[b].pt == CopyBelow(pt, v)
    ensures forall u: nat :: !MapsTo(s, b, u, pt[v].frame)
  {
    forall u: nat ensures !MapsTo(s, b, u, pt[v].frame) {
      if u in s.spaces[b].pt && s.spaces[b].pt[u].frame == pt[v].frame {
        assert MapsTo(s, a, u, pt[v].frame);
        assert MapsTo(s, a, v, pt[v].frame);
        assert false;
      }
    }
  }

  /** Two maps as large as each other: the new process's map and the parent's. */
  function WithPair(spaces: map<nat, Space>, a: nat, pa: map<nat, Leaf>, b: nat, pb: map<nat, Leaf>): map<nat, Space>
    requires a in spaces && b in spaces
  {
    spaces[a := Space(pa, spaces[a].size)][b := Space(pb, spaces[b].size)]
  }

  lemma PairSame(spaces: map<nat, Space>, a: nat, b: nat)
    requires a in spaces && b in spaces && spaces[b].pt == map[]
    ensures WithPair(spaces, a, spaces[a].pt, b, map[]) == spaces
  {
  }

  /** The first v pages of process a have been shared with process b. */
  ghost predicate Copying(s0: State, s: State, a: nat, b: nat, v: nat)
    requires a in s0.spaces && b in s0.spaces
  {
    && Core(s) && ViewCopied(s0, s, a, b, v)
    && s.spaces == WithPair(s0.spaces, a, ProtectBelow(s0.spaces[a].pt, v), b, CopyBelow(s0.spaces[a].pt, v))
  }

  lemma EmptyIsZero(s: State, b: nat)
    requires b in s.spaces && s.spaces[b].pt == map[]
    ensures forall u: nat :: View(s, b, u) == ZeroPage()
  {
  }

  /** Pages shared with a child and dropped from it again: as if it had never been. */
  lemma CopyUndone(s: State, s1: State, s2: State, s3: State, a: nat, b: nat, n: nat)
    requires ViewCopied(s, s1, a, b, n) && SameView(s1, s2) && ZeroedOnly(s2, s3, b, 0, n)
    requires forall u: nat :: View(s, b, u) == ZeroPage()
    ensures SameView(s, s3)
  {
    hide View, ZeroPage;
    forall c: nat, u: nat ensures View(s3, c, u) == View(s, c, u) {
      assert View(s2, c, u) == View(s1, c, u);
      if c != b {
        assert View(s1, c, u) == View(s, c, u);
      }
    }
  }

  /** A process without pages can appear or disappear. */
  lemma SameEntries(s: State, s': State)
    requires Core(s) && Sane(s')
    requires s'.refs == s.refs && s'.free == s.free && s'.kernel == s.kernel && s'.mem == s.mem
    requires forall b: nat, u: nat, g: nat :: MapsTo(s', b, u, g) <==> MapsTo(s, b, u, g)
    requires forall b: nat, u: nat :: u in Entries(s', b) ==> u in Entries(s, b) && Entries(s', b)[u] == Entries(s, b)[u]
    ensures Core(s')
  {
    hide Once, Exclusive, Counted, MapsTo;
    forall b, u | b in s'.spaces && u in s'.spaces[b].pt ensures PageOk(s', b, u) {
      assert u in Entries(s, b) && Entries(s', b)[u] == Entries(s, b)[u];
      assert PageOk(s, b, u);
    }
    forall b: nat, u: nat | Writable(s', b, u) ensures Writable(s, b, u) {
      assert u in Entries(s', b);
    }
    FewerMappings(s, s');
    SameCounts(s, s');
  }

  function Entries(s: State, a: nat): map<nat, Leaf> {
    if a in s.spaces then s.spaces[a].pt else map[]
  }

  lemma AddSpace(s: State, b: nat)
    requires Core(s) && b !in s.spaces && b < NPROC
    ensures Core(WithSpace(s, b, Space(map[], 0)))
    ensures SameView(s, WithSpace(s, b, Space(map[], 0)))
  {
    hide PagesOk, Once, Exclusive, Counted;
    SameEntries(s, WithSpace(s, b, Space(map[], 0)));
  }

  lemma RemoveSpace(s: State, b: nat)
    requires Core(s) && b in s.spaces && s.spaces[b].pt == map[]
    ensures Core(State(s.spaces - {b}, s.mem, s.refs, s.free, s.kernel))
    ensures SameView(s, State(s.spaces - {b}, s.mem, s.refs, s.free, s.kernel))
  {
    hide PagesOk, Once, Exclusive, Counted;
    SameEntries(s, State(s.spaces - {b}, s.mem, s.refs, s.free, s.kernel));
  }

  /** Beyond its last page a process sees zeros. */
  lemma BeyondIsZero(s: State, a: nat, n: nat)
    requires Below(s, a, n)
    ensures forall u: nat :: u >= n ==> View(s, a, u) == ZeroPage()
  {
  }

  lemma ZeroedAll(s: State, s1: State, s2: State, a: nat, n: nat)
    requires ZeroedOnly(s, s1, a, 0, n) && SameView(s1, s2) && Below(s, a, n)
    ensures forall b: nat, u: nat :: View(s2, b, u) == if b == a then ZeroPage() else View(s, b, u)
  {
    hide View, ZeroPage;
    BeyondIsZero(s, a, n);
    forall b: nat, u: nat ensures View(s2, b, u) == if b == a then ZeroPage() else View(s, b, u) {
      assert View(s2, b, u) == View(s1, b, u);
    }
  }

  lemma BelowEmpty(s: State, b: nat, n: nat)
    requires b in s.spaces ==> s.spaces[b].pt == map[]
    ensures Below(s, b, n)
  {
  }

  /** A process without pages is within any bound. */
  lemma OthersBelow(s: State, s': State, a: nat)
    requires Inv(s) && Core(s') && a !in s.spaces && s'.spaces == s.spaces[a := Space(map[], 0)]
    ensures Inv(s')
  {
    hide Core;
    forall b | b in s'.spaces ensures Below(s', b, PagesIn(s'.spaces[b].size)) {
      if b != a {
        assert Below(s, b, PagesIn(s.spaces[b].size));
      }
    }
  }

  /** A fork that fails leaves every bound and every view as it was. */
  lemma ForkUndone(s: State, s1: State, s2: State, s3: State, a: nat, b: nat, n: nat)
    requires Inv(s) && a in s.spaces && b !in s.spaces && s1.spaces == s.spaces[b := Space(map[], 0)]
    requires s2.spaces == WithPair(s1.spaces, a, ProtectBelow(s1.spaces[a].pt, n), b, map[])
    requires Core(s3) && s3.spaces == s2.spaces - {b}
    requires SameView(s, s1) && SameView(s1, s2)
    requires forall c: nat, u: nat :: View(s3, c, u) == if c == b then ZeroPage() else View(s2, c, u)
    ensures Inv(s3) && s3.spaces.Keys == s.spaces.Keys && SameView(s, s3)
  {
    hide Core, View, ZeroPage;
    forall c | c in s3.spaces ensures Below(s3, c, PagesIn(s3.spaces[c].size)) {
      assert Below(s, c, PagesIn(s.spaces[c].size));
    }
    BelowEmpty(s, b, 0);
    BeyondIsZero(s, b, 0);
    forall c: nat, u: nat ensures View(s3, c, u) == View(s, c, u) {
      assert View(s2, c, u) == View(s1, c, u);
      assert View(s1, c, u) == View(s, c, u);
    }
  }

  /** A fork that succeeds: the child, given its size, is within bounds and sees what the parent sees. */
  lemma ForkDone(s: State, s1: State, s2: State, a: nat, b: nat, size: nat)
    requires Inv(s) && a in s.spaces && b !in s.spaces && s1.spaces == s.spaces[b := Space(map[], 0)]
    requires size == s.spaces[a].size && SameView(s, s1)
    requires s2.spaces == WithPair(s1.spaces, a, ProtectBelow(s1.spaces[a].pt, PagesIn(size)), b,
                                   CopyBelow(s1.spaces[a].pt, PagesIn(size)))
    requires Core(s2) && ViewCopied(s1, s2, a, b, PagesIn(size))
    ensures
      var s3 := WithSpace(s2, b, Space(s2.spaces[b].pt, size));
      && Inv(s3) && s3.spaces.Keys == s.spaces.Keys + {b}
      && (forall u: nat :: View(s3, b, u) == View(s, a, u))
      && (forall c: nat, u: nat :: c != b ==> View(s3, c, u) == View(s, c, u))
      && (forall u: nat :: !Writable(s3, b, u))
  {
    hide Core, View, ZeroPage;
    var s3 := WithSpace(s2, b, Space(s2.spaces[b].pt, size));
    assert Below(s, a, PagesIn(size));
    forall c | c in s2.spaces && c != b ensures Below(s2, c, PagesIn(s2.spaces[c].size)) {
      assert Below(s, c, PagesIn(s.spaces[c].size));
    }
    Resized(s2, b, size);
    BeyondIsZero(s, a, PagesIn(size));
    forall c: nat, u: nat ensures View(s3, c, u) == View(s, if c == b then a else c, u) {
      assert View(s3, c, u) == View(s2, c, u);
      assert View(s1, a, u) == View(s, a, u) && View(s1, c, u) == View(s, c, u);
    }
  }

  // ---------- Bytes ----------

  /** The byte process a sees at an address. */
  function ByteAt(s: State, a: nat, addr: nat): bv8 {
    View(s, a, addr / PGSIZE)[addr % PGSIZE]
  }

  function Splice(page: Page, off: nat, bytes: seq<bv8>): Page
    requires off + |bytes| <= PGSIZE
  {
    page[..off] + bytes + page[off + |bytes|..]
  }

  /** From s to s', process a sees data written at dst; nobody else sees any change. */
  ghost predicate Written(s: State, s': State, a: nat, dst: nat, data: seq<bv8>) {
    && (forall addr: nat :: dst <= addr < dst + |data| ==> ByteAt(s', a, addr) == data[addr - dst])
    && (forall addr: nat :: !(dst <= addr < dst + |data|) ==> ByteAt(s', a, addr) == ByteAt(s, a, addr))
    && (forall b: nat, u: nat :: b != a ==> View(s', b, u) == View(s, b, u))
  }

  lemma WrittenUnseen(s: State, s1: State, s2: State, a: nat, dst: nat, data: seq<bv8>)
    requires Written(s, s1, a, dst, data) && SameView(s1, s2)
    ensures Written(s, s2, a, dst, data)
  {
    hide View;
    forall addr: nat ensures ByteAt(s2, a, addr) == ByteAt(s1, a, addr) {
    }
  }

  lemma WrittenStep(s: State, s1: State, s2: State, a: nat, dst: nat, data: seq<bv8>, chunk: seq<bv8>)
    requires Written(s, s1, a, dst, data)
    requires
      var v, off := (dst + |data|) / PGSIZE, (dst + |data|) % PGSIZE;
      off + |chunk| <= PGSIZE && SameViewBut(s1, s2, a, v)
      && View(s2, a, v) == Splice(View(s1, a, v), off, chunk)
    ensures Written(s, s2, a, dst, data + chunk)
  {
    hide View;
    var at := dst + |data|;
    forall addr: nat
      ensures ByteAt(s2, a, addr) == if at <= addr < at + |chunk| then chunk[addr - at] else ByteAt(s1, a, addr)
    {
      if addr / PGSIZE == at / PGSIZE {
        assert addr - at == addr % PGSIZE - at % PGSIZE;
      } else {
        assert View(s2, a, addr / PGSIZE) == View(s1, a, addr / PGSIZE);
      }
    }
    forall addr: nat | dst <= addr < dst + |data + chunk| ensures ByteAt(s2, a, addr) == (data + chunk)[addr - dst] {
    }
  }

  lemma ByteOfPage(s: State, a: nat, addr: nat, k: nat)
    requires addr % PGSIZE + k < PGSIZE
    ensures ByteAt(s, a, addr + k) == View(s, a, addr / PGSIZE)[addr % PGSIZE + k]
  {
    assert (addr + k) / PGSIZE == addr / PGSIZE && (addr + k) % PGSIZE == addr % PGSIZE + k;
  }

  lemma SameByte(s: State, s': State, a: nat, addr: nat)
    requires SameView(s, s')
    ensures ByteAt(s', a, addr) == ByteAt(s, a, addr)
  {
    hide View;
    assert View(s', a, addr / PGSIZE) == View(s, a, addr / PGSIZE);
  }

  lemma SameViewRefl(s: State)
    ensures SameView(s, s)
  {
  }

  lemma WrittenNothing(s: State, a: nat, dst: nat)
    ensures Written(s, s, a, dst, [])
  {
  }

  // ---------- When an access is refused ----------

  /** A fault at va is an error: beyond the size, on a page that is there and not copy-on-write, or too high. */
  predicate NoFault(s: State, a: nat, va: nat)
    requires a in s.spaces
  {
    var v, space := va / PGSIZE, s.spaces[a];
    va >= space.size || v >= TRAP || (v in space.pt && !space.pt[v].perm.cow)
  }

  predicate UserPage(s: State, a: nat, v: nat) {
    a in s.spaces && v in s.spaces[a].pt && s.spaces[a].pt[v].perm.u
  }

  /** The kernel cannot get at the page of va for the user: not a user page, and a fault would not help. */
  predicate NoAccess(s: State, a: nat, va: nat) {
    && a in s.spaces
    && var page := va / PGSIZE * PGSIZE;
    && NoFault(s, a, page)
    && !UserPage(s, a, page / PGSIZE)
  }

  /** The kernel may not write at va: no access, or a user page that is not writable. */
  predicate Refuses(s: State, a: nat, va: nat) {
    && a in s.spaces
    && (|| va / PGSIZE * PGSIZE > MAXVA
        || NoAccess(s, a, va)
        || (UserPage(s, a, va / PGSIZE) && !s.spaces[a].pt[va / PGSIZE].perm.w))
  }

  /** Process a has the same size, and from page v on the same entries. */
  ghost predicate SameFrom(s: State, s': State, a: nat, v: nat) {
    && a in s.spaces && a in s'.spaces && s'.spaces[a].size == s.spaces[a].size
    && forall u: nat :: u >= v ==> EntryOf(s', a, u) == EntryOf(s, a, u)
  }

  function EntryOf(s: State, a: nat, u: nat): set<Leaf> {
    if u in Entries(s, a) then {Entries(s, a)[u]} else {}
  }

  lemma SameFromRefl(s: State, a: nat, v: nat)
    requires a in s.spaces
    ensures SameFrom(s, s, a, v)
  {
  }

  /** An access within page v changes the entry of that page alone. */
  lemma SameFromNext(s: State, s1: State, s2: State, a: nat, v: nat)
    requires SameFrom(s, s1, a, v) && SameFrom(s1, s2, a, v + 1)
    ensures SameFrom(s, s2, a, v + 1)
  {
    hide EntryOf;
    forall u: nat | u >= v + 1 ensures EntryOf(s2, a, u) == EntryOf(s, a, u) {
      assert EntryOf(s1, a, u) == EntryOf(s, a, u);
    }
  }

  /** Whether an access is refused depends on the size and on the entry of its page. */
  lemma SameRefusal(s: State, s': State, a: nat, v: nat, va: nat)
    requires SameFrom(s, s', a, v) && v <= va / PGSIZE
    ensures NoAccess(s', a, va) <==> NoAccess(s, a, va)
    ensures Refuses(s', a, va) <==> Refuses(s, a, va)
  {
    assert EntryOf(s', a, va / PGSIZE) == EntryOf(s, a, va / PGSIZE);
  }

  lemma SamePageRefusal(s: State, a: nat, va: nat, va': nat)
    requires va / PGSIZE == va' / PGSIZE
    ensures NoAccess(s, a, va) <==> NoAccess(s, a, va')
    ensures Refuses(s, a, va) <==> Refuses(s, a, va')
  {
  }

  lemma SameSpaces(s: State, s1: State, s2: State, a: nat, v: nat)
    requires SameFrom(s, s1, a, v) && s2.spaces == s1.spaces
    ensures SameFrom(s, s2, a, v)
  {
    forall u: nat | u >= v ensures EntryOf(s2, a, u) == EntryOf(s, a, u) {
      assert EntryOf(s1, a, u) == EntryOf(s, a, u);
    }
  }

  lemma OneEntry(s: State, s': State, a: nat, v: nat)
    requires a in s.spaces && a in s'.spaces && s'.spaces[a].size == s.spaces[a].size
    requires s'.spaces == s.spaces || (v in s'.spaces[a].pt && s'.spaces[a].pt == s.spaces[a].pt[v := s'.spaces[a].pt[v]])
    ensures SameFrom(s, s', a, v + 1)
  {
  }

  class Vm {
    var spaces: map<nat, Space>
    var mem: seq<Page>
    var refs: seq<nat>
    var free: set<nat>
    const kernel: set<nat>
    var refusals: nat            // how often the allocator had no memory to give

    ghost function S(): State reads this {
      State(spaces, mem, refs, free, kernel)
    }

    /** No process yet, and every frame outside the kernel free. */
    constructor (frames: nat, kernel: set<nat>)
      ensures Inv(S()) && spaces == map[] && this.kernel == kernel && refusals == 0
    {
      this.kernel := kernel;
      spaces, refusals := map[], 0;
      mem := seq(frames, i => ZeroPage());
      refs := seq(frames, i => 0);
      free := set f | 0 <= f < frames && f !in kernel;
      new;
      forall f | 0 <= f < |refs| && f !in kernel ensures CountOk(S(), f) {
        assert Mappings(S(), f) == {};
      }
    }

    // ---------- The frame allocator ----------

    method KAlloc() returns (f: nat, ok: bool)
      requires Core(S())
      modifies this
      ensures !ok ==> S() == old(S()) && refusals == old(refusals) + 1
      ensures ok ==> f in old(free) && f < |old(refs)| && f < |old(mem)| && S() == Alloc(old(S()), f)
      ensures ok ==> refusals == old(refusals)
    {
      hide PagesOk, Once, Exclusive, Counted;
      f, ok := 0, false;
      if free != {} {
        if * {
          f :| f in free;
          ok := true;
          mem := mem[f := ZeroPage()];
          refs := refs[f := 1];
          free := free - {f};
          return;
        }
      }
      refusals := refusals + 1;
    }

    method KDealloc(f: nat)
      requires f < |refs|
      modifies this`refs, this`free
      ensures S() == Dealloc(old(S()), f)
    {
      var before := refs[f];
      refs := refs[f := (before + 255) % 256];
      if before == 1 {
        free := free + {f};
      }
    }

    method KIncrement(f: nat)
      requires f < |refs|
      modifies this`refs
      ensures S() == IncrementRef(old(S()), f)
    {
      refs := refs[f := (refs[f] + 1) % 256];
    }

    // ---------- Entries of one process ----------

    /** Maps one page, as the page table does: it may lack memory for tables, and never maps twice. */
    method MapPage(a: nat, v: nat, leaf: Leaf) returns (r: MapResult)
      requires a in spaces
      modifies this`spaces, this`refusals
      ensures r.Mapped? ==> v < TRAP && v !in old(spaces)[a].pt && S() == PutLeaf(old(S()), a, v, leaf)
      ensures r.Remap? ==> v in old(spaces)[a].pt || v == TRAP || v == TRAP + 1
      ensures !r.Mapped? ==> spaces == old(spaces)
      ensures refusals >= old(refusals) && (r.MapFailed? ==> v >= MAXPAGE || refusals > old(refusals))
    {
      if v >= MAXPAGE {
        return MapFailed;
      }
      if v in spaces[a].pt || v >= TRAP {
        return Remap;
      }
      if * {
        refusals := refusals + 1;      // for the tables on the way
        return MapFailed;
      }
      spaces := spaces[a := Space(spaces[a].pt[v := leaf], spaces[a].size)];
      r := Mapped;
    }

    /**
      Unmaps and releases the mapped pages from lo up to hi. With the fixed pages still in the table
      it loses those in the range too.
    */
    method UnmapPages(a: nat, lo: nat, hi: nat, fixed: bool) returns (lost: bool)
      requires Core(S()) && a in spaces && lo <= hi
      modifies this
      ensures Core(S())
      ensures spaces == old(spaces)[a := Space(CutRange(old(spaces)[a].pt, lo, hi), old(spaces)[a].size)]
      ensures ZeroedOnly(old(S()), S(), a, lo, hi) && refusals == old(refusals)
      ensures lost <==> fixed && HoldsFixed(lo, hi)
    {
      hide Core, View;
      ghost var pt := spaces[a].pt;
      CutStep(pt, lo, lo);
      lost := false;
      var v := lo;
      while v < hi
        invariant lo <= v <= hi
        invariant Core(S()) && a in spaces && (lost <==> fixed && HoldsFixed(lo, v))
        invariant spaces == old(spaces)[a := Space(CutRange(pt, lo, v), old(spaces)[a].size)]
        invariant ZeroedOnly(old(S()), S(), a, lo, v) && refusals == old(refusals)
      {
        CutStep(pt, lo, v);
        ghost var s := S();
        if v in spaces[a].pt {
          PageOfMapped(S(), a, v);
          DropKeeps(S(), a, v);
          KDealloc(spaces[a].pt[v].frame);
          spaces := spaces[a := Space(spaces[a].pt - {v}, spaces[a].size)];
          assert S() == DropPage(s, a, v);
        } else {
          AbsentIsZero(S(), a, v);
          lost := lost || (fixed && (v == TRAP || v == TRAP + 1));
        }
        ZeroedStep(old(S()), s, S(), a, lo, v);
        v := v + 1;
      }
    }

    /** Takes a zeroed frame and maps it at page v. Without memory nothing happens. */
    method MapZeroed(a: nat, v: nat, perm: Perm) returns (r: MapResult, f: nat)
      requires Core(S()) && a in spaces && PermOk(perm)
      modifies this
      ensures r.Remap? ==> v in old(spaces)[a].pt || v == TRAP || v == TRAP + 1
      ensures !r.Remap? ==> Core(S()) && SameView(old(S()), S())
      ensures r.MapFailed? ==> spaces == old(spaces) && (v >= MAXPAGE || refusals > old(refusals))
      ensures refusals >= old(refusals)
      ensures r.Mapped? ==> v < TRAP && v !in old(spaces)[a].pt && f !in kernel
      ensures r.Mapped? ==> spaces == old(spaces)[a := Space(old(spaces)[a].pt[v := Leaf(f, perm)], old(spaces)[a].size)]
    {
      hide Core, View;
      ghost var s := S();
      var ok;
      f, ok := KAlloc();
      if !ok {
        return MapFailed, f;
      }
      r := MapPage(a, v, Leaf(f, perm));
      if r.Mapped? {
        assert S() == MapFresh(s, a, v, f, ZeroPage(), perm);
        MapFreshKeeps(s, a, v, f, ZeroPage(), perm);
        AbsentIsZero(s, a, v);
        SameViewStep(s, s, S(), a, v);
        Unmapped(s, f);
      } else if r.MapFailed? {
        KDealloc(f);
        TakeAndReturn(s, f);
      }
    }

    /** A new process without user memory, unless there is no memory for its table. */
    method NewProc(a: nat) returns (ok: bool)
      requires Inv(S()) && a !in spaces && a < NPROC
      modifies this
      ensures Inv(S()) && SameView(old(S()), S())
      ensures ok ==> spaces == old(spaces)[a := Space(map[], 0)] && refusals == old(refusals)
      ensures !ok ==> spaces == old(spaces) && refusals > old(refusals)
    {
      hide Core, View;
      if * {
        refusals := refusals + 1;
        return false;
      }
      AddSpace(S(), a);
      spaces := spaces[a := Space(map[], 0)];
      BelowEmpty(S(), a, 0);
      OthersBelow(old(S()), S(), a);
      ok := true;
    }

    // ---------- Growing and shrinking ----------

    /** Shrinks from oldSize to newSize: whole pages beyond newSize go. */
    method DeallocPages(a: nat, oldSize: nat, newSize: nat) returns (size: nat, lost: bool)
      requires Core(S()) && a in spaces
      modifies this
      ensures Core(S())
      ensures size == if newSize >= oldSize then oldSize else newSize
      ensures spaces == old(spaces)[a := Space(CutRange(old(spaces)[a].pt, PagesIn(size), PagesIn(oldSize)), old(spaces)[a].size)]
      ensures ZeroedOnly(old(S()), S(), a, PagesIn(size), PagesIn(oldSize)) && refusals == old(refusals)
      ensures lost <==> HoldsFixed(PagesIn(size), PagesIn(oldSize))
    {
      hide Core, View;
      if newSize >= oldSize {
        CutStep(spaces[a].pt, PagesIn(oldSize), PagesIn(oldSize));
        return oldSize, false;
      }
      lost := UnmapPages(a, PagesIn(newSize), PagesIn(oldSize), true);
      size := newSize;
    }

    /**
      Grows from oldSize to newSize with zeroed pages. Either every page is there, or none of the
      new ones; nobody sees a difference. Unless an allocation is refused, it panics exactly when the
      new pages hold a fixed one.
    */
    method AllocPages(a: nat, oldSize: nat, newSize: nat, w: bool, x: bool) returns (r: VmResult<nat>)
      requires Core(S()) && a in spaces && Below(S(), a, PagesIn(oldSize))
      modifies this
      ensures r.Panic? ==> newSize >= oldSize && HoldsFixed(PagesIn(oldSize), PagesIn(newSize))
      ensures newSize >= oldSize && HoldsFixed(PagesIn(oldSize), PagesIn(newSize)) && !r.Panic? ==> refusals > old(refusals)
      ensures !r.FixedPageLost? && refusals >= old(refusals)
      ensures !r.Panic? ==> Core(S()) && SameView(old(S()), S())
      ensures r.Err? ==> spaces == old(spaces) && (newSize > MAXVA || refusals > old(refusals))
      ensures r.Ok? ==> r.value == (if newSize < oldSize then oldSize else newSize)
      ensures r.Ok? ==> a in spaces && spaces == old(spaces)[a := Space(spaces[a].pt, old(spaces)[a].size)]
      ensures r.Ok? ==> forall u :: u in spaces[a].pt <==> u in old(spaces)[a].pt || PagesIn(oldSize) <= u < PagesIn(newSize)
    {
      hide Core, View, SameView, ZeroedOnly, CutRange;
      SameViewRefl(S());
      if newSize < oldSize {
        return Ok(oldSize);
      }
      var first := PagesIn(oldSize);
      ghost var pt := spaces[a].pt;
      CutStep(pt, first, first);
      var v := first;
      while v * PGSIZE < newSize
        invariant first <= v && (v == first || (v <= PagesIn(newSize) && v <= TRAP))
        invariant Core(S()) && SameView(old(S()), S()) && a in spaces
        invariant spaces == old(spaces)[a := Space(spaces[a].pt, old(spaces)[a].size)]
        invariant forall u :: u in spaces[a].pt <==> u in pt || first <= u < v
        invariant CutRange(spaces[a].pt, first, v) == pt && refusals >= old(refusals)
        decreases newSize - v * PGSIZE
      {
        ghost var s := S();
        ghost var now := spaces[a].pt;
        var m, f := MapZeroed(a, v, Perm(true, w, x, true, false));
        if m.Remap? {
          return Panic;
        }
        SameViewTrans(old(S()), s, S());
        if m.MapFailed? {
          ghost var s1 := S();
          var _, _ := DeallocPages(a, v * PGSIZE, first * PGSIZE);
          RolledBack(old(S()), s1, S(), a, first, v);
          return Err;
        }
        CutAdd(now, first, v, Leaf(f, Perm(true, w, x, true, false)));
        v := v + 1;
      }
      r := Ok(newSize);
    }

    /**
      Changes the size of process a by n bytes. Growing, lazily or not, is seen by nobody; shrinking
      zeroes the whole pages beyond the new size. On an error nothing changes.
    */
    method Grow(a: nat, n: int, lazy: bool) returns (r: VmResult<nat>)
      requires Inv(S()) && a in spaces
      modifies this
      ensures r.Panic? ==> n > 0 && !lazy && HoldsFixed(PagesIn(old(spaces)[a].size), PagesIn(old(spaces)[a].size + n))
      ensures n > 0 && !lazy && HoldsFixed(PagesIn(old(spaces)[a].size), PagesIn(old(spaces)[a].size + n)) && !r.Panic? ==>
                refusals > old(refusals)
      ensures r.FixedPageLost? <==>
                n < 0 <= old(spaces)[a].size + n && HoldsFixed(PagesIn(old(spaces)[a].size + n), PagesIn(old(spaces)[a].size))
      ensures r.Ok? || r.Err? ==> Inv(S())
      ensures r.Err? ==> spaces == old(spaces) && SameView(old(S()), S())
      ensures r.Err? ==> old(spaces)[a].size + n < 0 || old(spaces)[a].size + n > MAXVA || refusals > old(refusals)
      ensures refusals >= old(refusals) && (lazy && n >= 0 ==> r.Ok? && refusals == old(refusals))
      ensures r.Ok? ==> a in spaces && spaces[a].size == r.value == old(spaces)[a].size + n
      ensures r.Ok? ==> spaces == old(spaces)[a := spaces[a]]
      ensures r.Ok? && n >= 0 ==> SameView(old(S()), S())
      ensures r.Ok? && n < 0 ==> ZeroedOnly(old(S()), S(), a, PagesIn(r.value), PagesIn(old(spaces)[a].size))
      ensures n + old(spaces)[a].size < 0 ==> r.Err?
    {
      hide Core, View, ZeroPage;
      var size := spaces[a].size;
      var newSize := size;
      if n > 0 {
        if lazy {
          newSize := size + n;
        } else {
          var m := AllocPages(a, size, size + n, true, false);
          if !m.Ok? {
            return m;
          }
          newSize := m.value;
        }
      } else if n < 0 {
        if -n > size {
          return Err;
        }
        var lost;
        newSize, lost := DeallocPages(a, size, size + n);
        if lost {
          return FixedPageLost;
        }
      }
      ghost var s := S();
      spaces := spaces[a := Space(spaces[a].pt, newSize)];
      Resized(s, a, newSize);
      r := Ok(newSize);
    }

    // ---------- Faults ----------

    /**
      A page fault at va. Whatever it does, nobody's memory looks different. If it succeeds the
      page is there and writable; if not, no entry has changed.
    */
    method VmFault(a: nat, va: nat) returns (r: VmResult<nat>)
      requires Inv(S()) && a in spaces
      modifies this
      ensures Inv(S()) && SameView(old(S()), S()) && (r.Ok? || r.Err?)
      ensures r.Ok? ==> va < old(spaces)[a].size && va / PGSIZE < TRAP
      ensures r.Ok? ==> MapsTo(S(), a, va / PGSIZE, r.value) && Writable(S(), a, va / PGSIZE)
      ensures r.Ok? ==> spaces == old(spaces)[a := Space(old(spaces)[a].pt[va / PGSIZE := spaces[a].pt[va / PGSIZE]], old(spaces)[a].size)]
      ensures r.Err? ==> spaces == old(spaces) && (NoFault(old(S()), a, va) || refusals > old(refusals))
      ensures NoFault(old(S()), a, va) ==> r.Err?
      ensures refusals >= old(refusals)
    {
      hide Core, View;
      if va >= spaces[a].size {
        SpacesKeepInv(old(S()), S());
        return Err;
      }
      var v := va / PGSIZE;
      assert v < PagesIn(spaces[a].size);
      if v in spaces[a].pt {
        if !spaces[a].pt[v].perm.cow {
          return Err;
        }
        r := CopyOnWrite(a, v);
        if r.Ok? {
          PageOfMapped(old(S()), a, v);
          StillBelow(old(S()), S(), a, v);
        } else {
          SpacesKeepInv(old(S()), S());
        }
        return;
      }
      if v == TRAP || v == TRAP + 1 {
        return Err;         // a fixed page, present and not copy-on-write
      }
      var m, f := MapZeroed(a, v, Perm(true, true, false, true, false));
      if m.Mapped? {
        StillBelow(old(S()), S(), a, v);
        return Ok(f);
      }
      assert m.MapFailed?;
      SpacesKeepInv(old(S()), S());
      r := Err;
    }

    /** Case 3 of the fault: the process gets its own writable copy and gives up its share of the old frame. */
    method CopyOnWrite(a: nat, v: nat) returns (r: VmResult<nat>)
      requires Core(S()) && a in spaces && v in spaces[a].pt && spaces[a].pt[v].perm.cow
      modifies this
      ensures Core(S()) && SameView(old(S()), S()) && (r.Ok? || r.Err?)
      ensures r.Err? ==> spaces == old(spaces) && refusals > old(refusals)
      ensures refusals >= old(refusals)
      ensures r.Ok? ==> MapsTo(S(), a, v, r.value) && Writable(S(), a, v)
      ensures r.Ok? ==> spaces == old(spaces)[a := Space(old(spaces)[a].pt[v := spaces[a].pt[v]], old(spaces)[a].size)]
    {
      hide Core, View;
      ghost var s := S();
      var leaf := spaces[a].pt[v];
      MappedFrame(s, a, v);
      var f, ok := KAlloc();
      if !ok {
        return Err;
      }
      mem := mem[f := mem[leaf.frame]];
      var perm := Perm(leaf.perm.r, true, leaf.perm.x, leaf.perm.u, false);
      spaces := spaces[a := Space(spaces[a].pt[v := Leaf(f, perm)], spaces[a].size)];
      KDealloc(leaf.frame);
      DropKeeps(s, a, v);
      ghost var s1 := DropPage(s, a, v);
      ghost var page := mem[f];
      PageOfMapped(s, a, v);
      MapFreshKeeps(s1, a, v, f, page, perm);
      CopyIsDropAndMap(s, a, v, f, perm);
      assert S() == MapFresh(s1, a, v, f, page, perm);
      CopySeen(s, s1, S(), a, v);
      r := Ok(f);
    }

    // ---------- Fork ----------

    /** Shares one page with the child: write-protect it, map it, count the mapping. */
    method ShareOne(a: nat, b: nat, v: nat) returns (m: MapResult)
      requires Core(S()) && a in spaces && b in spaces && a != b && v in spaces[a].pt && v !in spaces[b].pt
      requires forall u: nat :: !MapsTo(S(), b, u, spaces[a].pt[v].frame)
      modifies this
      ensures Core(S()) && !m.Remap?
      ensures refusals >= old(refusals) && (m.MapFailed? ==> refusals > old(refusals))
      ensures spaces == WithPair(old(spaces), a, old(spaces)[a].pt[v := Protect(old(spaces)[a].pt[v])], b,
                if m.Mapped? then old(spaces)[b].pt[v := Protect(old(spaces)[a].pt[v])] else old(spaces)[b].pt)
      ensures m.MapFailed? ==> SameView(old(S()), S())
      ensures m.Mapped? ==> SameViewBut(old(S()), S(), b, v) && View(S(), b, v) == View(old(S()), a, v)
    {
      hide Core, View;
      var leaf := spaces[a].pt[v];
      PageOfMapped(S(), a, v);
      RepermKeeps(S(), a, v, Protect(leaf).perm);
      if leaf.perm.w {
        leaf := Leaf(leaf.frame, Perm(leaf.perm.r, false, leaf.perm.x, leaf.perm.u, true));
        spaces := spaces[a := Space(spaces[a].pt[v := leaf], spaces[a].size)];
      } else {
        assert spaces[a].pt[v := leaf] == spaces[a].pt;
        assert spaces[a := Space(spaces[a].pt, spaces[a].size)] == spaces;
      }
      ghost var s1 := S();
      assert s1 == PutLeaf(old(S()), a, v, Protect(old(spaces)[a].pt[v]));
      forall u: nat ensures !MapsTo(s1, b, u, leaf.frame) {
        assert !MapsTo(old(S()), b, u, leaf.frame);
      }
      ShareKeeps(s1, a, v, b);
      m := MapPage(b, v, leaf);
      if m.Mapped? {
        KIncrement(leaf.frame);
        assert S() == SharePage(s1, a, v, b);
      }
    }

    /** Copies one page, if the parent has it; if memory for tables runs out, drops those copied before. */
    method CopyOne(a: nat, b: nat, v: nat, ghost s0: State) returns (ok: bool)
      requires a in s0.spaces && b in s0.spaces && a != b && s0.spaces[b].pt == map[] && v < TRAP
      requires Copying(s0, S(), a, b, v)
      modifies this
      ensures refusals >= old(refusals)
      ensures ok ==> Copying(s0, S(), a, b, v + 1)
      ensures !ok ==> Core(S()) && SameView(s0, S()) && refusals > old(refusals)
      ensures !ok ==> spaces == WithPair(s0.spaces, a, ProtectBelow(s0.spaces[a].pt, v + 1), b, map[])
    {
      hide Core, View, ProtectBelow, CopyBelow, CutRange, ViewCopied, SameView, SameViewBut, ZeroedOnly;
      ghost var pt, s1 := s0.spaces[a].pt, S();
      CopyStep(pt, v);
      if v in spaces[a].pt {
        NotYetShared(S(), a, b, pt, v);
        var m := ShareOne(a, b, v);
        if m.MapFailed? {
          ghost var s2 := S();
          EmptyIsZero(s0, b);
          var _ := UnmapPages(b, 0, v, true);
          CopyUndone(s0, s1, s2, S(), a, b, v);
          return false;
        }
        ViewCopiedStep(s0, s1, S(), a, b, v);
      } else {
        AbsentIsZero(S(), a, v);
        AbsentIsZero(S(), b, v);
        SameViewButRefl(S(), b, v);
        ViewCopiedStep(s0, S(), S(), a, b, v);
      }
      ok := true;
    }

    /**
      Copies the first size bytes of process a to the empty process b by sharing every page. The
      child then sees what the parent saw, and nobody else notices; if memory for tables runs out
      the child is empty again. It panics, if it gets that far, exactly when size exceeds TRAPFRAME.
    */
    method Copy(a: nat, b: nat, size: nat) returns (r: VmResult<()>)
      requires Core(S()) && a in spaces && b in spaces && a != b && spaces[b].pt == map[]
      modifies this
      ensures r.Panic? ==> size > TRAPFRAME
      ensures !r.FixedPageLost? && refusals >= old(refusals)
      ensures r.Ok? ==> size <= TRAPFRAME
      ensures !r.Panic? ==> Core(S())
      ensures r.Err? ==> SameView(old(S()), S()) && refusals > old(refusals)
      ensures r.Err? ==> exists n: nat ::
                spaces == WithPair(old(spaces), a, ProtectBelow(old(spaces)[a].pt, n), b, map[])
      ensures r.Ok? ==> spaces == WithPair(old(spaces), a, ProtectBelow(old(spaces)[a].pt, PagesIn(size)), b,
                                           CopyBelow(old(spaces)[a].pt, PagesIn(size)))
      ensures r.Ok? ==> ViewCopied(old(S()), S(), a, b, PagesIn(size))
    {
      hide Core, View, ProtectBelow, CopyBelow, ViewCopied, SameView;
      ghost var s0 := S();
      CopyStep(spaces[a].pt, 0);
      EmptyIsZero(s0, b);
      ViewCopiedStart(s0, a, b);
      PairSame(spaces, a, b);
      var v := 0;
      while v * PGSIZE < size
        invariant v <= PagesIn(size) && v <= TRAP && refusals >= old(refusals)
        invariant Copying(s0, S(), a, b, v)
        decreases size - v * PGSIZE
      {
        if v == TRAP {
          return Panic;         // both processes have the trapframe there
        }
        var ok := CopyOne(a, b, v, s0);
        if !ok {
          return Err;
        }
        v := v + 1;
      }
      r := Ok(());
    }

    /** Takes down process a: its pages go, then its table. No leaf is left, so freeing the table cannot panic. */
    method ProcFree(a: nat)
      requires Core(S()) && a in spaces && Below(S(), a, PagesIn(spaces[a].size))
      modifies this
      ensures Core(S()) && spaces == old(spaces) - {a}
      ensures forall b: nat, u: nat :: View(S(), b, u) == if b == a then ZeroPage() else View(old(S()), b, u)
      ensures refusals == old(refusals)
    {
      hide Core, View, ZeroPage;
      var _ := UnmapPages(a, 0, PagesIn(spaces[a].size), false);     // the fixed pages went first, frames kept
      assert spaces[a].pt == map[];
      ghost var s1 := S();
      RemoveSpace(s1, a);
      spaces := spaces - {a};
      ZeroedAll(old(S()), s1, S(), a, PagesIn(old(spaces)[a].size));
    }

    /**
      Forks process a into slot b. The child sees exactly the parent's memory, every other process
      and the parent itself what they saw before; a failed fork is not seen at all.
    */
    method Fork(a: nat, b: nat) returns (r: VmResult<()>)
      requires Inv(S()) && a in spaces && b !in spaces && b < NPROC
      modifies this
      ensures r.Panic? ==> old(spaces)[a].size > TRAPFRAME
      ensures !r.FixedPageLost? && refusals >= old(refusals)
      ensures r.Ok? ==> old(spaces)[a].size <= TRAPFRAME
      ensures !r.Panic? ==> Inv(S())
      ensures r.Err? ==> spaces.Keys == old(spaces).Keys && SameView(old(S()), S()) && refusals > old(refusals)
      ensures r.Ok? ==> spaces.Keys == old(spaces).Keys + {b}
      ensures r.Ok? ==> forall u: nat :: View(S(), b, u) == View(old(S()), a, u)
      ensures r.Ok? ==> forall c: nat, u: nat :: c != b ==> View(S(), c, u) == View(old(S()), c, u)
      ensures r.Ok? ==> forall u: nat :: !Writable(S(), b, u)
    {
      hide Core, View, ZeroPage, Below, CopyBelow, ProtectBelow;
      if * {
        refusals := refusals + 1;      // for the trapframe or the first tables
        return Err;
      }
      AddSpace(S(), b);
      spaces := spaces[b := Space(map[], 0)];
      ghost var s1 := S();
      var size := spaces[a].size;
      r := Copy(a, b, size);
      if r.Err? {
        ghost var n: nat :| spaces == WithPair(s1.spaces, a, ProtectBelow(s1.spaces[a].pt, n), b, map[]);
        ghost var s2 := S();
        BelowEmpty(s2, b, PagesIn(0));
        ProcFree(b);
        ForkUndone(old(S()), s1, s2, S(), a, b, n);
      } else if r.Ok? {
        ghost var s2 := S();
        ForkDone(old(S()), s1, s2, a, b, size);
        spaces := spaces[b := Space(spaces[b].pt, size)];
        assert S() == WithSpace(s2, b, Space(s2.spaces[b].pt, size));
      }
    }

    // ---------- Copies between kernel and user memory ----------

    /**
      Makes page v of process a present for the kernel, as both copies do: a user page is taken as
      it is, anything else goes through the fault handler.
    */
    method Resolve(a: nat, va: nat) returns (ok: bool, frame: nat)
      requires Inv(S()) && a in spaces && va % PGSIZE == 0
      modifies this
      ensures Inv(S()) && SameView(old(S()), S()) && spaces.Keys == old(spaces).Keys
      ensures ok ==> MapsTo(S(), a, va / PGSIZE, frame)
      ensures refusals >= old(refusals)
      ensures !ok ==> spaces == old(spaces) && (NoAccess(old(S()), a, va) || refusals > old(refusals))
      ensures NoAccess(old(S()), a, va) ==> !ok
      ensures SameFrom(old(S()), S(), a, va / PGSIZE + 1)
      ensures ok ==> if UserPage(old(S()), a, va / PGSIZE) then spaces == old(spaces) else Writable(S(), a, va / PGSIZE)
    {
      hide Core, View, SameFrom;
      SameFromRefl(S(), a, va / PGSIZE + 1);
      if va / PGSIZE in spaces[a].pt && spaces[a].pt[va / PGSIZE].perm.u {
        return true, spaces[a].pt[va / PGSIZE].frame;
      }
      var r := VmFault(a, va);
      OneEntry(old(S()), S(), a, va / PGSIZE);
      if r.Ok? {
        return true, r.value;
      }
      ok, frame := false, 0;
    }

    /** Writes bytes within one page of process a, if the page can be had and is writable. */
    method WritePage(a: nat, at: nat, bytes: seq<bv8>) returns (ok: bool)
      requires Inv(S()) && a in spaces && at % PGSIZE + |bytes| <= PGSIZE
      modifies this
      ensures Inv(S()) && spaces.Keys == old(spaces).Keys
      ensures !ok ==> SameView(old(S()), S()) && (Refuses(old(S()), a, at) || refusals > old(refusals))
      ensures Refuses(old(S()), a, at) ==> !ok
      ensures SameFrom(old(S()), S(), a, at / PGSIZE + 1)
      ensures refusals >= old(refusals)
      ensures ok ==> SameViewBut(old(S()), S(), a, at / PGSIZE)
      ensures ok ==> View(S(), a, at / PGSIZE) == Splice(View(old(S()), a, at / PGSIZE), at % PGSIZE, bytes)
    {
      hide Core, View, Splice, SameFrom;
      SameFromRefl(S(), a, at / PGSIZE + 1);
      var va0 := at / PGSIZE * PGSIZE;
      if va0 > MAXVA {
        return false;
      }
      SamePageRefusal(S(), a, at, va0);
      var present, frame := Resolve(a, va0);
      if !present {
        return false;
      }
      var v := va0 / PGSIZE;
      if !spaces[a].pt[v].perm.w {
        return false;
      }
      ghost var s := S();
      PageOfMapped(s, a, v);
      var page := Splice(mem[frame], at - va0, bytes);
      StoreKeeps(s, a, v, page);
      mem := mem[frame := page];
      SpacesKeepInv(s, S());
      SameSpaces(old(S()), s, S(), a, at / PGSIZE + 1);
      ok := true;
    }

    /**
      Writes src at dst in process a, page by page. Exactly the first done bytes arrive, all of
      them unless a page refuses, and no other process sees any of them.
    */
    method CopyTo(a: nat, src: seq<bv8>, dst: nat) returns (ok: bool, ghost done: nat)
      requires Inv(S()) && a in spaces
      modifies this
      ensures Inv(S()) && spaces.Keys == old(spaces).Keys
      ensures done <= |src| && (ok <==> done == |src|)
      ensures !ok ==> Refuses(old(S()), a, dst + done) || refusals > old(refusals)
      ensures forall addr: nat :: dst <= addr < dst + done ==> !Refuses(old(S()), a, addr)
      ensures Written(old(S()), S(), a, dst, src[..done])
    {
      hide Inv, View, Written, SameView, SameViewBut, Splice, SameFrom, Refuses;
      WrittenNothing(S(), a, dst);
      SameFromRefl(S(), a, dst / PGSIZE);
      var rest, dstva := src, dst;
      done := 0;
      while rest != []
        invariant Inv(S()) && spaces.Keys == old(spaces).Keys
        invariant done <= |src| && rest == src[done..] && (rest != [] ==> dstva == dst + done)
        invariant Written(old(S()), S(), a, dst, src[..done]) && refusals >= old(refusals)
        invariant 0 <= dstva && SameFrom(old(S()), S(), a, dstva / PGSIZE)
        invariant forall addr: nat :: dst <= addr < dst + done ==> !Refuses(old(S()), a, addr)
        decreases |rest|
      {
        var va0 := dstva / PGSIZE * PGSIZE;
        var n := if va0 + PGSIZE - dstva < |rest| then va0 + PGSIZE - dstva else |rest|;
        ghost var s1 := S();
        SameRefusal(old(S()), s1, a, dstva / PGSIZE, dstva);
        var stored := WritePage(a, dstva, rest[..n]);
        if !stored {
          WrittenUnseen(old(S()), s1, S(), a, dst, src[..done]);
          return false, done;
        }
        WrittenStep(old(S()), s1, S(), a, dst, src[..done], rest[..n]);
        SameFromNext(old(S()), s1, S(), a, dstva / PGSIZE);
        forall addr: nat | dstva <= addr < dstva + n ensures !Refuses(old(S()), a, addr) {
          SamePageRefusal(old(S()), a, dstva, addr);
        }
        assert rest[..n] == src[done..done + n];
        assert src[..done] + src[done..done + n] == src[..done + n];
        done := done + n;
        rest := rest[n..];
        dstva := va0 + PGSIZE;
      }
      ok := true;
    }

    /** Reads len bytes at src in process a: the bytes it sees there, or a prefix of them on an error. */
    method CopyFrom(a: nat, src: nat, len: nat) returns (ok: bool, data: seq<bv8>)
      requires Inv(S()) && a in spaces
      modifies this
      ensures Inv(S()) && SameView(old(S()), S())
      ensures |data| <= len && (ok <==> |data| == len)
      ensures !ok ==> NoAccess(old(S()), a, src + |data|) || refusals > old(refusals)
      ensures forall addr: nat :: src <= addr < src + |data| ==> !NoAccess(old(S()), a, addr)
      ensures forall k :: 0 <= k < |data| ==> data[k] == ByteAt(old(S()), a, src + k)
    {
      hide Core, View, SameView, ByteAt, SameFrom, NoAccess;
      SameViewRefl(S());
      SameFromRefl(S(), a, src / PGSIZE);
      data := [];
      var srcva := src;
      while |data| < len
        invariant Inv(S()) && spaces.Keys == old(spaces).Keys && SameView(old(S()), S())
        invariant |data| <= len && (|data| < len ==> srcva == src + |data|) && refusals >= old(refusals)
        invariant forall k :: 0 <= k < |data| ==> data[k] == ByteAt(old(S()), a, src + k)
        invariant 0 <= srcva && SameFrom(old(S()), S(), a, srcva / PGSIZE)
        invariant forall addr: nat :: src <= addr < src + |data| ==> !NoAccess(old(S()), a, addr)
        decreases len - |data|
      {
        var va0 := srcva / PGSIZE * PGSIZE;
        ghost var s1 := S();
        SameRefusal(old(S()), s1, a, srcva / PGSIZE, srcva);
        SamePageRefusal(s1, a, srcva, va0);
        var present, frame := Resolve(a, va0);
        SameViewTrans(old(S()), s1, S());
        if !present {
          return false, data;
        }
        var v := va0 / PGSIZE;
        PageOfMapped(S(), a, v);
        var off := srcva - va0;
        var n := if PGSIZE - off < len - |data| then PGSIZE - off else len - |data|;
        var chunk := mem[frame][off..off + n];
        forall k | 0 <= k < n ensures chunk[k] == ByteAt(old(S()), a, src + (|data| + k)) {
          ByteOfPage(S(), a, srcva, k);
          SameByte(old(S()), S(), a, srcva + k);
        }
        SameFromNext(old(S()), s1, S(), a, srcva / PGSIZE);
        forall addr: nat | srcva <= addr < srcva + n ensures !NoAccess(old(S()), a, addr) {
          SamePageRefusal(old(S()), a, srcva, addr);
        }
        data := data + chunk;
        srcva := va0 + PGSIZE;
      }
      ok := true;
    }

    /** Takes a page from the user but not from its process. */
    method Clear(a: nat, v: nat)
      requires Inv(S()) && a in spaces && v in spaces[a].pt
      modifies this`spaces
      ensures Inv(S()) && SameView(old(S()), S())
      ensures a in spaces && v in spaces[a].pt && !spaces[a].pt[v].perm.u
    {
      hide Core, View;
      var leaf := spaces[a].pt[v];
      var perm := Perm(leaf.perm.r, leaf.perm.w, leaf.perm.x, false, leaf.perm.cow);
      PageOfMapped(S(), a, v);
      RepermKeeps(S(), a, v, perm);
      assert Below(S(), a, PagesIn(spaces[a].size));
      spaces := spaces[a := Space(spaces[a].pt[v := Leaf(leaf.frame, perm)], spaces[a].size)];
      StillBelow(old(S()), S(), a, v);
    }
  }

  /**
    A size beyond the trapframe is reached by one lazy grow, and fork then ends in the remap panic
    unless some allocation is refused on the way.
  */
  method ForkBeyondTrapframe(frames: nat, kernel: set<nat>, extra: nat) returns (panicked: bool, refusals: nat)
    requires extra > 0
    ensures refusals == 0 ==> panicked
  {
    var vm := new Vm(frames, kernel);
    panicked := false;
    var ok := vm.NewProc(0);
    if ok {
      var g := vm.Grow(0, TRAPFRAME + extra, true);
      var r := vm.Fork(0, 1);
      panicked := r.Panic?;
    }
    refusals := vm.refusals;
  }
}
