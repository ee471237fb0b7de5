/**
  A three-level page table kept in table pages, and the flat map from page numbers to entries
  that it stands for. Page numbers are virtual addresses divided by the page size.
*/
module PageTree {

  const PGSIZE: nat := 4096
  const ENTRIES: nat := 512
  const MAXVA: nat := 0x40_0000_0000
  const MAXPAGE: nat := 0x400_0000      // MAXVA / PGSIZE

  datatype Perm = Perm(r: bool, w: bool, x: bool, u: bool, cow: bool)

  const NOPERM := Perm(false, false, false, false, false)

  /** An entry without the valid bit, or with it: a page and permission bits. */
  datatype Entry = Invalid | Valid(page: nat, perm: Perm)

  predicate LeafPerm(p: Perm) {
    p.r || p.w || p.x
  }

  type Tables = map<nat, seq<Entry>>

  /** The index of a page number at each level. */
  function Top(v: nat): nat { v / 512 / 512 }
  function Middle(v: nat): nat { v / 512 % 512 }
  function Bottom(v: nat): nat { v % 512 }

  lemma IndicesDetermine(v: nat, w: nat)
    requires Top(v) == Top(w) && Middle(v) == Middle(w) && Bottom(v) == Bottom(w)
    ensures v == w
  {
    assert v / 512 == Top(v) * 512 + Middle(v);
    assert w / 512 == Top(w) * 512 + Middle(w);
  }

  /** The walk of the hardware: three indexed loads, stopping at an invalid entry. */
  function Translate(heap: Tables, root: nat, v: nat): Entry {
    var e2 := Load(heap, root, Top(v));
    if e2.Invalid? then Invalid else
    var e1 := Load(heap, e2.page, Middle(v));
    if e1.Invalid? then Invalid else
    Load(heap, e1.page, Bottom(v))
  }

  function Load(heap: Tables, page: nat, i: nat): Entry {
    if page in heap && i < |heap[page]| then heap[page][i] else Invalid
  }

  // ---------- The tree of tables ----------

  /** Where a table sits: the root, under root entry a, or under entry b of that one. */
  datatype Place = Root | Mid(a: nat) | Low(a: nat, b: nat)

  type Layout = map<Place, nat>

  function Sub(s: Place, i: nat): Place
    requires !s.Low?
  {
    if s.Root? then Mid(i) else Low(s.a, i)
  }

  predicate InRange(s: Place) {
    match s
    case Root => true
    case Mid(a) => a < 256
    case Low(a, b) => a < 256 && b < ENTRIES
  }

  predicate EntryOk(heap: Tables, tab: Layout, s: Place, i: nat)
    requires s in tab && tab[s] in heap && i < |heap[tab[s]]|
  {
    var e := heap[tab[s]][i];
    if s.Low? then e.Valid? ==> LeafPerm(e.perm)
    else (e.Valid? <==> Sub(s, i) in tab) && (e.Valid? ==> e.page == tab[Sub(s, i)] && e.perm == NOPERM)
  }

  ghost predicate TableOk(heap: Tables, tab: Layout, s: Place)
    requires s in tab
  {
    && tab[s] in heap
    && |heap[tab[s]]| == ENTRIES
    && forall i :: 0 <= i < ENTRIES ==> EntryOk(heap, tab, s, i)
  }

  ghost predicate Shaped(tab: Layout) {
    && Root in tab
    && (forall s :: s in tab ==> InRange(s))
    && (forall s :: s in tab && s.Low? ==> Mid(s.a) in tab)
    && (forall s, t :: s in tab && t in tab && tab[s] == tab[t] ==> s == t)
  }

  ghost predicate Tree(heap: Tables, tab: Layout, root: nat) {
    && Shaped(tab)
    && tab[Root] == root
    && (forall s :: s in tab ==> TableOk(heap, tab, s))
    && heap.Keys == tab.Values
  }

  function Lookup(heap: Tables, tab: Layout, v: nat): Entry {
    var s := Low(Top(v), Middle(v));
    if s in tab then Load(heap, tab[s], Bottom(v)) else Invalid
  }

  lemma TranslateIsLookup(heap: Tables, tab: Layout, root: nat, v: nat)
    requires Tree(heap, tab, root) && v < MAXPAGE
    ensures Translate(heap, root, v) == Lookup(heap, tab, v)
  {
    var a, b := Top(v), Middle(v);
    assert EntryOk(heap, tab, Root, a);
    if Mid(a) in tab {
      assert EntryOk(heap, tab, Mid(a), b);
    }
  }

  // ---------- A new table ----------

  function WithTable(heap: Tables, tab: Layout, s: Place, i: nat, p: nat): Tables
    requires s in tab && tab[s] in heap && i < |heap[tab[s]]|
  {
    heap[tab[s] := heap[tab[s]][i := Valid(p, NOPERM)]][p := seq(ENTRIES, k => Invalid)]
  }

  /** Hanging an empty table under an invalid entry keeps the tree and every translation. */
  lemma AddTable(heap: Tables, tab: Layout, root: nat, s: Place, i: nat, p: nat)
    requires Tree(heap, tab, root)
    requires s in tab && !s.Low? && i < ENTRIES && InRange(Sub(s, i))
    requires heap[tab[s]][i].Invalid? && p !in heap
    ensures Tree(WithTable(heap, tab, s, i, p), tab[Sub(s, i) := p], root)
    ensures forall v :: 0 <= v < MAXPAGE ==>
              Lookup(WithTable(heap, tab, s, i, p), tab[Sub(s, i) := p], v) == Lookup(heap, tab, v)
  {
    var heap' := WithTable(heap, tab, s, i, p);
    var child := Sub(s, i);
    var tab' := tab[child := p];
    assert EntryOk(heap, tab, s, i);
    assert child !in tab;
    assert p !in tab.Values;
    forall t | t in tab' ensures TableOk(heap', tab', t) {
      AddedTableOk(heap, tab, root, s, i, p, t);
    }
    ValuesAdd(tab, child, p);
  }

  lemma AddedTableOk(heap: Tables, tab: Layout, root: nat, s: Place, i: nat, p: nat, t: Place)
    requires Tree(heap, tab, root)
    requires s in tab && !s.Low? && i < ENTRIES && InRange(Sub(s, i))
    requires heap[tab[s]][i].Invalid? && p !in heap && Sub(s, i) !in tab
    requires t == Sub(s, i) || t in tab
    ensures TableOk(WithTable(heap, tab, s, i, p), tab[Sub(s, i) := p], t)
  {
    var heap', tab' := WithTable(heap, tab, s, i, p), tab[Sub(s, i) := p];
    if t == Sub(s, i) {
      forall k | 0 <= k < ENTRIES ensures EntryOk(heap', tab', t, k) {
        if !t.Low? { assert Sub(t, k) !in tab'; }
      }
    } else {
      assert TableOk(heap, tab, t);
      assert tab[t] in tab.Values;
      forall k | 0 <= k < ENTRIES ensures EntryOk(heap', tab', t, k) {
        assert EntryOk(heap, tab, t, k);
      }
    }
  }

  lemma ValuesAdd(tab: Layout, s: Place, p: nat)
    requires s !in tab
    ensures tab[s := p].Values == tab.Values + {p}
  {
    forall q | q in tab.Values ensures q in tab[s := p].Values {
      var t :| t in tab && tab[t] == q;
      assert tab[s := p][t] == q;
    }
    assert tab[s := p][s] == p;
  }

  // ---------- A leaf entry ----------

  /** Writing a bottom entry changes the translation of its page and of no other. */
  lemma SetLeaf(heap: Tables, tab: Layout, root: nat, v: nat, e: Entry)
    requires Tree(heap, tab, root) && v < MAXPAGE
    requires Low(Top(v), Middle(v)) in tab
    requires e.Valid? ==> LeafPerm(e.perm)
    ensures
      var p := tab[Low(Top(v), Middle(v))];
      && p in heap && |heap[p]| == ENTRIES
      && var heap' := heap[p := heap[p][Bottom(v) := e]];
      && Tree(heap', tab, root)
      && Lookup(heap', tab, v) == e
      && forall w :: 0 <= w < MAXPAGE && w != v ==> Lookup(heap', tab, w) == Lookup(heap, tab, w)
  {
    var s := Low(Top(v), Middle(v));
    var p := tab[s];
    assert TableOk(heap, tab, s);
    var heap' := heap[p := heap[p][Bottom(v) := e]];
    forall t | t in tab ensures TableOk(heap', tab, t) {
      assert TableOk(heap, tab, t);
      forall k | 0 <= k < ENTRIES ensures EntryOk(heap', tab, t, k) {
        assert EntryOk(heap, tab, t, k);
      }
    }
    forall w | 0 <= w < MAXPAGE && w != v ensures Lookup(heap', tab, w) == Lookup(heap, tab, w) {
      if Top(w) == Top(v) && Middle(w) == Middle(v) && Bottom(w) == Bottom(v) {
        IndicesDetermine(v, w);
      }
    }
  }
}
