/**
  What the steps of the file operations do, as lemmas over values: how the free map follows
  ownership, how a write progresses and what it logs, and how truncation gives blocks up.
*/
module FileSteps {
  import opened InodeBlocks
  import opened Bitmap
  import Division

  /** How a round of a write ends: the bytes are written, no block can be had, or user memory cannot be read. */
  datatype BlockEnd = Wrote | NoBlock | Faulted

  /** The map agrees with ownership: a bit is set iff its block is metadata or has an owner. */
  ghost predicate BitsMatch(bits: Bits, owner: map<nat, Slot>, nmeta: nat, size: nat) {
    && size <= 8 * |bits|
    && forall b :: 0 <= b < size ==> (Bit(bits, b) <==> b < nmeta || b in owner)
  }

  ghost predicate Full(bits: Bits, size: nat)
    requires size <= 8 * |bits|
  {
    forall b :: 0 <= b < size ==> Bit(bits, b)
  }

  /** Slot s has no block, and no block is free to give it. */
  ghost predicate Blocked(d: Disk, bits: Bits, size: nat, s: Slot)
    requires size <= 8 * |bits|
  {
    Full(bits, size) && Ref(d, s) == 0
  }

  /** The blocks that the map says are free. */
  function FreeSet(bits: Bits, size: nat): set<nat>
    requires size <= 8 * |bits|
  {
    set b | 0 <= b < size && !Bit(bits, b)
  }

  function FreeCount(bits: Bits, size: nat): nat
    requires size <= 8 * |bits|
  {
    |FreeSet(bits, size)|
  }

  lemma FullCount(bits: Bits, size: nat)
    requires size <= 8 * |bits|
    ensures Full(bits, size) <==> FreeCount(bits, size) == 0
  {
    hide Bit;
    if FreeSet(bits, size) == {} {
      forall b | 0 <= b < size ensures Bit(bits, b) {
        assert b !in FreeSet(bits, size);
      }
    } else {
      var b :| b in FreeSet(bits, size);
    }
  }

  /** n blocks were taken from the free ones. */
  ghost predicate Taken(bits: Bits, bits': Bits, size: nat, n: nat) {
    size <= 8 * |bits| && size <= 8 * |bits'| && FreeCount(bits, size) == FreeCount(bits', size) + n
  }

  lemma TakeOne(bits: Bits, size: nat, b: nat)
    requires size <= 8 * |bits| && b < size && !Bit(bits, b)
    ensures Taken(bits, SetBit(bits, b), size, 1)
  {
    hide Bit, SetBit;
    forall c | 0 <= c < size ensures Bit(SetBit(bits, b), c) <==> c == b || Bit(bits, c) {
      SetOneBit(bits, b, c);
    }
    assert FreeSet(SetBit(bits, b), size) == FreeSet(bits, size) - {b};
  }

  /** The blocks lo to hi of file i that are not there. */
  function Holes(d: Disk, i: nat, lo: nat, hi: nat): set<nat> {
    set n | lo <= n < hi && Ref(d, SlotOf(i, n)) == 0
  }

  /** What it takes to have the blocks lo to hi of file i: the missing ones, and the indirect block if it is missing. */
  function Need(d: Disk, i: nat, lo: nat, hi: nat): nat {
    |Holes(d, i, lo, hi)| + (if lo < hi && NDIRECT < hi && Ref(d, Indirect(i)) == 0 then 1 else 0)
  }

  /** As many blocks were taken as the range of file i needs less. */
  ghost predicate Balanced(d: Disk, bits: Bits, d': Disk, bits': Bits, size: nat, i: nat, lo: nat, hi: nat) {
    && size <= 8 * |bits| && size <= 8 * |bits'|
    && FreeCount(bits, size) + Need(d', i, lo, hi) == FreeCount(bits', size) + Need(d, i, lo, hi)
  }

  /** Every block taken went to file i, for its block n: any range with block n needs it no longer. */
  ghost predicate PaidAt(d: Disk, bits: Bits, d': Disk, bits': Bits, size: nat, i: nat, n: nat) {
    forall lo: nat, hi: nat :: lo <= n < hi ==> Balanced(d, bits, d', bits', size, i, lo, hi)
  }

  /** Every block taken went to file i, for its bytes from off to off + len. */
  ghost predicate Pays(d: Disk, bits: Bits, d': Disk, bits': Bits, size: nat, i: nat, off: nat, len: nat) {
    forall lo: nat, hi: nat :: lo <= off / BSIZE && off + len <= hi * BSIZE ==> Balanced(d, bits, d', bits', size, i, lo, hi)
  }

  lemma PaidNothing(d: Disk, bits: Bits, size: nat, i: nat, n: nat, off: nat, len: nat)
    requires size <= 8 * |bits|
    ensures PaidAt(d, bits, d, bits, size, i, n) && Pays(d, bits, d, bits, size, i, off, len)
  {
    hide FreeCount, Need;
  }

  lemma SlotsDiffer(i: nat, n: nat)
    ensures forall m: nat :: m != n ==> SlotOf(i, m) != SlotOf(i, n)
    ensures forall m: nat :: SlotOf(i, m) != Indirect(i)
  {
  }

  /** A block for block n leaves the other holes, and the need of the indirect block. */
  lemma NeedSlot(d: Disk, d': Disk, i: nat, n: nat, lo: nat, hi: nat)
    requires Ref(d, SlotOf(i, n)) == 0 && Ref(d', SlotOf(i, n)) != 0 && lo <= n < hi
    requires forall s :: s != SlotOf(i, n) ==> Ref(d', s) == Ref(d, s)
    ensures Need(d, i, lo, hi) == Need(d', i, lo, hi) + 1
  {
    hide Ref, SlotOf;
    SlotsDiffer(i, n);
    assert Ref(d', Indirect(i)) == Ref(d, Indirect(i));
    forall m: nat | m != n ensures Ref(d', SlotOf(i, m)) == Ref(d, SlotOf(i, m)) {
    }
    assert Holes(d', i, lo, hi) == Holes(d, i, lo, hi) - {n};
    assert n in Holes(d, i, lo, hi);
  }

  lemma NeedIndirect(d: Disk, d': Disk, i: nat, lo: nat, hi: nat)
    requires Ref(d, Indirect(i)) == 0 && Ref(d', Indirect(i)) != 0 && lo < hi && NDIRECT < hi
    requires forall s :: s != Indirect(i) ==> Ref(d', s) == Ref(d, s)
    ensures Need(d, i, lo, hi) == Need(d', i, lo, hi) + 1
  {
    hide Ref, SlotOf;
    SlotsDiffer(i, 0);
    forall m: nat ensures Ref(d', SlotOf(i, m)) == Ref(d, SlotOf(i, m)) {
    }
    assert Holes(d', i, lo, hi) == Holes(d, i, lo, hi);
  }

  lemma PaidSlot(d: Disk, bits: Bits, d': Disk, bits': Bits, size: nat, i: nat, n: nat)
    requires Taken(bits, bits', size, 1) && Ref(d, SlotOf(i, n)) == 0 && Ref(d', SlotOf(i, n)) != 0
    requires forall s :: s != SlotOf(i, n) ==> Ref(d', s) == Ref(d, s)
    ensures PaidAt(d, bits, d', bits', size, i, n)
  {
    hide Ref, FreeCount, Need, SlotOf;
    forall lo: nat, hi: nat | lo <= n < hi ensures Balanced(d, bits, d', bits', size, i, lo, hi) {
      NeedSlot(d, d', i, n, lo, hi);
    }
  }

  lemma PaidIndirect(d: Disk, bits: Bits, d': Disk, bits': Bits, size: nat, i: nat, n: nat)
    requires Taken(bits, bits', size, 1) && Ref(d, Indirect(i)) == 0 && Ref(d', Indirect(i)) != 0 && NDIRECT <= n
    requires forall s :: s != Indirect(i) ==> Ref(d', s) == Ref(d, s)
    ensures PaidAt(d, bits, d', bits', size, i, n)
  {
    hide Ref, FreeCount, Need;
    forall lo: nat, hi: nat | lo <= n < hi ensures Balanced(d, bits, d', bits', size, i, lo, hi) {
      NeedIndirect(d, d', i, lo, hi);
    }
  }

  lemma PaidTrans(d: Disk, bits: Bits, d1: Disk, bits1: Bits, d2: Disk, bits2: Bits, size: nat, i: nat, n: nat)
    requires PaidAt(d, bits, d1, bits1, size, i, n) && PaidAt(d1, bits1, d2, bits2, size, i, n)
    ensures PaidAt(d, bits, d2, bits2, size, i, n)
  {
    hide Need, FreeCount;
    forall lo: nat, hi: nat | lo <= n < hi ensures Balanced(d, bits, d2, bits2, size, i, lo, hi) {
      assert Balanced(d, bits, d1, bits1, size, i, lo, hi);
      assert Balanced(d1, bits1, d2, bits2, size, i, lo, hi);
    }
  }

  /**
    What mapping block n of file i does: no file is seen to change, every block taken goes to that
    block, and blocks are taken exactly when it is missing, an inode can map it, and one is free.
  */
  ghost predicate Mapped(d1: Disk, bits1: Bits, d2: Disk, bits2: Bits, size: nat, i: nat, n: nat, more: bool) {
    && size <= 8 * |bits1| && size <= 8 * |bits2|
    && MapsOnly(d1, d2, i) && PaidAt(d1, bits1, d2, bits2, size, i, n)
    && (more <==> n < MAXFILE && Ref(d1, SlotOf(i, n)) == 0 && !Full(bits1, size))
    && (if more then FreeCount(bits2, size) < FreeCount(bits1, size) else d2 == d1 && bits2 == bits1)
  }

  lemma MappedFacts(d: Disk, bits: Bits, d': Disk, bits': Bits, size: nat, i: nat, n: nat, more: bool)
    requires Mapped(d, bits, d', bits', size, i, n, more)
    ensures size <= 8 * |bits| && size <= 8 * |bits'| && MapsOnly(d, d', i) && PaidAt(d, bits, d', bits', size, i, n)
    ensures Ref(d, SlotOf(i, n)) != 0 ==> !more
    ensures Blocked(d, bits, size, SlotOf(i, n)) ==> !more && Ref(d', SlotOf(i, n)) == 0
    ensures !more ==> d' == d && bits' == bits
  {
    hide MapsOnly, PaidAt, Ref, SlotOf, Full, FreeCount;
  }

  lemma MappedNothing(d: Disk, bits: Bits, size: nat, i: nat, n: nat)
    requires size <= 8 * |bits| && (n < MAXFILE && Ref(d, SlotOf(i, n)) == 0 ==> Full(bits, size))
    ensures Mapped(d, bits, d, bits, size, i, n, false)
  {
    hide PaidAt, FreeCount, Full, Ref, SlotOf;
    MapsNothing(d, i);
    PaidNothing(d, bits, size, i, n, 0, 0);
  }

  lemma MappedSlot(d: Disk, bits: Bits, d': Disk, bits': Bits, size: nat, i: nat, n: nat)
    requires Taken(bits, bits', size, 1) && n < MAXFILE && Ref(d, SlotOf(i, n)) == 0 && Ref(d', SlotOf(i, n)) != 0
    requires MapsOnly(d, d', i) && forall s :: s != SlotOf(i, n) ==> Ref(d', s) == Ref(d, s)
    ensures Mapped(d, bits, d', bits', size, i, n, true)
  {
    hide PaidAt, FreeCount, Full, Ref, SlotOf, MapsOnly;
    PaidSlot(d, bits, d', bits', size, i, n);
    FullCount(bits, size);
  }

  /** Through the indirect block: perhaps a block for it, and then perhaps one for the entry. */
  lemma MappedThrough(d: Disk, bits: Bits, d1: Disk, bits1: Bits, d2: Disk, bits2: Bits, size: nat, i: nat, k: nat)
    requires k < NINDIRECT && MapsOnly(d, d1, i) && MapsOnly(d1, d2, i)
    requires Ref(d1, Indirect(i)) != 0 && forall s :: s != Indirect(i) ==> Ref(d1, s) == Ref(d, s)
    requires if Ref(d, Indirect(i)) == 0 then Taken(bits, bits1, size, 1) else d1 == d && bits1 == bits && size <= 8 * |bits|
    requires forall s :: s != Entry(i, k) ==> Ref(d2, s) == Ref(d1, s)
    requires if Ref(d1, Entry(i, k)) == 0 && Ref(d2, Entry(i, k)) != 0 then Taken(bits1, bits2, size, 1) else d2 == d1 && bits2 == bits1
    requires Ref(d2, Entry(i, k)) == 0 ==> size <= 8 * |bits2| && Full(bits2, size)
    ensures
      var more := Ref(d, Indirect(i)) == 0 || (Ref(d, Entry(i, k)) == 0 && Ref(d2, Entry(i, k)) != 0);
      Mapped(d, bits, d2, bits2, size, i, NDIRECT + k, more)
  {
    hide Ref, FreeCount, PaidAt, Full, MapsOnly;
    assert SlotOf(i, NDIRECT + k) == Entry(i, k);
    EntryNeedsIndirect(d, i, k);
    MapsOnlyTrans(d, d1, d2, i);
    PaidNothing(d, bits, size, i, NDIRECT + k, 0, 0);
    if Ref(d, Indirect(i)) == 0 {
      PaidIndirect(d, bits, d1, bits1, size, i, NDIRECT + k);
    }
    PaidNothing(d1, bits1, size, i, NDIRECT + k, 0, 0);
    if Ref(d1, Entry(i, k)) == 0 && Ref(d2, Entry(i, k)) != 0 {
      PaidSlot(d1, bits1, d2, bits2, size, i, NDIRECT + k);
    }
    PaidTrans(d, bits, d1, bits1, d2, bits2, size, i, NDIRECT + k);
    FullCount(bits, size);
  }

  lemma NeedSame(d: Disk, d': Disk, i: nat, lo: nat, hi: nat)
    requires forall s :: Ref(d', s) == Ref(d, s)
    ensures Need(d', i, lo, hi) == Need(d, i, lo, hi)
  {
    hide Ref;
    assert Holes(d', i, lo, hi) == Holes(d, i, lo, hi);
  }

  /** What is paid depends on the slots alone. */
  lemma PaidSame(d: Disk, bits: Bits, d1: Disk, bits1: Bits, d2: Disk, size: nat, i: nat, n: nat)
    requires PaidAt(d, bits, d1, bits1, size, i, n) && forall s :: Ref(d2, s) == Ref(d1, s)
    ensures PaidAt(d, bits, d2, bits1, size, i, n)
  {
    hide Need, FreeCount, Ref;
    forall lo: nat, hi: nat | lo <= n < hi ensures Balanced(d, bits, d2, bits1, size, i, lo, hi) {
      assert Balanced(d, bits, d1, bits1, size, i, lo, hi);
      NeedSame(d1, d2, i, lo, hi);
    }
  }

  lemma PaysSame(d: Disk, bits: Bits, d1: Disk, bits1: Bits, d2: Disk, size: nat, i: nat, off: nat, len: nat)
    requires Pays(d, bits, d1, bits1, size, i, off, len) && forall s :: Ref(d2, s) == Ref(d1, s)
    ensures Pays(d, bits, d2, bits1, size, i, off, len)
  {
    hide Need, FreeCount, Ref;
    forall lo: nat, hi: nat | lo <= off / BSIZE && off + len <= hi * BSIZE ensures Balanced(d, bits, d2, bits1, size, i, lo, hi) {
      assert Balanced(d, bits, d1, bits1, size, i, lo, hi);
      NeedSame(d1, d2, i, lo, hi);
    }
  }

  lemma PaysStep(d: Disk, bits: Bits, d1: Disk, bits1: Bits, d2: Disk, bits2: Bits, size: nat, i: nat, off: nat, len: nat, n: nat)
    requires Pays(d, bits, d1, bits1, size, i, off, len) && PaidAt(d1, bits1, d2, bits2, size, i, n)
    requires off / BSIZE <= n && n * BSIZE < off + len
    ensures Pays(d, bits, d2, bits2, size, i, off, len)
  {
    hide Need, FreeCount;
    forall lo: nat, hi: nat | lo <= off / BSIZE && off + len <= hi * BSIZE ensures Balanced(d, bits, d2, bits2, size, i, lo, hi) {
      assert Balanced(d, bits, d1, bits1, size, i, lo, hi);
      assert n < hi;
      assert Balanced(d1, bits1, d2, bits2, size, i, lo, hi);
    }
  }

  /** A longer range is paid for too. */
  lemma PaysMore(d: Disk, bits: Bits, d': Disk, bits': Bits, size: nat, i: nat, off: nat, len: nat, more: nat)
    requires Pays(d, bits, d', bits', size, i, off, len) && len <= more
    ensures Pays(d, bits, d', bits', size, i, off, more)
  {
    hide Balanced;
  }

  /** A shorter range needs no more less than a longer one. */
  lemma NeedLess(d: Disk, d': Disk, i: nat, lo: nat, hi: nat, hi': nat)
    requires RefsGrow(d, d') && lo < hi <= hi'
    ensures Need(d, i, lo, hi) - Need(d', i, lo, hi) <= Need(d, i, lo, hi') - Need(d', i, lo, hi')
  {
    hide Ref, SlotOf;
    var rest, rest' := Holes(d, i, hi, hi'), Holes(d', i, hi, hi');
    assert Holes(d, i, lo, hi') == Holes(d, i, lo, hi) + rest && Holes(d', i, lo, hi') == Holes(d', i, lo, hi) + rest';
    assert rest' <= rest;
    SubsetSize(rest', rest);
  }

  /** The number of the block after the one with the last byte before end. */
  function EndBlock(end: nat): nat {
    (end + BSIZE - 1) / BSIZE
  }

  /** The file has, or can be given, the blocks for its bytes from off to off + len. */
  predicate Suffices(d: Disk, bits: Bits, size: nat, i: nat, off: nat, len: nat)
    requires size <= 8 * |bits|
  {
    len == 0 || Need(d, i, off / BSIZE, EndBlock(off + len)) <= FreeCount(bits, size)
  }

  /** Having got the blocks, there were enough. */
  lemma Sufficed(d: Disk, bits: Bits, d': Disk, bits': Bits, size: nat, i: nat, off: nat, len: nat)
    requires Pays(d, bits, d', bits', size, i, off, len) && len > 0 && Covers(d', i, off, off + len)
    ensures size <= 8 * |bits| && Suffices(d, bits, size, i, off, len)
  {
    hide FreeCount, Ref, Need;
    assert Balanced(d, bits, d', bits', size, i, off / BSIZE, EndBlock(off + len));
    CoveredNeeds(d', i, off, len);
  }

  /** Having got the blocks of a longer range, there were enough for a shorter one. */
  lemma SufficedShort(d: Disk, bits: Bits, d': Disk, bits': Bits, size: nat, i: nat, off: nat, len: nat, short: nat)
    requires Pays(d, bits, d', bits', size, i, off, len) && RefsGrow(d, d')
    requires 0 < short <= len && Covers(d', i, off, off + short)
    ensures size <= 8 * |bits| && Suffices(d, bits, size, i, off, short)
  {
    hide FreeCount, Ref, Need;
    var lo, hi, hi' := off / BSIZE, EndBlock(off + short), EndBlock(off + len);
    assert Balanced(d, bits, d', bits', size, i, lo, hi');
    NeedLess(d, d', i, lo, hi, hi');
    CoveredNeeds(d', i, off, short);
  }

  lemma CoveredNeeds(d: Disk, i: nat, off: nat, len: nat)
    requires len > 0 && Covers(d, i, off, off + len)
    ensures Need(d, i, off / BSIZE, EndBlock(off + len)) == 0
  {
    hide Ref;
    var lo, hi := off / BSIZE, EndBlock(off + len);
    forall n | lo <= n < hi ensures Ref(d, SlotOf(i, n)) != 0 {
      assert n * BSIZE < off + len;
    }
    assert Holes(d, i, lo, hi) == {};
    if NDIRECT < hi {
      assert Ref(d, SlotOf(i, hi - 1)) != 0;
      EntryNeedsIndirect(d, i, hi - 1 - NDIRECT);
    }
  }

  /** Standing before a block that cannot be had, there were too few. */
  lemma FellShort(d: Disk, bits: Bits, d': Disk, bits': Bits, size: nat, i: nat, off: nat, len: nat, at: nat)
    requires Pays(d, bits, d', bits', size, i, off, len) && off <= at < off + len && size <= 8 * |bits'|
    requires Blocked(d', bits', size, SlotOf(i, at / BSIZE))
    ensures size <= 8 * |bits| && !Suffices(d, bits, size, i, off, len)
  {
    hide FreeCount, Ref, Full;
    var lo, hi := off / BSIZE, EndBlock(off + len);
    assert Balanced(d, bits, d', bits', size, i, lo, hi);
    FullCount(bits', size);
    assert at / BSIZE in Holes(d', i, lo, hi) by {
      assert at / BSIZE * BSIZE <= at;
    }
    assert Holes(d', i, lo, hi) != {};
  }

  /** Every slot that held a block holds it still. */
  ghost predicate RefsGrow(d: Disk, d': Disk) {
    forall s :: Ref(d, s) != 0 ==> Ref(d', s) == Ref(d, s)
  }

  /** File i may gain blocks: no slot loses its block, and no size or other inode changes. */
  ghost predicate Grows(d: Disk, d': Disk, i: nat) {
    && RefsGrow(d, d')
    && |d'.inodes| == |d.inodes|
    && (forall j :: 0 <= j < |d.inodes| ==> d'.inodes[j].size == d.inodes[j].size)
    && (forall j :: 0 <= j < |d.inodes| && j != i ==> d'.inodes[j] == d.inodes[j])
  }

  /** Mapping blocks of file i is seen in no file. */
  ghost predicate MapsOnly(d: Disk, d': Disk, i: nat) {
    SameBytes(d, d') && Grows(d, d', i)
  }

  lemma GrowsTrans(d: Disk, d1: Disk, d2: Disk, i: nat)
    requires Grows(d, d1, i) && Grows(d1, d2, i)
    ensures Grows(d, d2, i)
  {
    hide Ref;
    forall s | Ref(d, s) != 0 ensures Ref(d2, s) == Ref(d, s) {
      assert Ref(d1, s) == Ref(d, s);
    }
  }

  lemma MapsOnlyTrans(d: Disk, d1: Disk, d2: Disk, i: nat)
    requires MapsOnly(d, d1, i) && MapsOnly(d1, d2, i)
    ensures MapsOnly(d, d2, i)
  {
    hide Grows, FileByte;
    GrowsTrans(d, d1, d2, i);
    forall j: nat, p: nat ensures FileByte(d2, j, p) == FileByte(d, j, p) {
      assert FileByte(d1, j, p) == FileByte(d, j, p);
    }
  }

  /** A block whose bit is clear is a data block that nobody holds. */
  lemma FreshBlock(d: Disk, owner: map<nat, Slot>, nmeta: nat, size: nat, bits: Bits, b: nat)
    requires Owned(d, owner, nmeta, size) && BitsMatch(bits, owner, nmeta, size)
    requires b < size && !Bit(bits, b)
    ensures nmeta <= b && b !in owner
    ensures Owned(WithBlock(d, b, ZeroBlock()), owner, nmeta, size)
    ensures forall i :: MapsOnly(d, WithBlock(d, b, ZeroBlock()), i)
    ensures forall s :: Ref(WithBlock(d, b, ZeroBlock()), s) == Ref(d, s)
  {
    ZeroUnowned(d, owner, nmeta, size, b);
  }

  lemma BitsAttach(bits: Bits, owner: map<nat, Slot>, nmeta: nat, size: nat, b: nat, s: Slot)
    requires BitsMatch(bits, owner, nmeta, size) && b < size
    ensures BitsMatch(SetBit(bits, b), owner[b := s], nmeta, size)
  {
    hide Bit, SetBit;
    forall c | 0 <= c < size ensures Bit(SetBit(bits, b), c) <==> c < nmeta || c in owner[b := s] {
      SetOneBit(bits, b, c);
    }
  }

  lemma DirectRef(d: Disk, owner: map<nat, Slot>, nmeta: nat, size: nat, i: nat, k: nat)
    requires Owned(d, owner, nmeta, size) && i < |d.inodes| && k <= NDIRECT
    ensures |d.inodes[i].addrs| == NDIRECT + 1
    ensures k < NDIRECT ==> Ref(d, Direct(i, k)) == d.inodes[i].addrs[k]
    ensures Ref(d, Indirect(i)) == d.inodes[i].addrs[NDIRECT]
    ensures MapsOnly(d, d, i)
  {
  }

  lemma Lengths(d: Disk, owner: map<nat, Slot>, nmeta: nat, size: nat, bits: Bits)
    requires Owned(d, owner, nmeta, size) && BitsMatch(bits, owner, nmeta, size)
    ensures |d.blocks| == size <= 8 * |bits| && 0 < nmeta
  {
  }

  lemma EntryRef(d: Disk, owner: map<nat, Slot>, nmeta: nat, size: nat, i: nat, k: nat)
    requires Owned(d, owner, nmeta, size) && i < |d.inodes| && k < NINDIRECT && Ref(d, Indirect(i)) != 0
    ensures Ref(d, Indirect(i)) < |d.blocks|
    ensures Ref(d, Entry(i, k)) == Word(d.blocks[Ref(d, Indirect(i))], k)
  {
  }

  lemma EntryNeedsIndirect(d: Disk, i: nat, k: nat)
    ensures Ref(d, Entry(i, k)) != 0 ==> Ref(d, Indirect(i)) != 0 && k < NINDIRECT
  {
  }

  lemma EntryMapsOnly(d: Disk, d': Disk, i: nat, k: nat)
    requires d'.inodes == d.inodes && SameBytes(d, d') && Ref(d, Entry(i, k)) == 0
    requires forall s :: s != Entry(i, k) ==> Ref(d', s) == Ref(d, s)
    ensures MapsOnly(d, d', i)
  {
  }

  /** The indirect block of inode i, if it has one. */
  function IndirectSet(d: Disk, i: nat): set<nat> {
    if Ref(d, Indirect(i)) != 0 then {Ref(d, Indirect(i))} else {}
  }

  // ---------- Writing bytes ----------

  function SpliceBlock(b: Block, off: nat, chunk: seq<Byte>): Block
    requires off + |chunk| <= BSIZE
  {
    b[..off] + chunk + b[off + |chunk|..]
  }

  /** File i changes to hold data at off; no other byte of any file changes. */
  ghost predicate WritesBytes(d: Disk, d': Disk, i: nat, off: nat, data: seq<Byte>) {
    && (forall j: nat, p: nat :: j != i || !(off <= p < off + |data|) ==> FileByte(d', j, p) == FileByte(d, j, p))
    && (forall p: nat :: off <= p < off + |data| ==> FileByte(d', i, p) == data[p - off])
  }

  lemma WritesNothing(d: Disk, d': Disk, i: nat, off: nat)
    ensures WritesBytes(d, d, i, off, [])
    ensures Grows(d, d, i)
    ensures SameBytes(d, d') ==> WritesBytes(d, d', i, off, [])
  {
  }

  lemma WritesUnseen(d: Disk, d1: Disk, d2: Disk, i: nat, off: nat, data: seq<Byte>)
    requires WritesBytes(d, d1, i, off, data) && SameBytes(d1, d2)
    ensures WritesBytes(d, d2, i, off, data)
  {
    hide FileByte;
    forall j: nat, p: nat ensures FileByte(d2, j, p) == FileByte(d1, j, p) {
    }
  }

  lemma WritesTrans(d: Disk, d1: Disk, d2: Disk, i: nat, off: nat, data: seq<Byte>, chunk: seq<Byte>)
    requires WritesBytes(d, d1, i, off, data) && WritesBytes(d1, d2, i, off + |data|, chunk)
    ensures WritesBytes(d, d2, i, off, data + chunk)
  {
    hide FileByte;
    forall j: nat, p: nat | j != i || !(off <= p < off + |data + chunk|) ensures FileByte(d2, j, p) == FileByte(d, j, p) {
      assert FileByte(d1, j, p) == FileByte(d, j, p);
    }
    forall p: nat | off <= p < off + |data + chunk| ensures FileByte(d2, i, p) == (data + chunk)[p - off] {
      if p < off + |data| {
        assert FileByte(d2, i, p) == FileByte(d1, i, p);
      }
    }
  }

  /** Rewriting part of one block of a file writes those bytes of the file. */
  lemma SpliceWrites(d: Disk, owner: map<nat, Slot>, nmeta: nat, size: nat, i: nat, at: nat, chunk: seq<Byte>)
    requires Owned(d, owner, nmeta, size) && Ref(d, SlotOf(i, at / BSIZE)) != 0 && at % BSIZE + |chunk| <= BSIZE
    ensures
      var b := Ref(d, SlotOf(i, at / BSIZE));
      && b < |d.blocks|
      && var d' := WithBlock(d, b, SpliceBlock(d.blocks[b], at % BSIZE, chunk));
      && Owned(d', owner, nmeta, size) && Grows(d, d', i)
      && (forall s :: Ref(d', s) == Ref(d, s))
      && WritesBytes(d, d', i, at, chunk)
  {
    var b := Ref(d, SlotOf(i, at / BSIZE));
    assert b < |d.blocks|;
    var data := SpliceBlock(d.blocks[b], at % BSIZE, chunk);
    var d' := WithBlock(d, b, data);
    WriteData(d, owner, nmeta, size, i, at / BSIZE, data);
    hide Owned, Ref;
    forall j: nat, p: nat | j != i || !(at <= p < at + |chunk|) ensures FileByte(d', j, p) == FileByte(d, j, p) {
      if j == i && p / BSIZE == at / BSIZE {
        assert p - at == p % BSIZE - at % BSIZE;
      }
    }
    forall p: nat | at <= p < at + |chunk| ensures FileByte(d', i, p) == chunk[p - at] {
      assert p / BSIZE == at / BSIZE && p - at == p % BSIZE - at % BSIZE;
    }
  }

  /** Blocks of file i that a write of n bytes at off touches. */
  function Touched(off: nat, n: nat): nat {
    if n == 0 then 0 else (off % BSIZE + n + BSIZE - 1) / BSIZE
  }

  /** Whether a write at off starts in the middle of a block the file already has. */
  ghost predicate StartsInside(d: Disk, i: nat, off: nat) {
    off % BSIZE != 0 && NoHoles(d, i)
  }

  lemma InsideIsMapped(d: Disk, i: nat, off: nat)
    requires StartsInside(d, i, off) && off <= Size(d, i)
    ensures Ref(d, SlotOf(i, off / BSIZE)) != 0
  {
    assert off / BSIZE * BSIZE < Size(d, i);
  }

  /** The blocks of file i from off up to end are there. */
  ghost predicate Covers(d: Disk, i: nat, off: nat, end: nat) {
    forall m: nat :: off / BSIZE <= m && m * BSIZE < end ==> Ref(d, SlotOf(i, m)) != 0
  }

  lemma CoversStep(d: Disk, d': Disk, i: nat, off: nat, at: nat, n: nat)
    requires off <= at && (off < at ==> Covers(d, i, off, at)) && Grows(d, d', i)
    requires at % BSIZE + n <= BSIZE && Ref(d', SlotOf(i, at / BSIZE)) != 0
    ensures Covers(d', i, off, at + n)
  {
    hide Ref;
    forall m: nat | off / BSIZE <= m && m * BSIZE < at + n ensures Ref(d', SlotOf(i, m)) != 0 {
      if m * BSIZE < at && off < at {
        assert Ref(d, SlotOf(i, m)) != 0;
      } else {
        assert m == at / BSIZE;
      }
    }
  }

  /** Two stretches of a file that meet. */
  lemma CoversJoin(d: Disk, d': Disk, i: nat, off: nat, at: nat, end: nat)
    requires off <= at <= end && (off < at ==> Covers(d, i, off, at)) && RefsGrow(d, d') && (at < end ==> Covers(d', i, at, end))
    ensures off < end ==> Covers(d', i, off, end)
  {
    hide Ref;
    if off < end {
      forall m: nat | off / BSIZE <= m && m * BSIZE < end ensures Ref(d', SlotOf(i, m)) != 0 {
        if m * BSIZE < at && off < at {
          assert Ref(d, SlotOf(i, m)) != 0;
        } else {
          assert at / BSIZE <= m;
        }
      }
    }
  }

  lemma CoversLess(d: Disk, i: nat, off: nat, end: nat, less: nat)
    requires Covers(d, i, off, end) && less <= end
    ensures Covers(d, i, off, less)
  {
    hide Ref;
  }

  /** A write leaves a file without holes without holes. */
  lemma NoHolesKept(d: Disk, d': Disk, d'': Disk, i: nat, off: nat, end: nat)
    requires NoHoles(d, i) && Grows(d, d', i) && Covers(d', i, off, end) && off <= Size(d, i)
    requires i < |d.inodes| && forall s :: Ref(d'', s) == Ref(d', s)
    requires Size(d'', i) == if end > Size(d, i) then end else Size(d, i)
    ensures NoHoles(d'', i)
  {
    hide Ref;
    forall m: nat | m * BSIZE < Size(d'', i) ensures Ref(d'', SlotOf(i, m)) != 0 {
      if m * BSIZE < Size(d, i) {
        assert Ref(d, SlotOf(i, m)) != 0;
      } else {
        assert off / BSIZE <= m;
      }
    }
  }

  lemma WriteStarts(d: Disk, i: nat, off: nat)
    requires off <= Size(d, i)
    ensures NoHoles(d, i) ==> Covers(d, i, off, off)
    ensures StartsInside(d, i, off) ==> Ref(d, SlotOf(i, off / BSIZE)) != 0
    ensures NewIndirect(d, d, i) == 0
  {
    if StartsInside(d, i, off) {
      InsideIsMapped(d, i, off);
    }
  }

  lemma CoversGrow(d: Disk, d': Disk, i: nat, off: nat, end: nat)
    requires Covers(d, i, off, end) && Grows(d, d', i)
    ensures Covers(d', i, off, end)
  {
    hide Ref;
    forall m: nat | off / BSIZE <= m && m * BSIZE < end ensures Ref(d', SlotOf(i, m)) != 0 {
      assert Ref(d, SlotOf(i, m)) != 0;
    }
  }

  /** 1 if inode i has gained its indirect block. */
  function NewIndirect(d: Disk, d': Disk, i: nat): nat {
    if Ref(d, Indirect(i)) == 0 && Ref(d', Indirect(i)) != 0 then 1 else 0
  }

  lemma NoNewIndirect(d: Disk, i: nat)
    ensures NewIndirect(d, d, i) == 0
  {
  }

  lemma IndirectGrows(d: Disk, d1: Disk, d2: Disk, i: nat)
    requires Grows(d, d1, i) && Grows(d1, d2, i)
    ensures IndirectSet(d1, i) <= IndirectSet(d2, i)
    ensures NewIndirect(d, d2, i) == NewIndirect(d, d1, i) + NewIndirect(d1, d2, i)
  {
  }

  /** After k blocks a write of n bytes at off has done total bytes: it stands at a block boundary, or at the end. */
  predicate BlockCount(off: nat, n: nat, total: nat, k: nat) {
    && k <= Touched(off, n)
    && (k == 0 ==> total == 0)
    && (0 < k && total < n ==> off + total == (off / BSIZE + k) * BSIZE)
  }

  /** Bytes from a position to the end of its block. */
  function InBlock(at: nat): nat {
    BSIZE - at % BSIZE
  }

  /** Bytes in the next round: up to the block boundary, or to the end. */
  function NextLength(off: nat, n: nat, total: nat): nat
    requires total <= n
  {
    var room := InBlock(off + total);
    if n - total < room then n - total else room
  }

  lemma CountStep(off: nat, n: nat, total: nat, k: nat)
    requires BlockCount(off, n, total, k) && total < n
    ensures var m := NextLength(off, n, total); 0 < m <= n - total && (off + total) % BSIZE + m <= BSIZE
    ensures BlockCount(off, n, total + NextLength(off, n, total), k + 1)
    ensures k == 0 ==> total == 0
    ensures off + n <= MAXFILE * BSIZE ==> (off + total) / BSIZE < MAXFILE
  {
  }

  /** A write that stopped early stands at its start or at a block boundary. */
  lemma CountAligned(off: nat, n: nat, total: nat, k: nat)
    requires BlockCount(off, n, total, k)
    ensures total < n ==> total == 0 || (off + total) % BSIZE == 0
  {
    if 0 < k && total < n {
      assert (off / BSIZE + k) * BSIZE % BSIZE == 0;
    }
  }

  lemma CountEnd(off: nat, n: nat, total: nat, k: nat)
    requires BlockCount(off, n, total, k)
    ensures k <= Touched(off, n) && (0 < total ==> 0 < k)
  {
  }

  /** Where the loop of a write of n bytes at off stands, after k blocks and total bytes. */
  predicate Position(off: nat, n: nat, total: nat, k: nat, going: bool) {
    && total <= n && k <= Touched(off, n) && (going ==> BlockCount(off, n, total, k))
    && (total < n ==> total == 0 || (off + total) % BSIZE == 0)
    && (total > 0 ==> total >= NextLength(off, n, 0))
  }

  lemma PositionStart(off: nat, n: nat)
    ensures Position(off, n, 0, 0, true)
  {
  }

  lemma PositionStep(off: nat, n: nat, total: nat, k: nat)
    requires Position(off, n, total, k, true) && total < n
    ensures Position(off, n, total + NextLength(off, n, total), k + 1, true)
    ensures Position(off, n, total, k, false) && Position(off, n, total, k + 1, false)
    ensures BlockCount(off, n, total, k) && (k == 0 ==> total == 0)
    ensures (off + total) / BSIZE * BSIZE <= off + total
  {
    hide BlockCount, Touched, NextLength;
    var m := NextLength(off, n, total);
    CountStep(off, n, total, k);
    CountEnd(off, n, total + m, k + 1);
    CountEnd(off, n, total, k);
    CountAligned(off, n, total + m, k + 1);
  }

  lemma PositionEnd(off: nat, n: nat, total: nat, k: nat, going: bool)
    requires Position(off, n, total, k, going)
    ensures total <= n && k <= Touched(off, n) && (going && 0 < total ==> 0 < k)
    ensures total < n ==> total == 0 || (off + total) % BSIZE == 0
    ensures total > 0 ==> total >= NextLength(off, n, 0)
  {
  }

  /** Where a write of src at off stands after total bytes. */
  ghost predicate Progress(d0: Disk, d: Disk, i: nat, off: nat, src: seq<Byte>, total: nat) {
    && total <= |src| && Grows(d0, d, i)
    && WritesBytes(d0, d, i, off, src[..total])
    && (NoHoles(d0, i) || total > 0 ==> Covers(d, i, off, off + total))
  }

  lemma ProgressStart(d: Disk, i: nat, off: nat, src: seq<Byte>)
    requires off <= Size(d, i)
    ensures Progress(d, d, i, off, src, 0)
  {
    WritesNothing(d, d, i, off);
    WriteStarts(d, i, off);
  }

  lemma ProgressGrows(d0: Disk, d: Disk, i: nat, off: nat, src: seq<Byte>, total: nat)
    requires Progress(d0, d, i, off, src, total)
    ensures total <= |src| && Grows(d0, d, i) && WritesBytes(d0, d, i, off, src[..total])
    ensures NoHoles(d0, i) || total > 0 ==> Covers(d, i, off, off + total)
  {
  }

  /** The next m bytes arrive. */
  lemma ProgressStep(d0: Disk, d1: Disk, d2: Disk, i: nat, off: nat, src: seq<Byte>, total: nat, m: nat)
    requires Progress(d0, d1, i, off, src, total) && Grows(d1, d2, i)
    requires total + m <= |src| && WritesBytes(d1, d2, i, off + total, src[total..total + m])
    requires (off + total) % BSIZE + m <= BSIZE && Ref(d2, SlotOf(i, (off + total) / BSIZE)) != 0
    ensures Progress(d0, d2, i, off, src, total + m)
  {
    hide Grows, WritesBytes, NoHoles, Covers, Ref;
    GrowsTrans(d0, d1, d2, i);
    WritesTrans(d0, d1, d2, i, off, src[..total], src[total..total + m]);
    assert src[..total] + src[total..total + m] == src[..total + m];
    if NoHoles(d0, i) || total + m > 0 {
      CoversStep(d1, d2, i, off, off + total, m);
    }
  }

  /** No further byte arrives. */
  lemma ProgressStop(d0: Disk, d1: Disk, d2: Disk, i: nat, off: nat, src: seq<Byte>, total: nat)
    requires Progress(d0, d1, i, off, src, total) && Grows(d1, d2, i) && SameBytes(d1, d2)
    ensures Progress(d0, d2, i, off, src, total)
  {
    hide Grows, WritesBytes, NoHoles, Covers, SameBytes;
    GrowsTrans(d0, d1, d2, i);
    WritesUnseen(d0, d1, d2, i, off, src[..total]);
    if NoHoles(d0, i) || total > 0 {
      CoversGrow(d1, d2, i, off, off + total);
    }
  }

  /** One round of a write ended: the next m bytes arrived, or no block could be had, or user memory failed. */
  lemma ProgressRound(d0: Disk, d1: Disk, d2: Disk, i: nat, off: nat, src: seq<Byte>, total: nat, m: nat, readable: nat, end: BlockEnd)
    requires Progress(d0, d1, i, off, src, total) && Grows(d1, d2, i) && total + m <= |src| && total <= readable
    requires (off + total) % BSIZE + m <= BSIZE
    requires !end.NoBlock? ==> Ref(d2, SlotOf(i, (off + total) / BSIZE)) != 0
    requires end.Wrote? ==> WritesBytes(d1, d2, i, off + total, src[total..total + m])
    requires end.Faulted? ==> readable < total + m && WritesBytes(d1, d2, i, off + total, src[total..total + m][..readable - total])
    requires end.NoBlock? ==> SameBytes(d1, d2)
    ensures end.Wrote? ==> Progress(d0, d2, i, off, src, total + m)
    ensures end.Faulted? ==> Progress(d0, d2, i, off, src, readable)
    ensures end.NoBlock? ==> Progress(d0, d2, i, off, src, total)
  {
    hide Progress, Grows, WritesBytes, SameBytes, Ref, SlotOf;
    match end
    case Wrote => ProgressStep(d0, d1, d2, i, off, src, total, m);
    case Faulted =>
      assert src[total..total + m][..readable - total] == src[total..readable];
      ProgressStep(d0, d1, d2, i, off, src, total, readable - total);
    case NoBlock => ProgressStop(d0, d1, d2, i, off, src, total);
  }

  /**
    The account of a write after k blocks: what has been logged, at most k blocks of data, and at
    most a block of the free map per allocation; and in how many calls, at most 4 for a block and
    2 for the indirect block. If the write starts inside a block, that one needed no allocation.
  */
  ghost predicate Ledger(d0: Disk, d: Disk, i: nat, inside: bool, k: nat, logged0: set<nat>, logged: set<nat>,
                         data: set<nat>, maps: set<nat>, calls0: nat, calls: nat) {
    && Within(logged0, logged, data, maps, IndirectSet(d, i))
    && |data| <= k
    && |maps| + (if inside && k > 0 then 1 else 0) <= k + NewIndirect(d0, d, i)
    && calls + (if inside && k > 0 then 3 else 0) <= calls0 + 4 * k + 2 * NewIndirect(d0, d, i)
  }

  predicate Within(logged0: set<nat>, logged: set<nat>, data: set<nat>, maps: set<nat>, indirect: set<nat>) {
    logged <= logged0 + data + maps + indirect
  }

  lemma LedgerStep(d0: Disk, d1: Disk, d2: Disk, i: nat, inside: bool, k: nat, logged0: set<nat>, logged1: set<nat>,
                   logged2: set<nat>, data: set<nat>, maps: set<nat>, maps1: set<nat>, b: set<nat>,
                   calls0: nat, calls1: nat, calls2: nat)
    requires Ledger(d0, d1, i, inside, k, logged0, logged1, data, maps, calls0, calls1)
    requires Grows(d0, d1, i) && Grows(d1, d2, i)
    requires logged2 <= logged1 + maps1 + IndirectSet(d2, i) + b
    requires |maps1| <= |b| + NewIndirect(d1, d2, i) && |b| <= 1
    requires calls2 <= calls1 + 4 * |b| + 2 * NewIndirect(d1, d2, i)
    requires inside && k == 0 ==> |b| == 1 && |maps1| == 0 && calls2 <= calls1 + 1
    ensures Ledger(d0, d2, i, inside, k + |b|, logged0, logged2, data + b, maps + maps1, calls0, calls2)
  {
    hide Grows, IndirectSet, NewIndirect, Within;
    IndirectGrows(d0, d1, d2, i);
    UnionStep(logged0, logged1, logged2, data, maps, maps1, IndirectSet(d1, i), IndirectSet(d2, i), b);
    UnionSize(maps, maps1);
    UnionSize(data, b);
  }

  /** The account of a block mapped through the indirect block. */
  lemma ThroughLedger(d: Disk, d': Disk, i: nat, ind: nat, l0: set<nat>, l1: set<nat>, l2: set<nat>, m1: set<nat>, m2: set<nat>,
                      b: set<nat>)
    requires Ref(d', Indirect(i)) == ind != 0
    requires l1 <= l0 + m1 + {ind} && l2 <= l1 + m2 + {ind} + b
    requires |m1| <= (if Ref(d, Indirect(i)) == 0 then 1 else 0) && |m2| <= |b|
    ensures l2 <= l0 + (m1 + m2) + IndirectSet(d', i) + b
    ensures |m1 + m2| <= |b| + NewIndirect(d, d', i)
    ensures NewIndirect(d, d', i) == if Ref(d, Indirect(i)) == 0 then 1 else 0
  {
    hide Ref;
    UnionTwo(l0, l1, l2, m1, m2, {ind}, b);
    UnionSize(m1, m2);
  }

  lemma UnionTwo(l0: set<nat>, l1: set<nat>, l2: set<nat>, m1: set<nat>, m2: set<nat>, i: set<nat>, b: set<nat>)
    requires l1 <= l0 + m1 + i && l2 <= l1 + m2 + i + b
    ensures l2 <= l0 + (m1 + m2) + i + b
  {
  }

  lemma UnionStep(l0: set<nat>, l1: set<nat>, l2: set<nat>, a: set<nat>, m: set<nat>, m1: set<nat>,
                  i1: set<nat>, i2: set<nat>, b: set<nat>)
    requires Within(l0, l1, a, m, i1) && i1 <= i2 && l2 <= l1 + m1 + i2 + b
    ensures Within(l0, l2, a + b, m + m1, i2)
  {
  }

  lemma LedgerEnd(d0: Disk, d: Disk, i: nat, inside: bool, k: nat, logged0: set<nat>, logged: set<nat>,
                  data: set<nat>, maps: set<nat>, calls0: nat, calls: nat)
    requires Ledger(d0, d, i, inside, k, logged0, logged, data, maps, calls0, calls)
    ensures logged <= logged0 + data + maps + IndirectSet(d, i)
    ensures |data| <= k && |maps| <= k + (if inside && k > 0 then 0 else 1)
    ensures calls <= calls0 + 4 * k + 2 - (if inside && k > 0 then 3 else 0)
  {
  }

  lemma LedgerStart(d: Disk, i: nat, inside: bool, logged: set<nat>, calls: nat)
    ensures Ledger(d, d, i, inside, 0, logged, logged, {}, {}, calls, calls)
  {
  }

  // ---------- Contents ----------

  /** A sequence with data written over it at off, which is no further than its end. */
  function SpliceFile(c: seq<Byte>, off: nat, data: seq<Byte>): seq<Byte>
    requires off <= |c|
  {
    c[..off] + data + (if off + |data| < |c| then c[off + |data|..] else [])
  }

  /** The same, but of what goes past the end only the bytes up to position end count. */
  function SpliceUpTo(c: seq<Byte>, off: nat, data: seq<Byte>, end: nat): seq<Byte>
    requires off <= |c| && end <= off + |data|
  {
    SpliceFile(c, off, data)[..if end > |c| then end else |c|]
  }

  /** Writing bytes and extending the size to hold the first of them splices the contents of that file alone. */
  lemma ContentSpliced(d: Disk, d': Disk, i: nat, off: nat, data: seq<Byte>, end: nat)
    requires off <= Size(d, i) && WritesBytes(d, d', i, off, data) && end <= off + |data|
    requires Size(d', i) == if end > Size(d, i) then end else Size(d, i)
    requires forall j: nat :: j != i ==> Size(d', j) == Size(d, j)
    ensures |Content(d, i)| == Size(d, i) && Content(d', i) == SpliceUpTo(Content(d, i), off, data, end)
    ensures forall j: nat :: j != i ==> Content(d', j) == Content(d, j)
  {
    hide FileByte, Size;
    var c := SpliceUpTo(Content(d, i), off, data, end);
    forall p: nat | p < Size(d', i) ensures Content(d', i)[p] == c[p] {
      assert Content(d', i)[p] == FileByte(d', i, p);
    }
    forall j: nat | j != i ensures Content(d', j) == Content(d, j) {
      forall p: nat | p < Size(d, j) ensures Content(d', j)[p] == Content(d, j)[p] {
        assert FileByte(d', j, p) == FileByte(d, j, p);
      }
    }
  }

  /** Blocks are never given up by a write, so a full disk stays full. */
  lemma FullStays(d: Disk, bits: Bits, d': Disk, bits': Bits, size: nat, i: nat, off: nat, len: nat)
    requires Pays(d, bits, d', bits', size, i, off, len) && RefsGrow(d, d')
    ensures size <= 8 * |bits| && size <= 8 * |bits'| && (Full(bits, size) ==> Full(bits', size))
  {
    hide FreeCount, Full, Ref, SlotOf;
    var lo, hi := off / BSIZE, EndBlock(off + len);
    assert Balanced(d, bits, d', bits', size, i, lo, hi);
    assert Holes(d', i, lo, hi) <= Holes(d, i, lo, hi);
    SubsetSize(Holes(d', i, lo, hi), Holes(d, i, lo, hi));
    FullCount(bits, size);
    FullCount(bits', size);
  }

  // ---------- Giving blocks up ----------

  /** Ownership without the first k direct blocks of inode i. */
  function WithoutDirect(owner: map<nat, Slot>, i: nat, k: nat): map<nat, Slot> {
    map b | b in owner && !(owner[b].Direct? && owner[b].i == i && owner[b].k < k) :: owner[b]
  }

  /** Ownership without the blocks in the first k indirect entries of inode i. */
  function WithoutEntries(owner: map<nat, Slot>, i: nat, k: nat): map<nat, Slot> {
    map b | b in owner && !(owner[b].Entry? && owner[b].i == i && owner[b].k < k) :: owner[b]
  }

  lemma WithoutNone(owner: map<nat, Slot>, i: nat)
    ensures WithoutDirect(owner, i, 0) == owner && WithoutEntries(owner, i, 0) == owner
  {
  }

  lemma DirectStep(d: Disk, owner: map<nat, Slot>, owner0: map<nat, Slot>, nmeta: nat, size: nat, i: nat, k: nat)
    requires Owned(d, owner, nmeta, size) && i < |d.inodes| && k < NDIRECT && owner == WithoutDirect(owner0, i, k)
    ensures Ref(d, Direct(i, k)) == 0 ==> WithoutDirect(owner0, i, k + 1) == owner
    ensures Ref(d, Direct(i, k)) != 0 ==> WithoutDirect(owner0, i, k + 1) == owner - {Ref(d, Direct(i, k))}
  {
    forall b | b in owner0 && owner0[b] == Direct(i, k) ensures Ref(d, Direct(i, k)) == b {
      assert b in owner && owner[b] == Direct(i, k);
    }
  }

  lemma EntryStep(d: Disk, owner: map<nat, Slot>, nmeta: nat, size: nat, i: nat, k: nat)
    requires Owned(d, owner, nmeta, size) && i < |d.inodes| && k < NINDIRECT
    ensures Ref(d, Entry(i, k)) == 0 ==> WithoutEntries(owner, i, k + 1) == WithoutEntries(owner, i, k)
    ensures Ref(d, Entry(i, k)) != 0 ==>
              && WithoutEntries(owner, i, k + 1) == WithoutEntries(owner, i, k) - {Ref(d, Entry(i, k))}
              && Ref(d, Entry(i, k)) in WithoutEntries(owner, i, k)
  {
    var b := Ref(d, Entry(i, k));
    assert b != 0 ==> b in owner && owner[b] == Entry(i, k);
    forall c | c in owner && owner[c] == Entry(i, k) ensures c == b {
    }
    hide Ref, Owned;
  }

  /** A block held by a slot is a data block with its owner. */
  lemma HeldBlock(d: Disk, owner: map<nat, Slot>, nmeta: nat, size: nat, s: Slot)
    requires Owned(d, owner, nmeta, size) && Ref(d, s) != 0
    ensures nmeta <= Ref(d, s) < size && Ref(d, s) in owner && owner[Ref(d, s)] == s
  {
  }

  lemma BitsDetach(bits: Bits, owner: map<nat, Slot>, nmeta: nat, size: nat, b: nat)
    requires BitsMatch(bits, owner, nmeta, size) && nmeta <= b < size && b in owner
    ensures size <= 8 * |bits| && Bit(bits, b)
    ensures BitsMatch(ClearBit(bits, b), owner - {b}, nmeta, size)
  {
    hide Bit, ClearBit;
    forall c | 0 <= c < size ensures Bit(ClearBit(bits, b), c) <==> c < nmeta || c in owner - {b} {
      ClearOneBit(bits, b, c);
    }
  }

  lemma BeyondDirect(d: Disk)
    ensures forall s: Slot :: s.Direct? && s.k >= NDIRECT ==> Ref(d, s) == 0
  {
  }

  /** Ownership without any block of inode i. */
  function WithoutInode(owner: map<nat, Slot>, i: nat): map<nat, Slot> {
    map b | b in owner && owner[b].i != i :: owner[b]
  }

  lemma WithoutAll(d: Disk, owner: map<nat, Slot>, owner0: map<nat, Slot>, nmeta: nat, size: nat, i: nat)
    requires Owned(d, owner, nmeta, size) && owner == WithoutDirect(owner0, i, NDIRECT)
    requires forall b :: b in owner0 && owner0[b].Direct? ==> owner0[b].k < NDIRECT
    ensures owner - IndirectBlocks(owner, i) == WithoutInode(owner0, i)
    ensures Ref(d, Indirect(i)) == 0 ==> owner - IndirectBlocks(owner, i) == owner
    ensures Ref(d, Indirect(i)) != 0 ==>
              owner - IndirectBlocks(owner, i) == WithoutEntries(owner, i, NINDIRECT) - {Ref(d, Indirect(i))}
  {
    forall b | b in owner && owner[b].i == i && !owner[b].Direct?
      ensures Ref(d, Indirect(i)) != 0 && (b == Ref(d, Indirect(i)) || (owner[b].Entry? && owner[b].k < NINDIRECT))
    {
      assert Ref(d, owner[b]) == b;
      if owner[b].Entry? {
        EntryNeedsIndirect(d, i, owner[b].k);
      }
    }
  }

  lemma DirectsInRange(d: Disk, owner: map<nat, Slot>, nmeta: nat, size: nat)
    requires Owned(d, owner, nmeta, size)
    ensures forall b :: b in owner && owner[b].Direct? ==> owner[b].k < NDIRECT
  {
    forall b | b in owner && owner[b].Direct? ensures owner[b].k < NDIRECT {
      assert Ref(d, owner[b]) == b;
    }
  }

  lemma SameAddr(d: Disk, i: nat)
    requires i < |d.inodes| && |d.inodes[i].addrs| == NDIRECT + 1 && d.inodes[i].addrs[NDIRECT] == 0
    ensures WithAddr(d, i, NDIRECT, 0) == d
  {
    assert d.inodes[i].addrs[NDIRECT := 0] == d.inodes[i].addrs;
    assert d.inodes[i := d.inodes[i]] == d.inodes;
  }

  /** Other files are what their own slots say. */
  lemma OthersSeen(d: Disk, d': Disk, i: nat)
    requires d'.blocks == d.blocks && forall s: Slot :: s.i != i ==> Ref(d', s) == Ref(d, s)
    ensures forall j: nat, p: nat :: j != i ==> FileByte(d', j, p) == FileByte(d, j, p)
  {
    hide Ref;
  }

  lemma Emptied(d: Disk, owner: map<nat, Slot>, nmeta: nat, size: nat, i: nat)
    requires Owned(d, owner, nmeta, size) && i < |d.inodes|
    requires forall s: Slot :: s.i == i ==> Ref(d, s) == 0
    ensures forall k :: 0 <= k < |d.inodes[i].addrs| ==> d.inodes[i].addrs[k] == 0
  {
    forall k | 0 <= k < |d.inodes[i].addrs| ensures d.inodes[i].addrs[k] == 0 {
      DirectRef(d, owner, nmeta, size, i, k);
      assert Ref(d, Indirect(i)) == 0;
      assert Ref(d, Direct(i, k)) == 0;
    }
  }

  lemma BitsFollow(bits: Bits, bits': Bits, d: Disk, owner: map<nat, Slot>, nmeta: nat, size: nat, i: nat)
    requires Owned(d, owner, nmeta, size) && BitsMatch(bits, owner, nmeta, size)
    requires BitsMatch(bits', WithoutInode(owner, i), nmeta, size)
    ensures size <= 8 * |bits| && size <= 8 * |bits'|
    ensures forall b :: 0 <= b < size ==> (Bit(bits', b) <==> Bit(bits, b) && !(b in owner && owner[b].i == i))
  {
    hide Bit, Ref;
  }

  lemma IndirectStays(owner: map<nat, Slot>, i: nat, b: nat)
    requires b in owner && owner[b] == Indirect(i)
    ensures b in WithoutEntries(owner, i, NINDIRECT)
  {
  }

  lemma {:induction false} UnionSize<T>(a: set<T>, b: set<T>)
    ensures |a + b| <= |a| + |b|
  {
    assert a + b == a + (b - a);
    assert |a + (b - a)| == |a| + |b - a|;
    assert b == (b - a) + (b * a);
  }

  lemma ContentSize(d: Disk, i: nat)
    ensures |Content(d, i)| == Size(d, i)
    ensures i < |d.inodes| ==> Size(d, i) == d.inodes[i].size
  {
  }

  lemma GrowsRefs(d: Disk, d': Disk, i: nat)
    requires Grows(d, d', i)
    ensures RefsGrow(d, d')
  {
  }

  lemma SizesKept(d: Disk, d': Disk, i: nat)
    requires Grows(d, d', i)
    ensures |d'.inodes| == |d.inodes| && forall j: nat :: Size(d', j) == Size(d, j)
    ensures forall j :: 0 <= j < |d.inodes| && j != i ==> d'.inodes[j] == d.inodes[j]
  {
  }

  lemma SizesSet(d: Disk, d1: Disk, d2: Disk, i: nat, size: nat)
    requires i < |d1.inodes| && d2 == WithSize(d1, i, size) && forall j: nat :: Size(d1, j) == Size(d, j)
    ensures forall j: nat :: Size(d2, j) == if j == i then size else Size(d, j)
  {
    forall j: nat ensures Size(d2, j) == if j == i then size else Size(d, j) {
      assert Size(d1, j) == Size(d, j);
    }
  }

  lemma IndirectSame(d: Disk, d': Disk, i: nat)
    requires forall s :: Ref(d', s) == Ref(d, s)
    ensures IndirectSet(d', i) == IndirectSet(d, i)
  {
    hide Ref;
  }

  /** Part of a block of a file is that part of its contents. */
  lemma BlockBytes(d: Disk, owner: map<nat, Slot>, nmeta: nat, size: nat, i: nat, at: nat, m: nat)
    requires Owned(d, owner, nmeta, size) && Ref(d, SlotOf(i, at / BSIZE)) != 0
    requires at % BSIZE + m <= BSIZE && at + m <= Size(d, i)
    ensures
      var b := Ref(d, SlotOf(i, at / BSIZE));
      b < |d.blocks| && |Content(d, i)| == Size(d, i)
      && d.blocks[b][at % BSIZE..at % BSIZE + m] == Content(d, i)[at..at + m]
  {
    var b := Ref(d, SlotOf(i, at / BSIZE));
    assert b < |d.blocks|;
    hide Owned, Ref;
    var part, bytes := d.blocks[b][at % BSIZE..at % BSIZE + m], Content(d, i)[at..at + m];
    forall k | 0 <= k < m ensures part[k] == bytes[k] {
      assert (at + k) / BSIZE == at / BSIZE && (at + k) % BSIZE == at % BSIZE + k;
      assert Content(d, i)[at + k] == FileByte(d, i, at + k);
    }
  }

  lemma SliceJoin(c: seq<Byte>, a: nat, b: nat, e: nat)
    requires a <= b <= e <= |c|
    ensures c[a..b] + c[b..e] == c[a..e]
  {
  }

  const MAXOPBLOCKS: nat := 10
  const MAXCHUNK: nat := (MAXOPBLOCKS - 1 - 1 - 2) / 2 * BSIZE

  const MAXCHUNKCALLS: nat := 16

  lemma TouchedByChunk(off: nat, n: nat)
    requires n <= MAXCHUNK
    ensures Touched(off, n) <= if off % BSIZE == 0 then 3 else 4
    ensures n == 0 ==> Touched(off, n) == 0
  {
  }

  /**
    What one chunk logs: at most 4 blocks of data, 4 of the free map, the indirect block and the
    inode's block. A chunk that touches 4 blocks starts inside the first, which is there already.
    The calls can be more than the blocks, as the same block is logged again.
  */
  lemma ChunkBound(d: Disk, d': Disk, i: nat, off: nat, n: nat, logged: set<nat>, data: set<nat>, maps: set<nat>, inodeBlock: nat,
                   calls0: nat, calls: nat)
    requires NoHoles(d, i) && n <= MAXCHUNK
    requires logged <= {} + data + maps + IndirectSet(d', i) + {inodeBlock}
    requires |data| <= Touched(off, n) && |maps| <= Touched(off, n) + (if StartsInside(d, i, off) && n > 0 then 0 else 1)
    requires calls <= calls0 + 4 * Touched(off, n) + 3 - (if StartsInside(d, i, off) && n > 0 then 3 else 0)
    ensures |data| <= 4 && |maps| <= 4 && |logged| <= MAXOPBLOCKS && calls <= calls0 + MAXCHUNKCALLS
  {
    TouchedByChunk(off, n);
    var rest := IndirectSet(d', i) + {inodeBlock};
    UnionSize(IndirectSet(d', i), {inodeBlock});
    UnionSize(data, maps);
    UnionSize(data + maps, rest);
    SubsetSize(logged, data + maps + rest);
  }

  /** If the free map is one block, a chunk logs at most that, 4 blocks of data, the indirect block and the inode's block. */
  lemma OneMapBound(d: Disk, i: nat, off: nat, n: nat, logged: set<nat>, data: set<nat>, maps: set<nat>, inodeBlock: nat)
    requires n <= MAXCHUNK && |data| <= Touched(off, n) && |maps| <= 1
    requires logged <= {} + data + maps + IndirectSet(d, i) + {inodeBlock}
    ensures |logged| <= 7
  {
    TouchedByChunk(off, n);
    var rest := IndirectSet(d, i) + {inodeBlock};
    UnionSize(IndirectSet(d, i), {inodeBlock});
    UnionSize(data, maps);
    UnionSize(data + maps, rest);
    SubsetSize(logged, data + maps + rest);
  }

  lemma {:induction false} SubsetSize<T>(a: set<T>, b: set<T>)
    requires a <= b
    ensures |a| <= |b|
  {
    assert b == a + (b - a);
  }

  /** A length taken as a 32-bit word. */
  function Cast(src: seq<Byte>): (cut: seq<Byte>)
    ensures |cut| < WORDS && (|src| < WORDS ==> cut == src)
  {
    src[..|src| % WORDS]
  }

  datatype WriteEnd = Finished | Refused | StillGoing
  datatype ReadEnd = Bytes(data: seq<Byte>) | IoError | OutsideOfTrans

  lemma SpliceNothing(c: seq<Byte>, off: nat)
    requires off <= |c|
    ensures SpliceUpTo(c, off, [], off) == c
  {
  }

  /** Writing all of data up to its end is a splice. */
  lemma SpliceAll(c: seq<Byte>, off: nat, data: seq<Byte>)
    requires off <= |c|
    ensures SpliceUpTo(c, off, data, off + |data|) == SpliceFile(c, off, data)
  {
  }

  lemma SpliceNone(c: seq<Byte>, off: nat)
    requires off <= |c|
    ensures SpliceFile(c, off, []) == c
  {
  }

  /** A write within one block that stops early has done nothing. */
  lemma WithinBlock(off: nat, n: nat, total: nat)
    requires off % BSIZE + n <= BSIZE && total <= n && (total > 0 ==> total >= NextLength(off, n, 0))
    ensures total == 0 || total == n
  {
  }

  /** Having one block of a file depends on what it needs and what is free. */
  lemma OneBlock(d: Disk, bits: Bits, d': Disk, bits': Bits, size: nat, i: nat, off: nat)
    requires size <= 8 * |bits| && size <= 8 * |bits'| && PaidAt(d, bits, d', bits', size, i, off / BSIZE)
    ensures Ref(d', SlotOf(i, off / BSIZE)) != 0 ==> Suffices(d, bits, size, i, off, 1)
    ensures Blocked(d', bits', size, SlotOf(i, off / BSIZE)) ==> !Suffices(d, bits, size, i, off, 1)
  {
    hide Need, FreeCount, Ref, SlotOf, Full;
    forall lo: nat, hi: nat | lo <= off / BSIZE && off + 1 <= hi * BSIZE ensures Balanced(d, bits, d', bits', size, i, lo, hi) {
      assert off / BSIZE < hi;
    }
    assert Pays(d, bits, d', bits', size, i, off, 1);
    if Ref(d', SlotOf(i, off / BSIZE)) != 0 {
      forall m: nat | off / BSIZE <= m && m * BSIZE < off + 1 ensures Ref(d', SlotOf(i, m)) != 0 {
        assert m == off / BSIZE;
      }
      Sufficed(d, bits, d', bits', size, i, off, 1);
    } else if Blocked(d', bits', size, SlotOf(i, off / BSIZE)) {
      FellShort(d, bits, d', bits', size, i, off, 1, off);
    }
  }

  lemma SpliceSize(c: seq<Byte>, off: nat, data: seq<Byte>, end: nat)
    requires off <= |c| && off <= end <= off + |data|
    ensures |SpliceUpTo(c, off, data, end)| == if end > |c| then end else |c|
  {
  }

  /** Going on with src where the write stood, at pos, after its bytes up to wrote had arrived. */
  lemma SpliceAgain(c: seq<Byte>, off: nat, src: seq<Byte>, pos: nat, wrote: nat, pos': nat, wrote': nat)
    requires off <= |c| && pos <= wrote <= |src| && pos <= pos' <= wrote' <= |src|
    ensures off + pos <= |SpliceUpTo(c, off, src[..wrote], off + pos)|
    ensures
      var most := if wrote' > wrote then wrote' else wrote;
      SpliceUpTo(SpliceUpTo(c, off, src[..wrote], off + pos), off + pos, src[pos..wrote'], off + pos')
      == SpliceUpTo(c, off, src[..most], off + pos')
  {
    hide SpliceUpTo;
    var most := if wrote' > wrote then wrote' else wrote;
    var c1 := SpliceUpTo(c, off, src[..wrote], off + pos);
    SpliceSize(c, off, src[..wrote], off + pos);
    var c2, c3 := SpliceUpTo(c1, off + pos, src[pos..wrote'], off + pos'), SpliceUpTo(c, off, src[..most], off + pos');
    SpliceSize(c1, off + pos, src[pos..wrote'], off + pos');
    SpliceSize(c, off, src[..most], off + pos');
    forall p | 0 <= p < |c3| ensures c2[p] == c3[p] {
      SpliceAt(c1, off + pos, src[pos..wrote'], off + pos', p);
      SpliceAt(c, off, src[..most], off + pos', p);
      if p < |c1| {
        SpliceAt(c, off, src[..wrote], off + pos, p);
      }
    }
  }

  lemma SpliceAt(c: seq<Byte>, off: nat, data: seq<Byte>, end: nat, p: nat)
    requires off <= |c| && off <= end <= off + |data| && p < |SpliceUpTo(c, off, data, end)|
    ensures if off <= p < off + |data| then SpliceUpTo(c, off, data, end)[p] == data[p - off]
            else p < |c| && SpliceUpTo(c, off, data, end)[p] == c[p]
  {
    SpliceSize(c, off, data, end);
  }

  lemma RefsStay(d: Disk)
    ensures RefsGrow(d, d)
  {
  }

  /** A part of what is to be paid. */
  lemma PaysChunk(d: Disk, bits: Bits, d1: Disk, bits1: Bits, d2: Disk, bits2: Bits, size: nat, i: nat, off: nat, len: nat,
                  pos: nat, n: nat)
    requires Pays(d, bits, d1, bits1, size, i, off, len) && Pays(d1, bits1, d2, bits2, size, i, off + pos, n) && pos + n <= len
    ensures Pays(d, bits, d2, bits2, size, i, off, len)
  {
    hide Need, FreeCount;
    forall lo: nat, hi: nat | lo <= off / BSIZE && off + len <= hi * BSIZE ensures Balanced(d, bits, d2, bits2, size, i, lo, hi) {
      assert Balanced(d, bits, d1, bits1, size, i, lo, hi);
      assert off / BSIZE <= (off + pos) / BSIZE;
      assert Balanced(d1, bits1, d2, bits2, size, i, lo, hi);
    }
  }

  /** The end of a write: the new size is set. */
  lemma WriteFinish(d: Disk, d1: Disk, d2: Disk, bits: Bits, bits1: Bits, size: nat, i: nat, off: nat, src: seq<Byte>,
                    total: nat, wrote: nat, newSize: nat, len: nat)
    requires i < |d.inodes| && |d1.inodes| == |d.inodes| && d2 == WithSize(d1, i, newSize) && Grows(d, d1, i)
    requires off <= Size(d, i) && newSize == if off + total > Size(d, i) then off + total else Size(d, i)
    requires total <= wrote <= |src| && WritesBytes(d, d1, i, off, src[..wrote]) && SameBytes(d1, d2)
    requires forall s :: Ref(d2, s) == Ref(d1, s)
    requires NoHoles(d, i) || total > 0 ==> Covers(d1, i, off, off + total)
    requires Pays(d, bits, d1, bits1, size, i, off, len)
    ensures |Content(d, i)| == Size(d, i) && Content(d2, i) == SpliceUpTo(Content(d, i), off, src[..wrote], off + total)
    ensures forall j: nat :: j != i ==> Content(d2, j) == Content(d, j)
    ensures total > 0 ==> Covers(d2, i, off, off + total)
    ensures NoHoles(d, i) ==> NoHoles(d2, i)
    ensures RefsGrow(d, d2)
    ensures forall s, b: Bits :: size <= 8 * |b| ==> (Blocked(d2, b, size, s) <==> Blocked(d1, b, size, s))
    ensures Pays(d, bits, d2, bits1, size, i, off, len)
  {
    hide WritesBytes, SameBytes, Ref, Pays, NoHoles, Content, SpliceUpTo, Full, Covers;
    SizesKept(d, d1, i);
    SizesSet(d, d1, d2, i, newSize);
    WritesUnseen(d, d1, d2, i, off, src[..wrote]);
    ContentSpliced(d, d2, i, off, src[..wrote], off + total);
    PaysSame(d, bits, d1, bits1, d2, size, i, off, len);
    if NoHoles(d, i) {
      NoHolesKept(d, d1, d2, i, off, off + total);
    }
    if total > 0 {
      CoversSame(d1, d2, i, off, off + total);
    }
  }

  lemma CoversSame(d: Disk, d': Disk, i: nat, off: nat, end: nat)
    requires Covers(d, i, off, end) && forall s :: Ref(d', s) == Ref(d, s)
    ensures Covers(d', i, off, end)
  {
    hide Ref;
    forall m: nat | off / BSIZE <= m && m * BSIZE < end ensures Ref(d', SlotOf(i, m)) != 0 {
      assert Ref(d, SlotOf(i, m)) != 0;
    }
  }

  /** How far a write of n bytes that stands at total has looked: at the next byte, unless it is done. */
  function Past(total: nat, n: nat): nat {
    if total < n then total + 1 else total
  }

  /** Where the write of src at off to an open file stands: at pos, the bytes up to wrote having arrived. */
  ghost predicate Writing(d0: Disk, bits0: Bits, d: Disk, bits: Bits, size: nat, i: nat, off: nat, src: seq<Byte>, pos: nat, wrote: nat) {
    && off <= |Content(d0, i)| && pos <= wrote <= |src|
    && Content(d, i) == SpliceUpTo(Content(d0, i), off, src[..wrote], off + pos)
    && (forall j: nat :: j != i ==> Content(d, j) == Content(d0, j))
    && (pos > 0 ==> off + pos <= MAXFILE * BSIZE && Covers(d, i, off, off + pos))
    && RefsGrow(d0, d) && Pays(d0, bits0, d, bits, size, i, off, Past(pos, |src|))
  }

  lemma WritingStart(d: Disk, bits: Bits, size: nat, i: nat, off: nat, src: seq<Byte>)
    requires off <= |Content(d, i)| && size <= 8 * |bits|
    ensures Writing(d, bits, d, bits, size, i, off, src, 0, 0)
  {
    hide Pays;
    SpliceNothing(Content(d, i), off);
    PaidNothing(d, bits, size, i, 0, off, Past(0, |src|));
  }

  /** A chunk was written. */
  lemma WritingStep(d0: Disk, bits0: Bits, d1: Disk, bits1: Bits, d2: Disk, bits2: Bits, size: nat, i: nat, off: nat, src: seq<Byte>,
                    pos: nat, wrote: nat, n: nat, w: nat, wrote1: nat)
    requires Writing(d0, bits0, d1, bits1, size, i, off, src, pos, wrote)
    requires 0 < n && pos + n <= |src| && w <= wrote1 <= n && off + pos + n <= MAXFILE * BSIZE && off + pos <= |Content(d1, i)|
    requires Content(d2, i) == SpliceUpTo(Content(d1, i), off + pos, src[pos..pos + n][..wrote1], off + pos + w)
    requires forall j: nat :: j != i ==> Content(d2, j) == Content(d1, j)
    requires RefsGrow(d1, d2) && (w > 0 ==> Covers(d2, i, off + pos, off + pos + w))
    requires Pays(d1, bits1, d2, bits2, size, i, off + pos, Past(w, n))
    ensures Writing(d0, bits0, d2, bits2, size, i, off, src, pos + w, if pos + wrote1 > wrote then pos + wrote1 else wrote)
  {
    hide Pays, Covers, RefsGrow, Content, SpliceUpTo;
    var len := Past(pos + w, |src|);
    PaysMore(d0, bits0, d1, bits1, size, i, off, Past(pos, |src|), len);
    PaysChunk(d0, bits0, d1, bits1, d2, bits2, size, i, off, len, pos, Past(w, n));
    CoversJoin(d1, d2, i, off, off + pos, off + pos + w);
    RefsGrowTrans(d0, d1, d2);
    SpliceAgain(Content(d0, i), off, src, pos, wrote, pos + w, pos + wrote1);
    assert src[pos..pos + n][..wrote1] == src[pos..pos + wrote1];
  }

  lemma RefsGrowTrans(d: Disk, d1: Disk, d2: Disk)
    requires RefsGrow(d, d1) && RefsGrow(d1, d2)
    ensures RefsGrow(d, d2)
  {
    hide Ref;
    forall s | Ref(d, s) != 0 ensures Ref(d2, s) == Ref(d, s) {
      assert Ref(d1, s) == Ref(d, s);
    }
  }

  lemma WritingSize(d0: Disk, bits0: Bits, d: Disk, bits: Bits, size: nat, i: nat, off: nat, src: seq<Byte>, pos: nat, wrote: nat)
    requires Writing(d0, bits0, d, bits, size, i, off, src, pos, wrote)
    ensures off + pos <= |Content(d, i)| == Size(d, i)
  {
    hide Pays, Covers, RefsGrow;
    SpliceSize(Content(d0, i), off, src[..wrote], off + pos);
  }

  /** A write past a byte had the blocks up to there; one that cannot have its next block did not have those after. */
  lemma WritingReach(d0: Disk, bits0: Bits, d: Disk, bits: Bits, size: nat, i: nat, off: nat, src: seq<Byte>, pos: nat, wrote: nat, len: nat)
    requires Writing(d0, bits0, d, bits, size, i, off, src, pos, wrote) && size <= 8 * |bits0| && size <= 8 * |bits| && len <= |src|
    ensures len <= pos ==> Suffices(d0, bits0, size, i, off, len)
    ensures pos < len && Blocked(d, bits, size, SlotOf(i, (off + pos) / BSIZE)) ==> !Suffices(d0, bits0, size, i, off, len)
  {
    hide Pays, Covers, Content, SpliceUpTo, Blocked, Need, FreeCount, RefsGrow;
    if 0 < len <= pos {
      CoversLess(d, i, off, off + pos, off + len);
      SufficedShort(d0, bits0, d, bits, size, i, off, Past(pos, |src|), len);
    }
    if pos < len && Blocked(d, bits, size, SlotOf(i, (off + pos) / BSIZE)) {
      PaysMore(d0, bits0, d, bits, size, i, off, Past(pos, |src|), len);
      FellShort(d0, bits0, d, bits, size, i, off, len, off + pos);
    }
  }

  // ---------- The loop of a write to an open file ----------

  /** Bytes from a position to the end of its chunk. */
  function InChunk(pos: nat): nat {
    MAXCHUNK - pos % MAXCHUNK
  }

  /**
    The bytes that arrive together at position pos of a write of n bytes at off: up to the end of the
    block, of the chunk, or of the write.
   */
  function Together(off: nat, n: nat, pos: nat): nat
    requires pos <= n
  {
    var m := if InBlock(off + pos) < InChunk(pos) then InBlock(off + pos) else InChunk(pos);
    if n - pos < m then n - pos else m
  }

  /** Positions at which such a stretch of bytes can begin. */
  predicate Stop(off: nat, pos: nat) {
    pos % MAXCHUNK == 0 || (off + pos) % BSIZE == 0
  }

  lemma StopsApart(off: nat, n: nat, p: nat, q: nat)
    requires p < q <= n && Stop(off, q)
    ensures p + Together(off, n, p) <= q
  {
    if q % MAXCHUNK == 0 {
      NextMultiple(p, q, MAXCHUNK);
    } else {
      NextMultiple(off + p, off + q, BSIZE);
    }
  }

  lemma NextMultiple(p: nat, q: nat, m: nat)
    requires m > 0 && p < q && q % m == 0
    ensures p + (m - p % m) <= q
  {
    var a, b := p / m, q / m;
    assert p == a * m + p % m && q == b * m;
    assert a < b;
    assert (a + 1) * m <= b * m;
    assert (a + 1) * m == a * m + m;
  }

  /** Within a chunk that starts at pos, a write stands at w: the bytes that come together are those of the whole write. */
  lemma TogetherInChunk(off: nat, len: nat, pos: nat, n: nat, w: nat)
    requires pos < len && n == (if len - pos < MAXCHUNK then len - pos else MAXCHUNK) && w < n
    ensures pos % MAXCHUNK == 0 ==> NextLength(off + pos, n, w) == Together(off, len, pos + w)
    ensures Together(off, len, pos) <= NextLength(off + pos, n, 0)
  {
    hide InBlock, InChunk;
    InChunkAt(pos, w);
    InChunkAt(pos, 0);
    assert off + pos + w == off + (pos + w);
  }

  lemma InChunkAt(pos: nat, w: nat)
    requires w < MAXCHUNK
    ensures pos % MAXCHUNK == 0 ==> InChunk(pos + w) == MAXCHUNK - w
    ensures 0 < InChunk(pos) <= MAXCHUNK
  {
    if pos % MAXCHUNK == 0 {
      Division.Unique(pos + w, MAXCHUNK, pos / MAXCHUNK, w);
    }
  }

  /** The next block cannot be had, or the next bytes cannot all be read. */
  ghost predicate Stuck(d: Disk, bits: Bits, size: nat, i: nat, off: nat, n: nat, readable: nat, pos: nat)
    requires size <= 8 * |bits|
  {
    pos < n && (Blocked(d, bits, size, SlotOf(i, (off + pos) / BSIZE)) || readable < pos + Together(off, n, pos))
  }

  /**
    The loop of a write to an open file after some rounds. Until it is stuck every round writes a
    whole chunk; once stuck it stays where it is. It is stuck soon enough to be looked at again if
    there are more rounds than bytes.
   */
  ghost predicate WriteLoop(d0: Disk, bits0: Bits, d: Disk, bits: Bits, size: nat, i: nat, off: nat, src: seq<Byte>, readable: nat,
                            pos: nat, wrote: nat, round: nat, stuck: bool)
  {
    && size <= 8 * |bits0| && size <= 8 * |bits|
    && pos <= wrote <= |src| && pos <= readable && (|src| <= readable ==> wrote == pos)
    && (if off <= |Content(d0, i)| then Writing(d0, bits0, d, bits, size, i, off, src, pos, wrote) else pos == wrote == round == 0 && d == d0)
    && (round == 0 ==> pos == 0)
    && (if stuck then Stuck(d, bits, size, i, off, |src|, readable, pos) && Stop(off, pos) && (round <= |src| || Accepted(off, |src|, pos))
        else pos >= round && (pos == |src| || pos % MAXCHUNK == 0))
    && (Blocked(d0, bits0, size, SlotOf(i, off / BSIZE)) ==> pos == 0 && d == d0 && bits == bits0)
  }

  /** The chunk at pos does not exceed the largest file. */
  predicate Accepted(off: nat, len: nat, pos: nat)
    requires pos <= len
  {
    off + pos + (if len - pos < MAXCHUNK then len - pos else MAXCHUNK) <= MAXFILE * BSIZE
  }

  lemma WriteLoopStart(d: Disk, bits: Bits, size: nat, i: nat, off: nat, src: seq<Byte>, readable: nat)
    requires size <= 8 * |bits|
    ensures WriteLoop(d, bits, d, bits, size, i, off, src, readable, 0, 0, 0, false)
  {
    hide Writing, Content, Blocked;
    if off <= |Content(d, i)| {
      WritingStart(d, bits, size, i, off, src);
    }
  }

  lemma WriteLoopFacts(d0: Disk, bits0: Bits, d: Disk, bits: Bits, size: nat, i: nat, off: nat, src: seq<Byte>, readable: nat,
                       pos: nat, wrote: nat, round: nat, stuck: bool)
    requires WriteLoop(d0, bits0, d, bits, size, i, off, src, readable, pos, wrote, round, stuck)
    ensures pos <= wrote <= |src| && pos <= readable && (|src| <= readable ==> wrote == pos)
    ensures off <= |Content(d0, i)| ==> off + pos <= |Content(d, i)| && (pos > 0 ==> off + pos <= MAXFILE * BSIZE)
    ensures off <= |Content(d0, i)| ==> Content(d, i) == SpliceUpTo(Content(d0, i), off, src[..wrote], off + pos)
    ensures off > |Content(d0, i)| ==> pos == wrote == round == 0 && d == d0
    ensures round == 0 ==> pos == 0
    ensures forall j: nat :: j != i ==> Content(d, j) == Content(d0, j)
  {
    hide Pays, Covers, Content, SpliceUpTo, Blocked, RefsGrow, Stuck, Stop;
    if off <= |Content(d0, i)| {
      WritingSize(d0, bits0, d, bits, size, i, off, src, pos, wrote);
    }
  }

  /** A round that was not refused. */
  lemma WriteLoopStep(d0: Disk, bits0: Bits, d1: Disk, bits1: Bits, d2: Disk, bits2: Bits, size: nat, i: nat, off: nat, src: seq<Byte>,
                      readable: nat, pos: nat, wrote: nat, round: nat, stuck: bool, n: nat, w: nat, wrote1: nat)
    requires WriteLoop(d0, bits0, d1, bits1, size, i, off, src, readable, pos, wrote, round, stuck) && size <= 8 * |bits2|
    requires off <= |Content(d0, i)| && off + pos <= |Content(d1, i)| && pos < |src|
    requires n == (if |src| - pos < MAXCHUNK then |src| - pos else MAXCHUNK)
    requires w <= wrote1 <= n && off + pos + n <= MAXFILE * BSIZE
    requires pos + w <= readable && (n <= readable - pos ==> wrote1 == w)
    requires Content(d2, i) == SpliceUpTo(Content(d1, i), off + pos, src[pos..pos + n][..wrote1], off + pos + w)
    requires forall j: nat :: j != i ==> Content(d2, j) == Content(d1, j)
    requires RefsGrow(d1, d2) && (w > 0 ==> Covers(d2, i, off + pos, off + pos + w))
    requires Pays(d1, bits1, d2, bits2, size, i, off + pos, Past(w, n))
    requires w < n ==> Blocked(d2, bits2, size, SlotOf(i, (off + pos + w) / BSIZE)) || readable - pos < w + NextLength(off + pos, n, w)
    requires w < n ==> w == 0 || (off + pos + w) % BSIZE == 0
    requires w > 0 ==> w >= NextLength(off + pos, n, 0)
    requires Blocked(d1, bits1, size, SlotOf(i, (off + pos) / BSIZE)) ==> w == wrote1 == 0 && d2 == d1 && bits2 == bits1
    ensures WriteLoop(d0, bits0, d2, bits2, size, i, off, src, readable, pos + w, if pos + wrote1 > wrote then pos + wrote1 else wrote,
                      round + 1, stuck || w < n)
  {
    hide Pays, Covers, RefsGrow, Content, SpliceUpTo, Writing, Blocked, SlotOf, NextLength, Together;
    WritingStep(d0, bits0, d1, bits1, d2, bits2, size, i, off, src, pos, wrote, n, w, wrote1);
    TogetherInChunk(off, |src|, pos, n, if w < n then w else 0);
    assert off + pos + w == off + (pos + w);
    if stuck {
      assert w == 0;
    } else if w == n {
      NextChunk(pos, |src|, n);
    }
  }

  lemma NextChunk(pos: nat, len: nat, n: nat)
    requires pos % MAXCHUNK == 0 && n == (if len - pos < MAXCHUNK then len - pos else MAXCHUNK) && pos < len
    ensures pos + n == len || (pos + n) % MAXCHUNK == 0
  {
  }

  /** The loop, left alone for more rounds than there are bytes, has come to its end exactly if it had what it took. */
  lemma WriteLoopEnds(d0: Disk, bits0: Bits, d: Disk, bits: Bits, size: nat, i: nat, off: nat, src: seq<Byte>, readable: nat,
                      pos: nat, wrote: nat, round: nat, stuck: bool)
    requires WriteLoop(d0, bits0, d, bits, size, i, off, src, readable, pos, wrote, round, stuck) && off <= |Content(d0, i)|
    ensures size <= 8 * |bits0| && size <= 8 * |bits|
    ensures pos == |src| ==> |src| <= readable && Suffices(d0, bits0, size, i, off, |src|)
    ensures pos < |src| < round ==> readable < |src| || Blocked(d, bits, size, SlotOf(i, (off + pos) / BSIZE))
    ensures pos < |src| < round ==> readable < |src| || !Suffices(d0, bits0, size, i, off, |src|)
  {
    hide Writing, Content, Blocked, Suffices, SlotOf;
    WritingReach(d0, bits0, d, bits, size, i, off, src, pos, wrote, |src|);
  }

  /**
    A write that would exceed the largest file is refused: it gets to a chunk that does. That is past
    position q, the last one from which a whole chunk still fits; it takes the block of the byte at q,
    and that the bytes that come together with it can be read.
   */
  predicate GetsRefused(d: Disk, bits: Bits, size: nat, i: nat, off: nat, n: nat, readable: nat)
    requires size <= 8 * |bits| && off + n > MAXFILE * BSIZE
  {
    var q := MAXFILE * BSIZE - MAXCHUNK - off;
    q < 0 || (Suffices(d, bits, size, i, off, q + 1) && readable >= q + Together(off, n, q))
  }

  lemma WriteLoopRefused(d0: Disk, bits0: Bits, d: Disk, bits: Bits, size: nat, i: nat, off: nat, src: seq<Byte>, readable: nat,
                         pos: nat, wrote: nat, round: nat, stuck: bool)
    requires WriteLoop(d0, bits0, d, bits, size, i, off, src, readable, pos, wrote, round, stuck) && off <= |Content(d0, i)|
    requires off + |src| > MAXFILE * BSIZE && pos < |src|
    ensures size <= 8 * |bits0|
    ensures !Accepted(off, |src|, pos) ==> GetsRefused(d0, bits0, size, i, off, |src|, readable)
    ensures |src| < round && Accepted(off, |src|, pos) ==> !GetsRefused(d0, bits0, size, i, off, |src|, readable)
    ensures |src| < round ==> Accepted(off, |src|, pos)
  {
    hide Writing, Content, Blocked, Suffices, SlotOf, Together;
    var q := MAXFILE * BSIZE - MAXCHUNK - off;
    if q >= 0 {
      WritingReach(d0, bits0, d, bits, size, i, off, src, pos, wrote, q + 1);
      assert Stop(off, q) by { assert (off + q) % BSIZE == 0; }
      if q < pos {
        StopsApart(off, |src|, q, pos);
      } else if pos < q {
        StopsApart(off, |src|, pos, q);
      }
    }
  }

  lemma WriteLoopBlocked(d0: Disk, bits0: Bits, d: Disk, bits: Bits, size: nat, i: nat, off: nat, src: seq<Byte>, readable: nat,
                         pos: nat, wrote: nat, round: nat, stuck: bool)
    requires WriteLoop(d0, bits0, d, bits, size, i, off, src, readable, pos, wrote, round, stuck)
    ensures size <= 8 * |bits0| && size <= 8 * |bits|
    ensures Blocked(d0, bits0, size, SlotOf(i, off / BSIZE)) ==> pos == 0 && d == d0
  {
    hide Writing, Content, Blocked, SlotOf;
  }

  // ---------- Reading ----------

  /** How many of n bytes at off a file of the given size has. */
  function Clamped(size: nat, off: nat, n: nat): nat {
    if off > size then 0 else if off + n > size then size - off else n
  }

  /** A block that file i lacks and could have lies in the way of its bytes from off to off + len. */
  ghost predicate MeetsHole(d: Disk, i: nat, off: nat, len: nat) {
    len > 0 && exists m: nat :: off / BSIZE <= m < MAXFILE && m * BSIZE < off + len && Ref(d, SlotOf(i, m)) == 0
  }

  /** A read gets to the last of len bytes at off: an inode can map them, and the blocks are there or can be had. */
  predicate Reaches(d: Disk, bits: Bits, size: nat, i: nat, off: nat, len: nat)
    requires size <= 8 * |bits|
  {
    len == 0 || (off + len <= MAXFILE * BSIZE && Suffices(d, bits, size, i, off, len))
  }

  lemma MapsNothing(d: Disk, i: nat)
    ensures MapsOnly(d, d, i)
  {
  }

  lemma SameContents(d: Disk, d': Disk, i: nat)
    requires MapsOnly(d, d', i)
    ensures forall j: nat :: Content(d', j) == Content(d, j) && Size(d', j) == Size(d, j)
  {
    hide FileByte;
    SizesKept(d, d', i);
    forall j: nat ensures Content(d', j) == Content(d, j) && Size(d', j) == Size(d, j) {
      forall p: nat | p < Size(d, j) ensures Content(d', j)[p] == Content(d, j)[p] {
        assert FileByte(d', j, p) == FileByte(d, j, p);
      }
    }
  }

  /** The next m bytes lie in one block. */
  lemma HoleStep(d: Disk, i: nat, off: nat, total: nat, m: nat)
    requires m > 0 && (off + total) % BSIZE + m <= BSIZE
    ensures MeetsHole(d, i, off, total + m) <==>
              MeetsHole(d, i, off, total)
              || ((off + total) / BSIZE < MAXFILE && Ref(d, SlotOf(i, (off + total) / BSIZE)) == 0)
  {
    hide Ref, SlotOf;
    var b := (off + total) / BSIZE;
    if MeetsHole(d, i, off, total + m) {
      var k: nat :| off / BSIZE <= k < MAXFILE && k * BSIZE < off + (total + m) && Ref(d, SlotOf(i, k)) == 0;
      if k != b {
        assert k < b;
        assert k * BSIZE < off + total && total > 0;
      }
    }
    if MeetsHole(d, i, off, total) {
      var k: nat :| off / BSIZE <= k < MAXFILE && k * BSIZE < off + total && Ref(d, SlotOf(i, k)) == 0;
      assert k * BSIZE < off + (total + m);
    }
    if b < MAXFILE && Ref(d, SlotOf(i, b)) == 0 {
      assert b * BSIZE < off + (total + m);
    }
  }

  /**
    Where a read stands after total of reach bytes at off: the file has the blocks for them, and the
    disk has changed exactly if it met a hole and a block was free.
   */
  ghost predicate Reading(d0: Disk, bits0: Bits, d: Disk, bits: Bits, size: nat, i: nat, off: nat, reach: nat, total: nat, changed: bool) {
    && size <= 8 * |bits0| && size <= 8 * |bits|
    && MapsOnly(d0, d, i) && Pays(d0, bits0, d, bits, size, i, off, reach)
    && (total > 0 ==> Covers(d, i, off, off + total) && off + total <= MAXFILE * BSIZE)
    && (changed <==> MeetsHole(d0, i, off, total) && !Full(bits0, size))
    && (if changed then FreeCount(bits, size) < FreeCount(bits0, size) else d == d0 && bits == bits0)
  }

  lemma ReadingStart(d: Disk, bits: Bits, size: nat, i: nat, off: nat, reach: nat)
    requires size <= 8 * |bits|
    ensures Reading(d, bits, d, bits, size, i, off, reach, 0, false)
  {
    hide Pays, FreeCount, Full;
    PaidNothing(d, bits, size, i, 0, off, reach);
  }

  lemma ReadingStep(d0: Disk, bits0: Bits, d1: Disk, bits1: Bits, d2: Disk, bits2: Bits, size: nat, i: nat, off: nat, reach: nat,
                    total: nat, changed: bool, m: nat, more: bool)
    requires Reading(d0, bits0, d1, bits1, size, i, off, reach, total, changed)
    requires Mapped(d1, bits1, d2, bits2, size, i, (off + total) / BSIZE, more) && total < reach
    requires Ref(d2, SlotOf(i, (off + total) / BSIZE)) != 0 && (off + total) / BSIZE < MAXFILE
    requires m > 0 && (off + total) % BSIZE + m <= BSIZE
    ensures Reading(d0, bits0, d2, bits2, size, i, off, reach, total + m, changed || more)
  {
    hide Ref, SlotOf, MeetsHole, MapsOnly, Pays, PaidAt, FreeCount, Full, Covers;
    var b := (off + total) / BSIZE;
    MapsOnlyTrans(d0, d1, d2, i);
    MapsOnlyGrows(d1, d2, i);
    MapsOnlyGrows(d0, d1, i);
    PaysStep(d0, bits0, d1, bits1, d2, bits2, size, i, off, reach, b);
    CoversStep(d1, d2, i, off, off + total, m);
    HoleStep(d0, i, off, total, m);
    FullStart(d0, bits0, d1, bits1, size, i, off, reach, total, changed, b);
  }

  lemma MapsOnlyGrows(d: Disk, d': Disk, i: nat)
    requires MapsOnly(d, d', i)
    ensures Grows(d, d', i)
  {
  }

  /** Whether the next block takes a block from the free ones, if none was taken before. */
  lemma FullStart(d0: Disk, bits0: Bits, d1: Disk, bits1: Bits, size: nat, i: nat, off: nat, reach: nat, total: nat, changed: bool, b: nat)
    requires Reading(d0, bits0, d1, bits1, size, i, off, reach, total, changed) && b < MAXFILE
    ensures (changed || (Ref(d1, SlotOf(i, b)) == 0 && !Full(bits1, size))) ==> !Full(bits0, size)
    ensures !Full(bits0, size) ==>
              (changed || Ref(d1, SlotOf(i, b)) == 0 <==> MeetsHole(d0, i, off, total) || Ref(d0, SlotOf(i, b)) == 0)
    ensures !changed ==> (Full(bits1, size) <==> Full(bits0, size))
  {
    hide Ref, SlotOf, MapsOnly, Pays, FreeCount, Covers, MeetsHole;
    FullCount(bits0, size);
    FullCount(bits1, size);
  }

  lemma ReadingContents(d0: Disk, bits0: Bits, d: Disk, bits: Bits, size: nat, i: nat, off: nat, reach: nat, total: nat, changed: bool)
    requires Reading(d0, bits0, d, bits, size, i, off, reach, total, changed)
    ensures MapsOnly(d0, d, i) && (!changed ==> bits == bits0)
    ensures forall j: nat :: Content(d, j) == Content(d0, j) && Size(d, j) == Size(d0, j)
  {
    hide MapsOnly, Pays, Covers, MeetsHole, FreeCount, Full, Content, Size;
    SameContents(d0, d, i);
  }

  /**
    What a read through reach bytes at off did: it got through exactly if it had what it took, and it
    changed the disk exactly if it met a hole and a block was free.
   */
  ghost predicate ReadDone(d0: Disk, bits0: Bits, d: Disk, bits: Bits, size: nat, i: nat, off: nat, reach: nat, changed: bool, through: bool) {
    && size <= 8 * |bits0| && MapsOnly(d0, d, i)
    && (through <==> Reaches(d0, bits0, size, i, off, reach))
    && (changed <==> MeetsHole(d0, i, off, reach) && !Full(bits0, size))
    && (changed <==> d != d0)
    && (!changed ==> bits == bits0)
  }

  /** A read that came to its end had what it took. */
  lemma ReadingEnds(d0: Disk, bits0: Bits, d: Disk, bits: Bits, size: nat, i: nat, off: nat, reach: nat, changed: bool)
    requires Reading(d0, bits0, d, bits, size, i, off, reach, reach, changed)
    ensures ReadDone(d0, bits0, d, bits, size, i, off, reach, changed, true)
  {
    hide Pays, Covers, Suffices, MeetsHole, FreeCount, Full, MapsOnly;
    if reach > 0 {
      Sufficed(d0, bits0, d, bits, size, i, off, reach);
    }
    TakenIsSeen(d0, bits0, d, bits, size, i, off, reach);
  }

  /** The next block cannot be had: all is spent, or the file ends there. */
  lemma ReadingStops(d0: Disk, bits0: Bits, d1: Disk, bits1: Bits, d2: Disk, bits2: Bits, size: nat, i: nat, off: nat, reach: nat,
                     total: nat, changed: bool, more: bool)
    requires Reading(d0, bits0, d1, bits1, size, i, off, reach, total, changed) && total < reach
    requires Mapped(d1, bits1, d2, bits2, size, i, (off + total) / BSIZE, more)
    requires (off + total) / BSIZE < MAXFILE ==> Blocked(d2, bits2, size, SlotOf(i, (off + total) / BSIZE))
    ensures ReadDone(d0, bits0, d2, bits2, size, i, off, reach, changed || more, false)
  {
    hide Ref, SlotOf, MeetsHole, MapsOnly, Pays, PaidAt, FreeCount, Full, Covers, Suffices;
    var b := (off + total) / BSIZE;
    MapsOnlyTrans(d0, d1, d2, i);
    MapsOnlyGrows(d1, d2, i);
    MapsOnlyGrows(d0, d1, i);
    PaysStep(d0, bits0, d1, bits1, d2, bits2, size, i, off, reach, b);
    TakenIsSeen(d0, bits0, d2, bits2, size, i, off, reach);
    if b < MAXFILE {
      FellShort(d0, bits0, d2, bits2, size, i, off, reach, off + total);
      assert Ref(d1, SlotOf(i, b)) == 0;
      FullStart(d0, bits0, d1, bits1, size, i, off, reach, total, changed, b);
      HoleAhead(d0, i, off, total, reach);
    } else {
      NoHoleBeyond(d0, i, off, total, reach);
    }
  }

  lemma HoleAhead(d: Disk, i: nat, off: nat, total: nat, reach: nat)
    requires total < reach && (off + total) / BSIZE < MAXFILE
    ensures Ref(d, SlotOf(i, (off + total) / BSIZE)) == 0 || MeetsHole(d, i, off, total) ==> MeetsHole(d, i, off, reach)
  {
    hide Ref, SlotOf;
    assert (off + total) / BSIZE * BSIZE < off + reach;
    if MeetsHole(d, i, off, total) {
      var k: nat :| off / BSIZE <= k < MAXFILE && k * BSIZE < off + total && Ref(d, SlotOf(i, k)) == 0;
      assert k * BSIZE < off + reach;
    }
  }

  lemma NoHoleBeyond(d: Disk, i: nat, off: nat, total: nat, reach: nat)
    requires total < reach && (off + total) / BSIZE >= MAXFILE
    ensures MeetsHole(d, i, off, reach) <==> MeetsHole(d, i, off, total)
  {
    hide Ref, SlotOf;
    if MeetsHole(d, i, off, reach) {
      var k: nat :| off / BSIZE <= k < MAXFILE && k * BSIZE < off + reach && Ref(d, SlotOf(i, k)) == 0;
      assert k * BSIZE < off + total && total > 0;
    }
  }

  /** Blocks taken are seen in the file. */
  lemma TakenIsSeen(d0: Disk, bits0: Bits, d: Disk, bits: Bits, size: nat, i: nat, off: nat, reach: nat)
    requires Pays(d0, bits0, d, bits, size, i, off, reach) && size <= 8 * |bits0| && size <= 8 * |bits|
    ensures FreeCount(bits, size) < FreeCount(bits0, size) ==> d != d0
  {
    hide FreeCount, Need;
    assert off + reach <= EndBlock(off + reach) * BSIZE;
    assert Balanced(d0, bits0, d, bits, size, i, off / BSIZE, EndBlock(off + reach));
  }

  /** A file without holes needs nothing for the bytes that it has. */
  lemma HolesNotMet(d: Disk, bits: Bits, size: nat, i: nat, off: nat, len: nat)
    requires NoHoles(d, i) && off + len <= Size(d, i) && size <= 8 * |bits|
    ensures !MeetsHole(d, i, off, len)
    ensures off + len <= MAXFILE * BSIZE ==> Reaches(d, bits, size, i, off, len)
  {
    hide Ref, SlotOf, Pays, Suffices;
    PaidNothing(d, bits, size, i, 0, off, len);
    if len > 0 {
      assert Covers(d, i, off, off + len);
      Sufficed(d, bits, d, bits, size, i, off, len);
    }
  }
}
