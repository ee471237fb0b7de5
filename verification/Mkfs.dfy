/**
  The program that makes the first file system image: inodes handed out in order, blocks taken one
  after the other, and the free map written at the end. It checks neither the number of blocks nor
  the number of inodes, so the image file grows when the blocks do not fit the disk, and inodes that
  do not fit the inode blocks go to the block of the free map, which is written over them. What it
  makes is a file system with every file exactly when both fit.
*/
module Mkfs {
  import opened InodeBlocks
  import opened Bitmap
  import opened FileSteps
  import opened FileSystem

  const FSSIZE: nat := 2000
  const NINODES: nat := 200
  const NLOG: nat := 31
  const NINODEBLOCKS: nat := NINODES / IPB + 1
  const NBITMAP: nat := FSSIZE / BPB + 1
  const NMETA: nat := NLOG + NINODEBLOCKS + NBITMAP + 2
  const INODESTART: nat := 2 + NLOG
  const BMAPSTART: nat := 2 + NLOG + NINODEBLOCKS
  const TABLE: nat := NINODEBLOCKS * IPB      // inodes the inode blocks have room for
  const SLOTS: nat := (NMETA - INODESTART) * IPB  // inodes that fit before the first data block
  const INODE: nat := 64                      // bytes of an inode
  const ROOTINO: nat := 1
  const ENTRY: nat := 16                      // bytes of a directory entry

  function EmptyInode(): Inode {
    Inode(0, seq(NDIRECT + 1, k => 0))
  }

  // ---------------------------------------------------------------- counting blocks

  /** Blocks of a file of the given size: those of its data, and the indirect block. */
  function Blocks(size: nat): nat {
    (size + BSIZE - 1) / BSIZE + (if size > NDIRECT * BSIZE then 1 else 0)
  }

  function Total(inodes: seq<Inode>): nat {
    if inodes == [] then 0 else Total(inodes[..|inodes| - 1]) + Blocks(inodes[|inodes| - 1].size)
  }

  lemma {:induction false} TotalUpdate(inodes: seq<Inode>, i: nat, x: Inode)
    requires i < |inodes|
    ensures Total(inodes[i := x]) == Total(inodes) - Blocks(inodes[i].size) + Blocks(x.size)
  {
    hide Blocks;
    var n := |inodes| - 1;
    if i == n {
      assert inodes[i := x][..n] == inodes[..n];
    } else {
      assert inodes[i := x][..n] == inodes[..n][i := x];
      TotalUpdate(inodes[..n], i, x);
    }
  }

  lemma {:induction false} TotalBound(inodes: seq<Inode>)
    requires forall i :: 0 <= i < |inodes| ==> inodes[i].size <= MAXFILE * BSIZE
    ensures Total(inodes) <= |inodes| * (MAXFILE + 1)
  {
    if inodes != [] {
      TotalBound(inodes[..|inodes| - 1]);
    }
  }

  lemma {:induction false} TotalEmpty(inodes: seq<Inode>)
    requires forall i :: 0 <= i < |inodes| ==> inodes[i].size == 0
    ensures Total(inodes) == 0
  {
    if inodes != [] {
      TotalEmpty(inodes[..|inodes| - 1]);
    }
  }

  /** The block at the end of a file is new at a boundary, and the first entry needs the indirect block. */
  lemma BlocksStep(at: nat, n: nat)
    requires 0 < n && at % BSIZE + n <= BSIZE
    ensures Blocks(at + n) == Blocks(at) + (if at % BSIZE == 0 then 1 else 0) + (if at == NDIRECT * BSIZE then 1 else 0)
    ensures at / BSIZE < MAXFILE ==> Blocks(at + n) <= MAXFILE + 1
  {
    var m := at / BSIZE;
    assert at == m * BSIZE + at % BSIZE;
    assert (at + n + BSIZE - 1) / BSIZE == m + 1;
  }

  // ---------------------------------------------------------------- the image in order

  /** File i has the blocks that hold its first end bytes and no others. */
  ghost predicate Tight(d: Disk, i: nat, end: nat) {
    && (forall n: nat :: Ref(d, SlotOf(i, n)) != 0 <==> n * BSIZE < end)
    && (Ref(d, Indirect(i)) != 0 <==> NDIRECT * BSIZE < end)
  }

  /**
    The owned blocks are those from the first data block up to next, and what follows of the image
    is still zero. The image is longer than the disk when next is.
  */
  ghost predicate InOrder(d: Disk, owner: map<nat, Slot>, next: nat) {
    && Owned(d, owner, NMETA, |d.blocks|) && NMETA <= next
    && |d.blocks| == (if next <= FSSIZE then FSSIZE else next)
    && (forall b :: b in owner <==> NMETA <= b < next)
    && (forall b :: next <= b < |d.blocks| ==> d.blocks[b] == ZeroBlock())
  }

  /** The disk sees the first FSSIZE blocks of the image. */
  function OnDisk(d: Disk): Disk
    requires FSSIZE <= |d.blocks|
  {
    Disk(d.inodes, d.blocks[..FSSIZE])
  }

  /** The disk is in order exactly when no block was taken beyond it. */
  lemma FitsOnDisk(d: Disk, owner: map<nat, Slot>, next: nat)
    requires InOrder(d, owner, next)
    ensures (exists o :: Owned(OnDisk(d), o, NMETA, FSSIZE)) <==> next <= FSSIZE
  {
    if next <= FSSIZE {
      assert OnDisk(d) == d;
    } else {
      var s := owner[FSSIZE];
      assert Ref(d, s) == FSSIZE;
      var t := if s.Entry? && Addr(d, s.i, NDIRECT) >= FSSIZE then Indirect(s.i) else s;
      assert Ref(OnDisk(d), t) >= FSSIZE;
    }
  }

  /** The image file with block next in it, which holds `fill` if the file had to grow. */
  function Grown(blocks: seq<Block>, next: nat, fill: Block): seq<Block> {
    if next < |blocks| then blocks else blocks + [fill]
  }

  lemma GrowKeeps(d: Disk, owner: map<nat, Slot>, next: nat, fill: Block)
    requires InOrder(d, owner, next)
    ensures
      var g := Disk(d.inodes, Grown(d.blocks, next, fill));
      && Owned(g, owner, NMETA, |g.blocks|) && next < |g.blocks| == (if next < FSSIZE then FSSIZE else next + 1)
      && (forall s :: Ref(g, s) == Ref(d, s))
      && SameBytes(d, g)
      && (fill == ZeroBlock() ==> g.blocks[next] == ZeroBlock())
  {
    var g := Disk(d.inodes, Grown(d.blocks, next, fill));
    forall s ensures Ref(g, s) == Ref(d, s) {
      if s.Entry? {
        assert Ref(d, Indirect(s.i)) == Addr(d, s.i, NDIRECT);
      }
    }
    forall j: nat, p: nat ensures FileByte(g, j, p) == FileByte(d, j, p) {
      assert Ref(d, SlotOf(j, p / BSIZE)) != 0 ==> Ref(d, SlotOf(j, p / BSIZE)) < |d.blocks|;
    }
  }

  /** Taking the next block for a slot keeps the order. */
  lemma TakeNext(d: Disk, d': Disk, owner: map<nat, Slot>, next: nat, fill: Block, s: Slot)
    requires InOrder(d, owner, next)
    requires
      var g := Grown(d.blocks, next, fill);
      && Owned(d', owner[next := s], NMETA, |g|) && |d'.blocks| == |g|
      && forall b :: next < b < |g| ==> d'.blocks[b] == g[b]
    ensures InOrder(d', owner[next := s], next + 1)
  {
    hide Owned;
  }

  lemma InOrderFacts(d: Disk, owner: map<nat, Slot>, next: nat)
    requires InOrder(d, owner, next)
    ensures Owned(d, owner, NMETA, |d.blocks|) && next <= |d.blocks| && FSSIZE <= |d.blocks| && NMETA <= next && next !in owner
    ensures |d.blocks| == if next <= FSSIZE then FSSIZE else next
  {
  }

  lemma IndirectTaken(d: Disk, owner: map<nat, Slot>, next: nat, i: nat)
    requires InOrder(d, owner, next) && i < |d.inodes| && Ref(d, Indirect(i)) != 0
    ensures Ref(d, Indirect(i)) < next
  {
  }

  // ---------------------------------------------------------------- mapping one block

  /** Blocks that mapping block n of file i takes. */
  function Missing(d: Disk, i: nat, n: nat): nat {
    (if Ref(d, SlotOf(i, n)) == 0 then 1 else 0) + (if n >= NDIRECT && Ref(d, Indirect(i)) == 0 then 1 else 0)
  }

  /** File i gained block n, and perhaps its indirect block; no byte changed but those of a new block. */
  ghost predicate Gained(d: Disk, d': Disk, i: nat, n: nat) {
    && |d'.inodes| == |d.inodes| && Ref(d', SlotOf(i, n)) != 0
    && (forall s :: s != SlotOf(i, n) && s != Indirect(i) ==> Ref(d', s) == Ref(d, s))
    && (if n < NDIRECT then Ref(d', Indirect(i)) == Ref(d, Indirect(i)) else Ref(d', Indirect(i)) != 0)
    && (if Ref(d, SlotOf(i, n)) != 0 then SameBytes(d, d') else SameBytesBut(d, d', i, n))
  }

  lemma GainedNothing(d: Disk, i: nat, n: nat)
    requires Ref(d, SlotOf(i, n)) != 0
    ensures Gained(d, d, i, n) && Missing(d, i, n) == 0
  {
  }

  /** A block was hung into its slot. */
  lemma GainedSlot(d: Disk, g: Disk, d': Disk, i: nat, n: nat, b: nat)
    requires SameBytes(d, g) && (forall s :: Ref(g, s) == Ref(d, s)) && |d'.inodes| == |d.inodes|
    requires Ref(d, SlotOf(i, n)) == 0 && b != 0 && (n >= NDIRECT ==> Ref(d, Indirect(i)) != 0)
    requires forall s :: Ref(d', s) == if s == SlotOf(i, n) then b else Ref(g, s)
    requires SameBytesBut(g, d', i, n)
    ensures Gained(d, d', i, n) && Missing(d, i, n) == 1
  {
    hide Ref, FileByte;
    SlotsDiffer(i, n);
    forall j: nat, p: nat | j != i || p / BSIZE != n ensures FileByte(d', j, p) == FileByte(d, j, p) {
      assert FileByte(g, j, p) == FileByte(d, j, p);
    }
  }

  /** The indirect block came first. */
  lemma GainedIndirect(d: Disk, g: Disk, d1: Disk, d2: Disk, i: nat, n: nat, b: nat)
    requires SameBytes(d, g) && (forall s :: Ref(g, s) == Ref(d, s)) && |d1.inodes| == |d.inodes|
    requires SameBytes(g, d1) && forall s :: Ref(d1, s) == if s == Indirect(i) then b else Ref(g, s)
    requires n >= NDIRECT && b != 0 && Ref(d, Indirect(i)) == 0
    requires Gained(d1, d2, i, n)
    ensures Gained(d, d2, i, n) && Missing(d, i, n) == Missing(d1, i, n) + 1
  {
    hide Ref, FileByte;
    SlotsDiffer(i, n);
    forall s | s != SlotOf(i, n) && s != Indirect(i) ensures Ref(d2, s) == Ref(d, s) {
      assert Ref(d1, s) == Ref(g, s);
    }
    assert Ref(d1, SlotOf(i, n)) == Ref(g, SlotOf(i, n));
    forall j: nat, p: nat ensures FileByte(d1, j, p) == FileByte(d, j, p) {
      assert FileByte(g, j, p) == FileByte(d, j, p);
    }
  }

  lemma OtherSlots(i: nat, n: nat)
    ensures forall s: Slot :: s.i != i ==> s != SlotOf(i, n) && s != Indirect(i)
  {
  }

  // ---------------------------------------------------------------- appending

  /** Having mapped the block at the end of a tight file, it is tight for the bytes up to the next boundary. */
  lemma TightStep(d: Disk, d': Disk, i: nat, at: nat, n: nat)
    requires Tight(d, i, at) && 0 < n && at % BSIZE + n <= BSIZE && Gained(d, d', i, at / BSIZE)
    ensures Tight(d', i, at + n)
    ensures Missing(d, i, at / BSIZE) == Blocks(at + n) - Blocks(at)
  {
    hide Ref, SlotOf, Blocks;
    var b := at / BSIZE;
    SlotsDiffer(i, b);
    forall m: nat ensures Ref(d', SlotOf(i, m)) != 0 <==> m * BSIZE < at + n {
      if m != b {
        assert Ref(d', SlotOf(i, m)) == Ref(d, SlotOf(i, m));
        assert m * BSIZE < at <==> m * BSIZE < at + n;
      }
    }
    BlocksStep(at, n);
    assert Ref(d, SlotOf(i, b)) != 0 <==> b * BSIZE < at;
    assert b * BSIZE < at <==> at % BSIZE != 0;
  }

  lemma TightSame(d: Disk, d': Disk, i: nat, end: nat)
    requires Tight(d, i, end) && forall s :: Ref(d', s) == Ref(d, s)
    ensures Tight(d', i, end)
  {
    hide Ref;
    forall n: nat ensures Ref(d', SlotOf(i, n)) == Ref(d, SlotOf(i, n)) {
    }
  }

  lemma TightBound(d: Disk, i: nat, end: nat)
    requires Tight(d, i, end)
    ensures end <= MAXFILE * BSIZE
  {
    assert Ref(d, SlotOf(i, MAXFILE)) == 0;
  }

  /** The first bytes of file i are what it had and then data; no other file changed. */
  ghost predicate Extends(d0: Disk, d: Disk, i: nat, data: seq<Byte>)
    requires i < |d0.inodes|
  {
    var size := d0.inodes[i].size;
    && (forall j: nat, p: nat :: j != i ==> FileByte(d, j, p) == FileByte(d0, j, p))
    && (forall p: nat :: p < size + |data| ==> FileByte(d, i, p) == if p < size then FileByte(d0, i, p) else data[p - size])
  }

  lemma ExtendsStep(d0: Disk, d1: Disk, d2: Disk, d3: Disk, i: nat, data: seq<Byte>, chunk: seq<Byte>)
    requires i < |d0.inodes| && Extends(d0, d1, i, data)
    requires
      var at := d0.inodes[i].size + |data|;
      Tight(d1, i, at) && Gained(d1, d2, i, at / BSIZE) && WritesBytes(d2, d3, i, at, chunk)
    ensures Extends(d0, d3, i, data + chunk)
  {
    hide FileByte, Ref;
    var size, at := d0.inodes[i].size, d0.inodes[i].size + |data|;
    forall j: nat, p: nat | j != i ensures FileByte(d3, j, p) == FileByte(d0, j, p) {
      assert FileByte(d2, j, p) == FileByte(d1, j, p);
    }
    forall p: nat | p < size + |data + chunk|
      ensures FileByte(d3, i, p) == if p < size then FileByte(d0, i, p) else (data + chunk)[p - size]
    {
      if p < at {
        assert p / BSIZE == at / BSIZE ==> Ref(d1, SlotOf(i, at / BSIZE)) != 0 by {
          assert p / BSIZE == at / BSIZE ==> at / BSIZE * BSIZE < at;
        }
        assert FileByte(d2, i, p) == FileByte(d1, i, p);
      }
    }
  }

  lemma ExtendsContent(d0: Disk, d: Disk, i: nat, data: seq<Byte>)
    requires i < |d0.inodes| && Extends(d0, d, i, data)
    requires forall j: nat :: Size(d, j) == if j == i then d0.inodes[i].size + |data| else Size(d0, j)
    ensures Content(d, i) == Content(d0, i) + data
    ensures forall j: nat :: j != i ==> Content(d, j) == Content(d0, j)
  {
    hide FileByte;
    assert |Content(d, i)| == |Content(d0, i) + data|;
    forall j: nat | j != i ensures Content(d, j) == Content(d0, j) {
      forall p: nat | p < Size(d0, j) ensures Content(d, j)[p] == Content(d0, j)[p] {
        assert FileByte(d, j, p) == FileByte(d0, j, p);
      }
    }
  }

  /** Part of data appended to file i, its size not yet set. */
  ghost predicate Appending(d0: Disk, d: Disk, owner: map<nat, Slot>, next: nat, i: nat, data: seq<Byte>)
  {
    && i < |d0.inodes| && |d.inodes| == |d0.inodes|
    && InOrder(d, owner, next)
    && Tight(d, i, d0.inodes[i].size + |data|)
    && Extends(d0, d, i, data)
    && (forall s: Slot :: s.i != i ==> Ref(d, s) == Ref(d0, s))
  }

  lemma AppendStart(d: Disk, owner: map<nat, Slot>, next: nat, i: nat, data: seq<Byte>)
    requires InOrder(d, owner, next) && i < |d.inodes| && Tight(d, i, d.inodes[i].size)
    ensures Appending(d, Disk(d.inodes[i := d.inodes[i]], d.blocks), owner, next, i, data[..0])
  {
    assert d.inodes[i := d.inodes[i]] == d.inodes;
  }

  lemma AppendingFacts(d0: Disk, d: Disk, owner: map<nat, Slot>, next: nat, i: nat, data: seq<Byte>)
    requires Appending(d0, d, owner, next, i, data)
    ensures InOrder(d, owner, next) && i < |d.inodes|
  {
  }

  lemma DataKeepsOrder(d: Disk, owner: map<nat, Slot>, next: nat, i: nat, n: nat, data: Block)
    requires InOrder(d, owner, next) && Ref(d, SlotOf(i, n)) != 0 && Ref(d, SlotOf(i, n)) < |d.blocks|
    requires Owned(WithBlock(d, Ref(d, SlotOf(i, n)), data), owner, NMETA, |d.blocks|)
    ensures InOrder(WithBlock(d, Ref(d, SlotOf(i, n)), data), owner, next)
  {
    assert Ref(d, SlotOf(i, n)) in owner;
    hide Ref;
  }

  /** Writing into the block just mapped appends to what was there. */
  lemma AppendStep(d0: Disk, d1: Disk, owner1: map<nat, Slot>, next1: nat, d2: Disk, owner2: map<nat, Slot>, next2: nat,
                   i: nat, data: seq<Byte>, chunk: seq<Byte>, at: nat, x: nat)
    requires i < |d0.inodes| && at == d0.inodes[i].size + |data| && chunk != [] && at % BSIZE + |chunk| <= BSIZE && x < |d2.blocks|
    requires Appending(d0, d1, owner1, next1, i, data) && InOrder(d2, owner2, next2)
    requires Gained(d1, d2, i, at / BSIZE) && x == Ref(d2, SlotOf(i, at / BSIZE))
    ensures Appending(d0, WithBlock(d2, x, SpliceBlock(d2.blocks[x], at % BSIZE, chunk)), owner2, next2, i, data + chunk)
    ensures Missing(d1, i, at / BSIZE) == Blocks(at + |chunk|) - Blocks(at)
  {
    hide Owned, WritesBytes, SameBytes, Ref, Tight, SlotOf, Extends, InOrder, Blocks;
    InOrderFacts(d2, owner2, next2);
    SpliceWrites(d2, owner2, NMETA, |d2.blocks|, i, at, chunk);
    var d3 := WithBlock(d2, x, SpliceBlock(d2.blocks[x], at % BSIZE, chunk));
    DataKeepsOrder(d2, owner2, next2, i, at / BSIZE, SpliceBlock(d2.blocks[x], at % BSIZE, chunk));
    ExtendsStep(d0, d1, d2, d3, i, data, chunk);
    TightStep(d1, d2, i, at, |chunk|);
    TightSame(d2, d3, i, at + |chunk|);
    assert d0.inodes[i].size + |data + chunk| == at + |chunk|;
    OtherSlots(i, at / BSIZE);
    forall s: Slot | s.i != i ensures Ref(d3, s) == Ref(d0, s) {
      assert Ref(d3, s) == Ref(d2, s);
      assert Ref(d1, s) == Ref(d0, s);
    }
  }

  lemma AppendEnd(d0: Disk, d: Disk, owner: map<nat, Slot>, next: nat, i: nat, data: seq<Byte>)
    requires Appending(d0, d, owner, next, i, data)
    requires forall j :: 0 <= j < |d.inodes| && j != i ==> d.inodes[j] == d0.inodes[j]
    requires forall j :: 0 <= j < |d0.inodes| ==> Tight(d0, j, d0.inodes[j].size)
    ensures
      var d' := WithSize(d, i, d0.inodes[i].size + |data|);
      && InOrder(d', owner, next)
      && (forall j :: 0 <= j < |d'.inodes| ==> Tight(d', j, d'.inodes[j].size))
      && Content(d', i) == Content(d0, i) + data
      && (forall j: nat :: j != i ==> Content(d', j) == Content(d0, j))
  {
    hide Ref, Owned, Content, SlotOf, Tight;
    var size := d0.inodes[i].size + |data|;
    var d' := WithSize(d, i, size);
    SizeKeepsRefs(d, owner, NMETA, |d.blocks|, i, size);
    forall j | 0 <= j < |d'.inodes| ensures Tight(d', j, d'.inodes[j].size) {
      OtherTight(d0, d, d', j, i);
    }
    AppendSizes(d0, d, d', i, size);
    ExtendsSame(d0, d, d', i, data);
    ExtendsContent(d0, d', i, data);
  }

  lemma ExtendsSame(d0: Disk, d: Disk, d': Disk, i: nat, data: seq<Byte>)
    requires i < |d0.inodes| && Extends(d0, d, i, data) && SameBytes(d, d')
    ensures Extends(d0, d', i, data)
  {
    hide FileByte;
    forall j: nat, p: nat ensures FileByte(d', j, p) == FileByte(d, j, p) {
    }
  }

  lemma AppendSizes(d0: Disk, d: Disk, d': Disk, i: nat, size: nat)
    requires i < |d0.inodes| == |d.inodes| && d' == WithSize(d, i, size)
    requires forall j :: 0 <= j < |d.inodes| && j != i ==> d.inodes[j] == d0.inodes[j]
    ensures forall j: nat :: Size(d', j) == if j == i then size else Size(d0, j)
  {
  }

  lemma OtherTight(d0: Disk, d: Disk, d': Disk, j: nat, i: nat)
    requires i < |d0.inodes| == |d.inodes| == |d'.inodes| && j < |d'.inodes|
    requires forall s :: Ref(d', s) == Ref(d, s)
    requires forall s: Slot :: s.i != i ==> Ref(d, s) == Ref(d0, s)
    requires if j == i then Tight(d, i, d'.inodes[i].size)
             else Tight(d0, j, d0.inodes[j].size) && d'.inodes[j].size == d0.inodes[j].size
    ensures Tight(d', j, d'.inodes[j].size)
  {
    hide Ref;
    forall n: nat ensures Ref(d', SlotOf(j, n)) == Ref(if j == i then d else d0, SlotOf(j, n)) {
    }
  }

  // ---------------------------------------------------------------- the root directory and the free map

  lemma InOrderSame(d: Disk, d': Disk, owner: map<nat, Slot>, next: nat)
    requires InOrder(d, owner, next) && Owned(d', owner, NMETA, |d.blocks|) && d'.blocks == d.blocks
    ensures InOrder(d', owner, next)
  {
    hide Ref;
  }

  /** Rounding a tight file's size up past a boundary it already met leaves its last block missing. */
  lemma RoundedHoles(d: Disk, d': Disk, i: nat)
    requires i < |d.inodes| && Tight(d, i, d.inodes[i].size) && forall s :: Ref(d', s) == Ref(d, s)
    requires Size(d', i) == (d.inodes[i].size / BSIZE + 1) * BSIZE
    ensures NoHoles(d', i) <==> d.inodes[i].size % BSIZE != 0
    ensures d.inodes[i].size % BSIZE == 0 ==> Ref(d', SlotOf(i, d.inodes[i].size / BSIZE)) == 0
  {
    hide Ref;
    var size := d.inodes[i].size;
    if size % BSIZE == 0 {
      assert Ref(d, SlotOf(i, size / BSIZE)) == 0;
      assert Ref(d', SlotOf(i, size / BSIZE)) == 0;
      assert size / BSIZE * BSIZE < Size(d', i);
    } else {
      forall n: nat | n * BSIZE < Size(d', i) ensures Ref(d', SlotOf(i, n)) != 0 {
        assert n <= size / BSIZE;
        assert n * BSIZE < size;
        assert Ref(d, SlotOf(i, n)) != 0;
      }
    }
  }

  lemma ZeroBits(bits: Bits)
    requires |bits| == BSIZE && forall k :: 0 <= k < BSIZE ==> bits[k] == 0
    ensures forall c :: 0 <= c < BPB ==> !Bit(bits, c)
  {
    hide Mask;
    forall c | 0 <= c < BPB ensures !Bit(bits, c) {
      assert bits[c / 8] == 0;
    }
  }

  lemma SetBitIs(bits: Bits, b: nat)
    requires b / 8 < |bits|
    ensures SetBit(bits, b) == bits[b / 8 := Raise(bits[b / 8], b % 8)]
  {
  }

  lemma UsedBits(d: Disk, owner: map<nat, Slot>, next: nat, bits: Bits)
    requires InOrder(d, owner, next) && |bits| == BSIZE
    requires forall c :: 0 <= c < BPB ==> (Bit(bits, c) <==> c < next)
    ensures BitsMatch(bits, map b | b in owner && b < FSSIZE :: owner[b], NMETA, FSSIZE)
    ensures next <= FSSIZE ==> BitsMatch(bits, owner, NMETA, FSSIZE)
  {
    hide Bit, Owned;
  }

  datatype AppendResult = Appended | TooLarge
  datatype InodeResult = Handed(inum: nat) | Misplaced(block: nat)

  const DIRECTORY: Byte := 1
  const FILE: Byte := 2

  /** A new inode on disk: its type, one link, and zeros. */
  function FreshInode(kind: Byte): (bytes: seq<Byte>)
    ensures |bytes| == INODE
  {
    [kind, 0, 0, 0, 0, 0, 1, 0] + seq(INODE - 8, k => 0)
  }

  /** The image file, of n blocks at least. */
  function Padded(blocks: seq<Block>, n: nat): (padded: seq<Block>)
    ensures |padded| >= n && |padded| >= |blocks|
  {
    if n <= |blocks| then blocks else blocks + seq(n - |blocks|, k => ZeroBlock())
  }

  class Image {
    var inodes: seq<Inode>
    var blocks: seq<Block>
    var freeBlock: nat
    var freeInode: nat
    ghost var owner: map<nat, Slot>

    ghost function D(): Disk reads this {
      Disk(inodes, blocks)
    }

    /** Everything taken is used: the blocks taken are those that the files need, and each has its owner. */
    ghost predicate Valid() reads this {
      && InOrder(D(), owner, freeBlock) && |inodes| == SLOTS && freeInode <= SLOTS
      && (forall i :: 0 <= i < SLOTS ==> Tight(D(), i, inodes[i].size))
      && (forall i :: freeInode <= i < SLOTS ==> inodes[i] == EmptyInode())
      && freeBlock == NMETA + Total(inodes)
    }

    /** An image of zeros. */
    constructor ()
      ensures Valid() && freeInode == 1 && freeBlock == NMETA && forall i: nat :: Content(D(), i) == []
    {
      inodes := seq(SLOTS, i => EmptyInode());
      blocks := seq(FSSIZE, b => ZeroBlock());
      freeBlock, freeInode := NMETA, 1;
      owner := map[];
      new;
      forall s ensures Ref(D(), s) == 0 {
      }
      TotalEmpty(inodes);
    }

    /**
      Hands out the next inode, empty. There is no check: the inodes from TABLE on lie in the block of
      the free map, and those from SLOTS on are written over data blocks.
     */
    method AllocateInode(kind: Byte) returns (r: InodeResult)
      requires Valid()
      modifies this`freeInode, this`inodes, this`blocks
      ensures r.Handed? <==> old(freeInode) < SLOTS
      ensures r.Handed? ==> Valid() && r.inum == old(freeInode) && freeInode == r.inum + 1 && Content(D(), r.inum) == []
      ensures r.Handed? ==> D() == old(D())
      ensures r.Misplaced? ==>
                && inodes == old(inodes) && NMETA <= r.block == INODESTART + old(freeInode) / IPB < |blocks|
                && blocks == Padded(old(blocks), r.block + 1)[r.block :=
                     SpliceBlock(Padded(old(blocks), r.block + 1)[r.block], old(freeInode) % IPB * INODE, FreshInode(kind))]
    {
      var inum := freeInode;
      freeInode := freeInode + 1;
      var block := INODESTART + inum / IPB;
      if block >= NMETA {
        blocks := Padded(blocks, block + 1);
        blocks := blocks[block := SpliceBlock(blocks[block], inum % IPB * INODE, FreshInode(kind))];
        return Misplaced(block);
      }
      inodes := inodes[inum := EmptyInode()];
      assert inodes == old(inodes);
      return Handed(inum);
    }

    /**
      The block for block n of the inode din being built as inode i, taking the next ones if need be.
      A data block beyond the end of the image starts out with what the read buffer still holds.
     */
    method MapBlock(i: nat, din: Inode, n: nat, left: Block) returns (x: nat, din': Inode)
      requires i < |inodes| && n < MAXFILE && InOrder(Disk(inodes[i := din], blocks), owner, freeBlock)
      requires freeBlock + 2 <= WORDS
      modifies this`blocks, this`freeBlock, this`owner
      ensures InOrder(Disk(inodes[i := din'], blocks), owner, freeBlock) && din'.size == din.size
      ensures x == Ref(Disk(inodes[i := din'], blocks), SlotOf(i, n)) && x < |blocks|
      ensures Gained(Disk(inodes[i := din], old(blocks)), Disk(inodes[i := din'], blocks), i, n)
      ensures freeBlock == old(freeBlock) + Missing(Disk(inodes[i := din], old(blocks)), i, n)
    {
      hide Owned, Ref, SameBytes, SameBytesBut, Word, PutWord, InOrder, Gained, Missing, Grown;
      ghost var d := Disk(inodes[i := din], blocks);
      din' := din;
      InOrderFacts(d, owner, freeBlock);
      DirectRef(d, owner, NMETA, |blocks|, i, if n < NDIRECT then n else NDIRECT);
      if n < NDIRECT {
        if din.addrs[n] == 0 {
          GrowKeeps(d, owner, freeBlock, left);
          blocks := Grown(blocks, freeBlock, left);
          ghost var g := Disk(inodes[i := din], blocks);
          din' := Inode(din.size, din.addrs[n := freeBlock]);
          AttachDirect(g, owner, NMETA, |blocks|, i, n, freeBlock);
          ghost var d' := Disk(inodes[i := din'], blocks);
          assert d' == WithAddr(g, i, n, freeBlock);
          TakeNext(d, d', owner, freeBlock, left, Direct(i, n));
          GainedSlot(d, g, d', i, n, freeBlock);
          owner := owner[freeBlock := Direct(i, n)];
          freeBlock := freeBlock + 1;
        } else {
          GainedNothing(d, i, n);
        }
        x := din'.addrs[n];
        InOrderFacts(Disk(inodes[i := din'], blocks), owner, freeBlock);
        DirectRef(Disk(inodes[i := din'], blocks), owner, NMETA, |blocks|, i, n);
        HeldBlock(Disk(inodes[i := din'], blocks), owner, NMETA, |blocks|, Direct(i, n));
        return;
      }
      if din.addrs[NDIRECT] == 0 {
        din' := AddIndirect(i, din);
        ghost var d1 := Disk(inodes[i := din'], blocks);
        ghost var b := freeBlock - 1;
        x := MapIndirectEntry(i, din', n, left);
        GainedIndirect(d, Disk(inodes[i := din], Grown(d.blocks, b, ZeroBlock())), d1, Disk(inodes[i := din'], blocks), i, n, b);
      } else {
        x := MapIndirectEntry(i, din', n, left);
      }
    }

    /** Takes a zeroed block as the indirect block of the inode being built. */
    method AddIndirect(i: nat, din: Inode) returns (din': Inode)
      requires i < |inodes| && InOrder(Disk(inodes[i := din], blocks), owner, freeBlock)
      requires |din.addrs| == NDIRECT + 1 && din.addrs[NDIRECT] == 0
      modifies this`blocks, this`freeBlock, this`owner
      ensures freeBlock == old(freeBlock) + 1 && InOrder(Disk(inodes[i := din'], blocks), owner, freeBlock)
      ensures din' == Inode(din.size, din.addrs[NDIRECT := old(freeBlock)]) && old(freeBlock) != 0
      ensures
        var d, d1 := Disk(inodes[i := din], old(blocks)), Disk(inodes[i := din'], blocks);
        var g := Disk(inodes[i := din], Grown(old(blocks), old(freeBlock), ZeroBlock()));
        && SameBytes(d, g) && (forall s :: Ref(g, s) == Ref(d, s)) && Ref(d, Indirect(i)) == 0
        && SameBytes(g, d1) && (forall s :: Ref(d1, s) == if s == Indirect(i) then old(freeBlock) else Ref(g, s))
    {
      hide Owned, Ref, SameBytes, InOrder, Grown;
      ghost var d := Disk(inodes[i := din], blocks);
      InOrderFacts(d, owner, freeBlock);
      DirectRef(d, owner, NMETA, |blocks|, i, NDIRECT);
      GrowKeeps(d, owner, freeBlock, ZeroBlock());
      blocks := Grown(blocks, freeBlock, ZeroBlock());
      ghost var g := Disk(inodes[i := din], blocks);
      din' := Inode(din.size, din.addrs[NDIRECT := freeBlock]);
      AttachIndirect(g, owner, NMETA, |blocks|, i, freeBlock);
      ghost var d1 := Disk(inodes[i := din'], blocks);
      assert d1 == WithAddr(g, i, NDIRECT, freeBlock);
      TakeNext(d, d1, owner, freeBlock, ZeroBlock(), Indirect(i));
      owner := owner[freeBlock := Indirect(i)];
      freeBlock := freeBlock + 1;
    }

    /** The block for block n through the indirect block, which is there. */
    method MapIndirectEntry(i: nat, din: Inode, n: nat, left: Block) returns (x: nat)
      requires i < |inodes| && NDIRECT <= n < MAXFILE && InOrder(Disk(inodes[i := din], blocks), owner, freeBlock)
      requires |din.addrs| == NDIRECT + 1 && din.addrs[NDIRECT] != 0 && freeBlock + 1 <= WORDS
      modifies this`blocks, this`freeBlock, this`owner
      ensures InOrder(Disk(inodes[i := din], blocks), owner, freeBlock)
      ensures x == Ref(Disk(inodes[i := din], blocks), SlotOf(i, n)) && x < |blocks|
      ensures Gained(Disk(inodes[i := din], old(blocks)), Disk(inodes[i := din], blocks), i, n)
      ensures freeBlock == old(freeBlock) + Missing(Disk(inodes[i := din], old(blocks)), i, n)
    {
      hide Owned, Ref, SameBytes, SameBytesBut, Word, PutWord, InOrder, Gained, Missing, Grown;
      ghost var d := Disk(inodes[i := din], blocks);
      var k := n - NDIRECT;
      InOrderFacts(d, owner, freeBlock);
      DirectRef(d, owner, NMETA, |blocks|, i, NDIRECT);
      EntryRef(d, owner, NMETA, |blocks|, i, k);
      var ind := din.addrs[NDIRECT];
      x := Word(blocks[ind], k);
      if x == 0 {
        GrowKeeps(d, owner, freeBlock, left);
        blocks := Grown(blocks, freeBlock, left);
        ghost var g := Disk(inodes[i := din], blocks);
        x := freeBlock;
        AttachEntry(g, owner, NMETA, |blocks|, i, k, x);
        IndirectTaken(d, owner, freeBlock, i);
        blocks := blocks[ind := PutWord(blocks[ind], k, x)];
        ghost var d' := Disk(inodes[i := din], blocks);
        assert d' == WithBlock(g, ind, PutWord(g.blocks[ind], k, x));
        TakeNext(d, d', owner, freeBlock, left, Entry(i, k));
        GainedSlot(d, g, d', i, n, freeBlock);
        owner := owner[freeBlock := Entry(i, k)];
        freeBlock := freeBlock + 1;
      } else {
        HeldBlock(d, owner, NMETA, |blocks|, Entry(i, k));
        GainedNothing(d, i, n);
      }
    }

    /**
      Appends data to file i, which then holds its old contents and data; no other file changes. The
      blocks taken are those that the longer file needs more than the shorter one. It stops exactly
      when the file would get larger than an inode can map; the end of the disk does not stop it.
    */
    method AppendInode(i: nat, data: seq<Byte>) returns (r: AppendResult)
      requires Valid() && i < freeInode
      modifies this
      ensures r.Appended? <==> |Content(old(D()), i)| + |data| <= MAXFILE * BSIZE
      ensures r.Appended? ==> Valid() && freeInode == old(freeInode)
      ensures r.Appended? ==> Content(D(), i) == Content(old(D()), i) + data
      ensures r.Appended? ==> forall j: nat :: j != i ==> Content(D(), j) == Content(old(D()), j)
      ensures r.Appended? ==> freeBlock == old(freeBlock) - Blocks(|Content(old(D()), i)|) + Blocks(|Content(D(), i)|)
    {
      hide InOrder, Tight, Content, Ref, SlotOf, Gained, Missing, Blocks, Total, Appending;
      ghost var d0 := D();
      var din := inodes[i];
      ghost var size := din.size;
      var at := din.size;
      var rest := data;
      var buf := ZeroBlock();
      ghost var done := 0;
      ContentSize(d0, i);
      AppendStart(d0, owner, freeBlock, i, data);
      SizesBound();
      while rest != []
        invariant inodes == d0.inodes && freeInode == old(freeInode)
        invariant done <= |data| && rest == data[done..] && at == size + done && din.size == size
        invariant Appending(d0, Disk(inodes[i := din], blocks), owner, freeBlock, i, data[..done])
        invariant freeBlock == old(freeBlock) - Blocks(size) + Blocks(at) && Blocks(at) <= MAXFILE + 1
        decreases |rest|
      {
        var fbn := at / BSIZE;
        if fbn >= MAXFILE {
          return TooLarge;
        }
        ghost var d1 := Disk(inodes[i := din], blocks);
        ghost var owner1, next1 := owner, freeBlock;
        AppendingFacts(d0, d1, owner, freeBlock, i, data[..done]);
        var x;
        x, din := MapBlock(i, din, fbn, buf);
        var n := if |rest| < (fbn + 1) * BSIZE - at then |rest| else (fbn + 1) * BSIZE - at;
        ghost var d2 := Disk(inodes[i := din], blocks);
        AppendStep(d0, d1, owner1, next1, d2, owner, freeBlock, i, data[..done], rest[..n], at, x);
        BlocksStep(at, n);
        buf := SpliceBlock(blocks[x], at - fbn * BSIZE, rest[..n]);
        blocks := blocks[x := buf];
        assert data[..done] + rest[..n] == data[..done + n];
        done := done + n;
        at, rest := at + n, rest[n..];
      }
      assert data[..done] == data;
      ghost var d3 := Disk(inodes[i := din], blocks);
      inodes := inodes[i := Inode(at, din.addrs)];
      assert D() == WithSize(d3, i, at);
      AppendEnd(d0, d3, owner, freeBlock, i, data);
      TotalUpdate(d0.inodes, i, inodes[i]);
      TightBound(D(), i, at);
      ContentSize(D(), i);
      r := Appended;
    }

    /** No file is too large, so block numbers stay far below the largest word. */
    lemma SizesBound()
      requires Valid()
      ensures forall i :: 0 <= i < SLOTS ==> Blocks(inodes[i].size) <= MAXFILE + 1
      ensures freeBlock <= NMETA + SLOTS * (MAXFILE + 1)
    {
      hide Tight, InOrder;
      forall i | 0 <= i < SLOTS ensures inodes[i].size <= MAXFILE * BSIZE {
        TightBound(D(), i, inodes[i].size);
      }
      TotalBound(inodes);
    }

    /**
      Rounds the size of the root directory up to the next block boundary beyond it. The directory
      is left without holes exactly when its size was not on a boundary already.
    */
    method FixRoot(root: nat)
      requires Valid() && root < SLOTS
      modifies this`inodes
      ensures InOrder(D(), owner, freeBlock) && |inodes| == SLOTS && SameBytes(old(D()), D())
      ensures NoHoles(D(), root) <==> old(inodes)[root].size % BSIZE != 0
      ensures old(inodes)[root].size % BSIZE == 0 ==> Ref(D(), SlotOf(root, old(inodes)[root].size / BSIZE)) == 0
      ensures inodes[root].size == (old(inodes)[root].size / BSIZE + 1) * BSIZE
      ensures forall j :: 0 <= j < SLOTS && j != root ==> inodes[j] == old(inodes)[j]
    {
      hide InOrder, Ref, SlotOf;
      ghost var d := D();
      var size := (inodes[root].size / BSIZE + 1) * BSIZE;
      InOrderFacts(d, owner, freeBlock);
      SizeKeepsRefs(d, owner, NMETA, |blocks|, root, size);
      inodes := inodes[root := Inode(size, inodes[root].addrs)];
      assert D() == WithSize(d, root, size);
      InOrderSame(d, D(), owner, freeBlock);
      RoundedHoles(d, D(), root);
    }

    /**
      Writes the free map, the bits of the blocks below freeBlock, if one block of the map has them. The
      inodes that lay in that block are gone.
     */
    method AllocateBlock() returns (bits: Bits, ok: bool)
      requires InOrder(D(), owner, freeBlock) && |inodes| == SLOTS
      modifies this`inodes
      ensures ok <==> freeBlock < BPB
      ensures inodes == if ok then old(inodes)[..TABLE] else old(inodes)
      ensures ok ==> |bits| == BSIZE && forall c :: 0 <= c < BPB ==> (Bit(bits, c) <==> c < freeBlock)
      ensures ok && freeBlock <= FSSIZE ==> BitsMatch(bits, owner, NMETA, FSSIZE)
    {
      hide InOrder, Bit, SetBit, Raise;
      bits := seq(BSIZE, k => 0);
      if freeBlock >= BPB {
        return bits, false;
      }
      ZeroBits(bits);
      var b := 0;
      while b < freeBlock
        invariant 0 <= b <= freeBlock && |bits| == BSIZE && inodes == old(inodes)
        invariant forall c :: 0 <= c < BPB ==> (Bit(bits, c) <==> c < b)
      {
        forall c | 0 <= c < BPB ensures Bit(SetBit(bits, b), c) <==> c < b + 1 {
          SetOneBit(bits, b, c);
        }
        SetBitIs(bits, b);
        bits := bits[b / 8 := Raise(bits[b / 8], b % 8)];
        b := b + 1;
      }
      UsedBits(D(), owner, freeBlock, bits);
      inodes := inodes[..TABLE];
      ok := true;
    }
  }

  // ---------------------------------------------------------------- a whole run

  /** A file named on the command line: its directory entry and its bytes. */
  datatype Source = Source(entry: seq<Byte>, data: seq<Byte>)

  datatype AddResult = Added | Full | Large
  datatype MakeResult = Done(bits: Bits) | Panicked | Misplacing

  function Listing(files: seq<Source>): seq<Byte> {
    if files == [] then [] else Listing(files[..|files| - 1]) + files[|files| - 1].entry
  }

  function Need(files: seq<Source>): nat {
    if files == [] then 0 else Need(files[..|files| - 1]) + Blocks(|files[|files| - 1].data|)
  }

  /** Blocks used when the program is done: metadata, the root directory and the files. */
  function Used(files: seq<Source>): nat {
    NMETA + Blocks((2 + |files|) * ENTRY) + Need(files)
  }

  predicate Entries(files: seq<Source>) {
    forall k :: 0 <= k < |files| ==> |files[k].entry| == ENTRY
  }

  predicate Mappable(files: seq<Source>) {
    forall k :: 0 <= k < |files| ==> |files[k].data| <= MAXFILE * BSIZE
  }

  /** The inode blocks have room, every file can be mapped, and one block of the free map has the bits. */
  predicate Accepted(files: seq<Source>) {
    && |files| + 2 <= SLOTS
    && Mappable(files)
    && Used(files) < BPB
  }

  lemma {:induction false} ListingSize(files: seq<Source>)
    requires Entries(files)
    ensures |Listing(files)| == |files| * ENTRY
  {
    if files != [] {
      ListingSize(files[..|files| - 1]);
    }
  }

  lemma Longer(files: seq<Source>, f: Source)
    ensures Listing(files + [f]) == Listing(files) + f.entry
    ensures Need(files + [f]) == Need(files) + Blocks(|f.data|)
  {
    assert (files + [f])[..|files|] == files;
  }

  lemma SameContent(d: Disk, d': Disk, i: nat)
    requires SameBytes(d, d') && Size(d, i) <= Size(d', i)
    ensures Content(d, i) <= Content(d', i)
    ensures Size(d', i) == Size(d, i) ==> Content(d', i) == Content(d, i)
  {
    hide FileByte;
    forall p: nat | p < Size(d, i) ensures Content(d', i)[p] == Content(d, i)[p] {
      assert FileByte(d', i, p) == FileByte(d, i, p);
    }
  }

  /** Where the program stands after some files; dots are the two first entries of the root directory. */
  ghost predicate Building(img: Image, dots: seq<Byte>, files: seq<Source>)
    reads img
  {
    && img.Valid() && img.freeInode == |files| + 2 && Mappable(files)
    && Content(img.D(), ROOTINO) == dots + Listing(files)
    && img.freeBlock == NMETA + Blocks(|dots + Listing(files)|) + Need(files)
    && forall k :: 0 <= k < |files| ==> Content(img.D(), k + 2) == files[k].data
  }

  method StartImage(dot: seq<Byte>, dotdot: seq<Byte>) returns (img: Image)
    requires |dot| == ENTRY && |dotdot| == ENTRY
    ensures fresh(img) && Building(img, dot + dotdot, [])
  {
    hide InOrder, Tight, Content, Total;
    img := new Image();
    var root := img.AllocateInode(DIRECTORY);
    var added := img.AppendInode(root.inum, dot);
    added := img.AppendInode(root.inum, dotdot);
    assert dot + dotdot + Listing([]) == dot + dotdot;
  }

  lemma EmptyFile()
    ensures Blocks(0) == 0
  {
  }

  /** Adds one file, unless the inode blocks have no room for it or it is too large to be mapped. */
  method AddFile(img: Image, ghost dots: seq<Byte>, ghost files: seq<Source>, f: Source) returns (r: AddResult)
    requires Building(img, dots, files) && |dots| == 2 * ENTRY && Entries(files) && |f.entry| == ENTRY
    modifies img
    ensures r == (if |files| + 2 >= SLOTS then Full else if |f.data| > MAXFILE * BSIZE then Large else Added)
    ensures r.Added? ==> Building(img, dots, files + [f])
  {
    hide InOrder, Tight, Content, Total, Blocks, Listing, Need;
    var file := img.AllocateInode(FILE);
    if file.Misplaced? {
      return Full;
    }
    ListingSize(files);
    Longer(files, f);
    var added := img.AppendInode(ROOTINO, f.entry);
    added := img.AppendInode(file.inum, f.data);
    if added.TooLarge? {
      return Large;
    }
    assert dots + Listing(files) + f.entry == dots + Listing(files + [f]);
    assert Blocks(0) == 0 by { EmptyFile(); }
    assert [] + f.data == f.data;
    return Added;
  }

  /** The root directory is a whole number of blocks; if its entries filled theirs, the last one is missing. */
  ghost predicate RootHole(d: Disk, size: nat) {
    && Size(d, ROOTINO) == (size / BSIZE + 1) * BSIZE
    && (size % BSIZE == 0 ==> Ref(d, SlotOf(ROOTINO, size / BSIZE)) == 0)
  }

  /** Corrects the size of the root directory; the bytes stay. */
  method FinishRoot(img: Image, ghost dots: seq<Byte>, ghost files: seq<Source>)
    requires Building(img, dots, files) && |dots| == 2 * ENTRY && Entries(files)
    modifies img`inodes
    ensures InOrder(img.D(), img.owner, img.freeBlock)
    ensures forall k :: 0 <= k < |files| ==> Content(img.D(), k + 2) == files[k].data
    ensures dots + Listing(files) <= Content(img.D(), ROOTINO)
    ensures NoHoles(img.D(), ROOTINO) <==> (2 + |files|) * ENTRY % BSIZE != 0
    ensures RootHole(img.D(), (2 + |files|) * ENTRY)
    ensures |img.inodes| == SLOTS && forall i :: |files| + 2 <= i < SLOTS ==> img.inodes[i] == EmptyInode()
  {
    hide InOrder, Tight, Content, Total, Blocks, Listing, Need, SameBytes, NoHoles;
    ListingSize(files);
    ghost var d := img.D();
    ContentSize(d, ROOTINO);
    img.FixRoot(ROOTINO);
    forall k | 0 <= k < |files| ensures Content(img.D(), k + 2) == files[k].data {
      SameContent(d, img.D(), k + 2);
    }
    SameContent(d, img.D(), ROOTINO);
  }

  /** The disk with the inodes of the inode blocks alone. */
  function InTable(d: Disk): Disk
    requires TABLE <= |d.inodes|
  {
    Disk(d.inodes[..TABLE], d.blocks)
  }

  /** Inodes that hold nothing can go. */
  lemma TableKeepsOrder(d: Disk, owner: map<nat, Slot>, next: nat)
    requires InOrder(d, owner, next) && TABLE <= |d.inodes| && forall i :: TABLE <= i < |d.inodes| ==> d.inodes[i] == EmptyInode()
    ensures InOrder(InTable(d), owner, next)
  {
    forall s ensures Ref(InTable(d), s) == Ref(d, s) {
      assert forall i: nat, k: nat :: Addr(InTable(d), i, k) == Addr(d, i, k);
    }
    hide Ref;
  }

  lemma TableContent(d: Disk, i: nat)
    requires i < TABLE <= |d.inodes|
    ensures Content(InTable(d), i) == Content(d, i) && Size(InTable(d), i) == Size(d, i)
    ensures forall s: Slot :: s.i == i ==> Ref(InTable(d), s) == Ref(d, s)
    ensures NoHoles(InTable(d), i) <==> NoHoles(d, i)
  {
    assert forall k: nat :: Addr(InTable(d), i, k) == Addr(d, i, k);
    forall s: Slot | s.i == i ensures Ref(InTable(d), s) == Ref(d, s) {
    }
    forall p: nat ensures FileByte(InTable(d), i, p) == FileByte(d, i, p) {
    }
  }

  /** The disk is a file system in which every file has an inode and its bytes. */
  ghost predicate HoldsFiles(d: Disk, bits: Bits, files: seq<Source>) {
    && (exists o :: Owned(d, o, NMETA, FSSIZE) && BitsMatch(bits, o, NMETA, FSSIZE))
    && forall k :: 0 <= k < |files| ==> k + 2 < |d.inodes| && Content(d, k + 2) == files[k].data
  }

  /**
    The program: the root directory with its two own entries, then for each file an inode, its entry
    in the root directory and its bytes; at last the size of the root directory and the free map.
    If no inode goes to a data block, it comes to an end exactly on the inputs that Accepted
    describes. The disk then holds every file exactly when the inodes fit the inode blocks and the
    blocks used fit the disk. Every file with an inode there has its bytes, and the root directory
    starts with the entries.
  */
  method MakeImage(dot: seq<Byte>, dotdot: seq<Byte>, files: seq<Source>) returns (img: Image, r: MakeResult)
    requires |dot| == ENTRY && |dotdot| == ENTRY && Entries(files)
    ensures fresh(img)
    ensures r.Done? <==> Accepted(files)
    ensures r.Misplacing? ==> |files| + 2 > SLOTS
    ensures r.Done? ==> FSSIZE <= |img.blocks| && |img.inodes| == TABLE && img.freeBlock == Used(files)
    ensures r.Done? ==>
              (HoldsFiles(OnDisk(img.D()), r.bits, files) <==> |files| + 2 <= TABLE && Used(files) <= FSSIZE)
    ensures r.Done? ==> forall k :: 0 <= k < |files| && k + 2 < TABLE ==> Content(img.D(), k + 2) == files[k].data
    ensures r.Done? ==> dot + dotdot + Listing(files) <= Content(img.D(), ROOTINO)
    ensures r.Done? ==> (NoHoles(img.D(), ROOTINO) <==> (2 + |files|) * ENTRY % BSIZE != 0)
    ensures r.Done? ==> RootHole(img.D(), (2 + |files|) * ENTRY)
    ensures r.Done? ==> |r.bits| == BSIZE && forall c :: 0 <= c < BPB ==> (Bit(r.bits, c) <==> c < Used(files))
    ensures r.Done? && |files| + 2 <= TABLE ==> InOrder(img.D(), img.owner, img.freeBlock)
    ensures r.Done? && |files| + 2 <= TABLE ==>
              ((exists o :: Owned(OnDisk(img.D()), o, NMETA, FSSIZE)) <==> Used(files) <= FSSIZE)
    ensures r.Done? && Used(files) <= FSSIZE ==> BitsMatch(r.bits, img.owner, NMETA, FSSIZE)
  {
    hide InOrder, Content, Owned, BitsMatch, NoHoles, Building, Blocks, Listing, Need, HoldsFiles, RootHole, Ref, SlotOf;
    img := StartImage(dot, dotdot);
    assert files[..0] == [];
    for k := 0 to |files|
      invariant fresh(img) && Building(img, dot + dotdot, files[..k]) && k + 2 <= SLOTS && Mappable(files[..k])
    {
      var added := AddFile(img, dot + dotdot, files[..k], files[k]);
      if added.Full? {
        return img, Misplacing;
      }
      if added.Large? {
        return img, Panicked;
      }
      assert files[..k] + [files[k]] == files[..k + 1];
    }
    assert files[..|files|] == files;
    ListingSize(files);
    BuildingUsed(img, dot + dotdot, files);
    FinishRoot(img, dot + dotdot, files);
    ghost var d := img.D();
    InOrderFacts(d, img.owner, img.freeBlock);
    var bits, ok := img.AllocateBlock();
    if !ok {
      return img, Panicked;
    }
    assert img.D() == InTable(d);
    ImageHolds(d, img.owner, bits, files);
    TableContent(d, ROOTINO);
    RootHoleStays(d, (2 + |files|) * ENTRY);
    r := Done(bits);
  }

  lemma RootHoleStays(d: Disk, size: nat)
    requires RootHole(d, size) && TABLE <= |d.inodes|
    ensures RootHole(InTable(d), size)
  {
    hide Ref, Content, NoHoles;
    TableContent(d, ROOTINO);
    assert SlotOf(ROOTINO, size / BSIZE).i == ROOTINO;
  }

  /** What the finished disk holds. */
  lemma ImageHolds(d: Disk, owner: map<nat, Slot>, bits: Bits, files: seq<Source>)
    requires InOrder(d, owner, Used(files)) && |d.inodes| == SLOTS && forall i :: |files| + 2 <= i < SLOTS ==> d.inodes[i] == EmptyInode()
    requires forall k :: 0 <= k < |files| ==> Content(d, k + 2) == files[k].data
    requires Used(files) <= FSSIZE ==> BitsMatch(bits, owner, NMETA, FSSIZE)
    requires |files| + 2 <= SLOTS && FSSIZE <= |d.blocks|
    ensures HoldsFiles(OnDisk(InTable(d)), bits, files) <==> |files| + 2 <= TABLE && Used(files) <= FSSIZE
    ensures forall k :: 0 <= k < |files| && k + 2 < TABLE ==> Content(InTable(d), k + 2) == files[k].data
    ensures |files| + 2 <= TABLE ==> InOrder(InTable(d), owner, Used(files))
    ensures |files| + 2 <= TABLE ==>
              ((exists o :: Owned(OnDisk(InTable(d)), o, NMETA, FSSIZE)) <==> Used(files) <= FSSIZE)
  {
    hide InOrder, Content, Owned, BitsMatch, Ref, Used, NoHoles;
    var t := InTable(d);
    forall k | 0 <= k < |files| && k + 2 < TABLE ensures Content(t, k + 2) == files[k].data {
      TableContent(d, k + 2);
    }
    if |files| + 2 <= TABLE {
      TableKeepsOrder(d, owner, Used(files));
      FitsOnDisk(t, owner, Used(files));
      if Used(files) <= FSSIZE {
        InOrderFacts(t, owner, Used(files));
        assert OnDisk(t) == t;
        assert Owned(t, owner, NMETA, FSSIZE) && BitsMatch(bits, owner, NMETA, FSSIZE);
      }
    } else {
      var last := TABLE - 2;
      assert last < |files| && last + 2 == |OnDisk(t).inodes| && files[last] == files[last];
    }
  }

  lemma BuildingUsed(img: Image, dots: seq<Byte>, files: seq<Source>)
    requires Building(img, dots, files) && |dots| == 2 * ENTRY && Entries(files)
    ensures img.freeBlock == Used(files) && Mappable(files) && |files| + 2 <= SLOTS
  {
    hide Content, InOrder, Tight, Total, Blocks, Need, Listing;
    ListingSize(files);
  }

  /** An image that fits the disk is mounted as a file system in order. */
  method Mount(img: Image, bits: Bits) returns (fs: FileSystem)
    requires InOrder(img.D(), img.owner, img.freeBlock) && img.freeBlock <= FSSIZE && BitsMatch(bits, img.owner, NMETA, FSSIZE)
    ensures fresh(fs) && fs.Valid() && fs.D() == img.D() && fs.inodes == fs.dinodes && fs.bits == bits && fs.size == FSSIZE
  {
    InOrderFacts(img.D(), img.owner, img.freeBlock);
    fs := new FileSystem(NMETA, BMAPSTART, INODESTART, img.inodes, img.blocks, bits, img.owner);
  }

  /**
    If the entries fill their blocks exactly and a block of the disk is free, then reading the root
    directory from their end, while no operation of the log is outstanding, panics.
  */
  method ReadRootEnd(dot: seq<Byte>, dotdot: seq<Byte>, files: seq<Source>, room: nat) returns (r: ReadEnd)
    requires |dot| == ENTRY && |dotdot| == ENTRY && Entries(files)
    requires Accepted(files) && |files| + 2 <= TABLE && Used(files) < FSSIZE && (2 + |files|) * ENTRY % BSIZE == 0
    ensures r.OutsideOfTrans?
  {
    hide InOrder, Owned, BitsMatch, NoHoles, Blocks, Listing, Need, Bit, Content, Ref, Reaches, MapsOnly;
    var img, made := MakeImage(dot, dotdot, files);
    var fs := Mount(img, made.bits);
    var off := (2 + |files|) * ENTRY;
    ContentSize(fs.D(), ROOTINO);
    InOrderFacts(img.D(), img.owner, img.freeBlock);
    assert off / BSIZE < MAXFILE && off / BSIZE * BSIZE == off;
    assert MeetsHole(fs.D(), ROOTINO, off, 1);
    assert !Bit(fs.bits, Used(files));
    var off';
    r, off' := fs.FileRead(ROOTINO, off, 1, room, 0);
  }

  function Copies(n: nat, f: Source): seq<Source> {
    seq(n, k => f)
  }

  lemma {:induction false} NeedCopies(n: nat, f: Source)
    ensures Need(Copies(n, f)) == n * Blocks(|f.data|)
  {
    if n > 0 {
      assert Copies(n, f)[..n - 1] == Copies(n - 1, f);
      NeedCopies(n - 1, f);
    }
  }

  /** Eight files of the largest size are accepted, and the disk that comes out is no file system. */
  method OverfullImage(entry: seq<Byte>) returns (img: Image, r: MakeResult)
    requires |entry| == ENTRY
    ensures r.Done? && FSSIZE <= |img.blocks| && forall o :: !Owned(OnDisk(img.D()), o, NMETA, FSSIZE)
  {
    hide Owned, InOrder;
    var f := Source(entry, seq(MAXFILE * BSIZE, p => 0));
    NeedCopies(8, f);
    assert Used(Copies(8, f)) == NMETA + 1 + 8 * (MAXFILE + 1) by { assert Blocks(10 * ENTRY) == 1; }
    img, r := MakeImage(entry, entry, Copies(8, f));
    InOrderFacts(img.D(), img.owner, img.freeBlock);
  }

  /** 207 empty files use 51 blocks, and the program ends; but the inode of the last one is lost to the free map. */
  method LostFile(entry: seq<Byte>) returns (img: Image, r: MakeResult, files: seq<Source>)
    requires |entry| == ENTRY
    ensures |files| == TABLE - 1 && Used(files) <= FSSIZE && (forall k :: 0 <= k < |files| ==> files[k].data == [])
    ensures r.Done? && FSSIZE <= |img.blocks| && !HoldsFiles(OnDisk(img.D()), r.bits, files)
  {
    hide Owned, InOrder, HoldsFiles;
    var f := Source(entry, []);
    files := Copies(TABLE - 1, f);
    NeedCopies(TABLE - 1, f);
    assert Used(files) == NMETA + 4 by { assert Blocks((TABLE + 1) * ENTRY) == 4 && Blocks(0) == 0; }
    img, r := MakeImage(entry, entry, files);
  }
}
