/**
  Inodes and the blocks they own. A block is owned by one slot of one inode: a direct address, the
  address of the indirect block, or an entry of the indirect block. The lemmas say how each
  elementary step of the file system moves ownership and what it does to the bytes of every file.
*/
module InodeBlocks {

  const BSIZE: nat := 1024
  const NDIRECT: nat := 12
  const NINDIRECT: nat := 256
  const MAXFILE: nat := 268           // NDIRECT + NINDIRECT
  const WORDS: nat := 0x1_0000_0000   // values of a 32-bit word

  type Byte = x: int | 0 <= x < 256
  type Block = s: seq<Byte> | |s| == BSIZE witness seq(BSIZE, i => 0)

  function ZeroBlock(): Block {
    seq(BSIZE, i => 0)
  }

  // ---------- Words of an indirect block, little-endian ----------

  function Word(b: Block, k: nat): nat
    requires k < NINDIRECT
  {
    var b0: int, b1: int, b2: int, b3: int := b[4 * k], b[4 * k + 1], b[4 * k + 2], b[4 * k + 3];
    b0 + 0x100 * b1 + 0x1_0000 * b2 + 0x100_0000 * b3
  }

  function PutWord(b: Block, k: nat, w: nat): Block
    requires k < NINDIRECT && w < WORDS
  {
    b[4 * k := w % 0x100][4 * k + 1 := w / 0x100 % 0x100][4 * k + 2 := w / 0x1_0000 % 0x100][4 * k + 3 := w / 0x100_0000]
  }

  lemma SplitWord(w: nat)
    requires w < WORDS
    ensures w == w % 0x100 + 0x100 * (w / 0x100 % 0x100) + 0x1_0000 * (w / 0x1_0000 % 0x100) + 0x100_0000 * (w / 0x100_0000)
    ensures w / 0x100_0000 < 256
  {
    assert w == 0x100 * (w / 0x100) + w % 0x100;
    assert w / 0x100 == 0x100 * (w / 0x1_0000) + w / 0x100 % 0x100;
    assert w / 0x1_0000 == 0x100 * (w / 0x100_0000) + w / 0x1_0000 % 0x100;
  }

  /** Writing a word is read back, and leaves the other words alone. */
  lemma WordPut(b: Block, k: nat, w: nat, j: nat)
    requires k < NINDIRECT && w < WORDS && j < NINDIRECT
    ensures Word(PutWord(b, k, w), j) == if j == k then w else Word(b, j)
  {
    SplitWord(w);
  }

  lemma ZeroWord(k: nat)
    requires k < NINDIRECT
    ensures Word(ZeroBlock(), k) == 0
  {
  }

  // ---------- Slots ----------

  datatype Inode = Inode(size: nat, addrs: seq<nat>)

  datatype Disk = Disk(inodes: seq<Inode>, blocks: seq<Block>)

  datatype Slot = Direct(i: nat, k: nat) | Indirect(i: nat) | Entry(i: nat, k: nat)

  predicate Shaped(d: Disk) {
    forall i :: 0 <= i < |d.inodes| ==> |d.inodes[i].addrs| == NDIRECT + 1
  }

  /** Address i has in the given place of its array, or 0. */
  function Addr(d: Disk, i: nat, k: nat): nat {
    if i < |d.inodes| && k < |d.inodes[i].addrs| then d.inodes[i].addrs[k] else 0
  }

  /** The block a slot holds, or 0. */
  function Ref(d: Disk, s: Slot): nat {
    match s
    case Direct(i, k) => if k < NDIRECT then Addr(d, i, k) else 0
    case Indirect(i) => Addr(d, i, NDIRECT)
    case Entry(i, k) =>
      var b := Addr(d, i, NDIRECT);
      if b != 0 && b < |d.blocks| && k < NINDIRECT then Word(d.blocks[b], k) else 0
  }

  /**
    Ownership: every block a slot holds is a data block that owner assigns to that very slot, and
    every block that has an owner is held there. So no two slots hold the same block.
  */
  ghost predicate Owned(d: Disk, owner: map<nat, Slot>, nmeta: nat, size: nat) {
    && Shaped(d) && |d.blocks| == size && 0 < nmeta
    && (forall s :: Ref(d, s) != 0 ==> Ref(d, s) in owner && owner[Ref(d, s)] == s)
    && (forall b :: b in owner ==> nmeta <= b < size && Ref(d, owner[b]) == b)
  }

  lemma UniqueSlot(d: Disk, owner: map<nat, Slot>, nmeta: nat, size: nat, s: Slot, t: Slot)
    requires Owned(d, owner, nmeta, size) && Ref(d, s) != 0 && Ref(d, s) == Ref(d, t)
    ensures s == t
  {
  }

  // ---------- Bytes of a file ----------

  function SlotOf(i: nat, n: nat): Slot {
    if n < NDIRECT then Direct(i, n) else Entry(i, n - NDIRECT)
  }

  /** Byte p of file i; a block that is not there reads as zeros. */
  function FileByte(d: Disk, i: nat, p: nat): Byte {
    var b := Ref(d, SlotOf(i, p / BSIZE));
    if b != 0 && b < |d.blocks| then d.blocks[b][p % BSIZE] else 0
  }

  ghost predicate SameBytes(d: Disk, d': Disk) {
    forall i: nat, p: nat :: FileByte(d', i, p) == FileByte(d, i, p)
  }

  /** No byte changes outside block n of file i. */
  ghost predicate SameBytesBut(d: Disk, d': Disk, i: nat, n: nat) {
    forall j: nat, p: nat :: j != i || p / BSIZE != n ==> FileByte(d', j, p) == FileByte(d, j, p)
  }

  function Size(d: Disk, i: nat): nat {
    if i < |d.inodes| then d.inodes[i].size else 0
  }

  /** The contents of file i. */
  function Content(d: Disk, i: nat): seq<Byte> {
    seq(Size(d, i), p requires p >= 0 => FileByte(d, i, p))
  }

  /** Every block within the size of file i is there. */
  ghost predicate NoHoles(d: Disk, i: nat) {
    forall n: nat :: n * BSIZE < Size(d, i) ==> Ref(d, SlotOf(i, n)) != 0
  }

  // ---------- Setting an address ----------

  function WithAddr(d: Disk, i: nat, k: nat, b: nat): Disk
    requires i < |d.inodes| && k < |d.inodes[i].addrs|
  {
    Disk(d.inodes[i := Inode(d.inodes[i].size, d.inodes[i].addrs[k := b])], d.blocks)
  }

  function WithBlock(d: Disk, b: nat, data: Block): Disk
    requires b < |d.blocks|
  {
    Disk(d.inodes, d.blocks[b := data])
  }

  /** A block that nobody holds, or that holds file data, can be rewritten without moving any slot. */
  lemma RewriteKeepsRefs(d: Disk, owner: map<nat, Slot>, nmeta: nat, size: nat, b: nat, data: Block)
    requires Owned(d, owner, nmeta, size) && b < size
    requires b in owner ==> !owner[b].Indirect?
    ensures forall s :: Ref(WithBlock(d, b, data), s) == Ref(d, s)
    ensures Owned(WithBlock(d, b, data), owner, nmeta, size)
  {
    var d' := WithBlock(d, b, data);
    forall s ensures Ref(d', s) == Ref(d, s) {
      if s.Entry? {
        assert Ref(d, Indirect(s.i)) == Addr(d, s.i, NDIRECT);
      }
    }
  }

  /** Zeroing a block that nobody holds changes no file. */
  lemma ZeroUnowned(d: Disk, owner: map<nat, Slot>, nmeta: nat, size: nat, b: nat)
    requires Owned(d, owner, nmeta, size) && b < size && b !in owner
    ensures Owned(WithBlock(d, b, ZeroBlock()), owner, nmeta, size)
    ensures forall s :: Ref(WithBlock(d, b, ZeroBlock()), s) == Ref(d, s)
    ensures SameBytes(d, WithBlock(d, b, ZeroBlock()))
  {
    RewriteKeepsRefs(d, owner, nmeta, size, b, ZeroBlock());
  }

  /** Hanging a block into an empty direct slot: one new owner, and no byte changes if the block is zeroed. */
  lemma AttachDirect(d: Disk, owner: map<nat, Slot>, nmeta: nat, size: nat, i: nat, k: nat, b: nat)
    requires Owned(d, owner, nmeta, size) && i < |d.inodes| && k < NDIRECT
    requires d.inodes[i].addrs[k] == 0 && nmeta <= b < size && b !in owner
    ensures Owned(WithAddr(d, i, k, b), owner[b := Direct(i, k)], nmeta, size)
    ensures forall s :: Ref(WithAddr(d, i, k, b), s) == if s == Direct(i, k) then b else Ref(d, s)
    ensures d.blocks[b] == ZeroBlock() ==> SameBytes(d, WithAddr(d, i, k, b))
    ensures SameBytesBut(d, WithAddr(d, i, k, b), i, k)
  {
    var d' := WithAddr(d, i, k, b);
    forall s ensures Ref(d', s) == if s == Direct(i, k) then b else Ref(d, s) {
    }
    assert Ref(d, Direct(i, k)) == 0;
  }

  /** Hanging a zeroed indirect block into an inode without one. */
  lemma AttachIndirect(d: Disk, owner: map<nat, Slot>, nmeta: nat, size: nat, i: nat, b: nat)
    requires Owned(d, owner, nmeta, size) && i < |d.inodes|
    requires d.inodes[i].addrs[NDIRECT] == 0 && nmeta <= b < size && b !in owner && d.blocks[b] == ZeroBlock()
    ensures Owned(WithAddr(d, i, NDIRECT, b), owner[b := Indirect(i)], nmeta, size)
    ensures forall s :: Ref(WithAddr(d, i, NDIRECT, b), s) == if s == Indirect(i) then b else Ref(d, s)
    ensures SameBytes(d, WithAddr(d, i, NDIRECT, b))
  {
    var d' := WithAddr(d, i, NDIRECT, b);
    forall s ensures Ref(d', s) == if s == Indirect(i) then b else Ref(d, s) {
      if s.Entry? && s.i == i && s.k < NINDIRECT {
        ZeroWord(s.k);
      }
    }
    assert Ref(d, Indirect(i)) == 0;
  }

  /** Hanging a block into an empty entry of the indirect block. */
  lemma AttachEntry(d: Disk, owner: map<nat, Slot>, nmeta: nat, size: nat, i: nat, k: nat, b: nat)
    requires Owned(d, owner, nmeta, size) && i < |d.inodes| && k < NINDIRECT && size <= WORDS
    requires d.inodes[i].addrs[NDIRECT] != 0 && Ref(d, Entry(i, k)) == 0
    requires nmeta <= b < size && b !in owner
    ensures
      var ind := d.inodes[i].addrs[NDIRECT];
      && ind < |d.blocks|
      && var d' := WithBlock(d, ind, PutWord(d.blocks[ind], k, b));
      && Owned(d', owner[b := Entry(i, k)], nmeta, size)
      && (forall s :: Ref(d', s) == if s == Entry(i, k) then b else Ref(d, s))
      && (d.blocks[b] == ZeroBlock() ==> SameBytes(d, d'))
      && SameBytesBut(d, d', i, NDIRECT + k)
  {
    var ind := d.inodes[i].addrs[NDIRECT];
    assert Ref(d, Indirect(i)) == ind;
    var d' := WithBlock(d, ind, PutWord(d.blocks[ind], k, b));
    forall s ensures Ref(d', s) == if s == Entry(i, k) then b else Ref(d, s) {
      EntryRefs(d, owner, nmeta, size, i, k, b, s);
    }
    forall j: nat, p: nat | d.blocks[b] == ZeroBlock() || j != i || p / BSIZE != NDIRECT + k
      ensures FileByte(d', j, p) == FileByte(d, j, p)
    {
      var s := SlotOf(j, p / BSIZE);
      if s != Entry(i, k) && Ref(d, s) != 0 {
        assert Ref(d, s) != ind;
      }
    }
  }

  lemma EntryRefs(d: Disk, owner: map<nat, Slot>, nmeta: nat, size: nat, i: nat, k: nat, b: nat, s: Slot)
    requires Owned(d, owner, nmeta, size) && i < |d.inodes| && k < NINDIRECT && b < WORDS
    requires d.inodes[i].addrs[NDIRECT] != 0
    ensures
      var ind := d.inodes[i].addrs[NDIRECT];
      ind < |d.blocks|
      && Ref(WithBlock(d, ind, PutWord(d.blocks[ind], k, b)), s) == if s == Entry(i, k) then b else Ref(d, s)
  {
    hide PutWord, Word;
    var ind := d.inodes[i].addrs[NDIRECT];
    assert Ref(d, Indirect(i)) == ind;
    if s.Entry? && s.k < NINDIRECT {
      WordPut(d.blocks[ind], k, b, s.k);
      if s.i != i {
        assert Ref(d, Indirect(s.i)) == Addr(d, s.i, NDIRECT);
        assert Addr(d, s.i, NDIRECT) != ind;
      }
    }
  }

  // ---------- Writing data ----------

  /** Rewriting block n of file i changes the bytes of that block of that file and no others. */
  lemma WriteData(d: Disk, owner: map<nat, Slot>, nmeta: nat, size: nat, i: nat, n: nat, data: Block)
    requires Owned(d, owner, nmeta, size) && Ref(d, SlotOf(i, n)) != 0
    ensures
      var b := Ref(d, SlotOf(i, n));
      && b < |d.blocks|
      && var d' := WithBlock(d, b, data);
      && Owned(d', owner, nmeta, size)
      && (forall s :: Ref(d', s) == Ref(d, s))
      && (forall j: nat, p: nat :: FileByte(d', j, p) ==
            if j == i && p / BSIZE == n then data[p % BSIZE] else FileByte(d, j, p))
  {
    var b := Ref(d, SlotOf(i, n));
    var d' := WithBlock(d, b, data);
    RewriteKeepsRefs(d, owner, nmeta, size, b, data);
    forall j: nat, p: nat
      ensures FileByte(d', j, p) == if j == i && p / BSIZE == n then data[p % BSIZE] else FileByte(d, j, p)
    {
      if Ref(d, SlotOf(j, p / BSIZE)) == b {
        UniqueSlot(d, owner, nmeta, size, SlotOf(j, p / BSIZE), SlotOf(i, n));
      }
    }
  }

  function WithSize(d: Disk, i: nat, size: nat): Disk
    requires i < |d.inodes|
  {
    Disk(d.inodes[i := Inode(size, d.inodes[i].addrs)], d.blocks)
  }

  lemma SizeKeepsRefs(d: Disk, owner: map<nat, Slot>, nmeta: nat, size: nat, i: nat, fileSize: nat)
    requires Owned(d, owner, nmeta, size) && i < |d.inodes|
    ensures Owned(WithSize(d, i, fileSize), owner, nmeta, size)
    ensures forall s :: Ref(WithSize(d, i, fileSize), s) == Ref(d, s)
    ensures SameBytes(d, WithSize(d, i, fileSize))
  {
    var d' := WithSize(d, i, fileSize);
    forall s ensures Ref(d', s) == Ref(d, s) {
      assert forall j: nat, k: nat :: Addr(d', j, k) == Addr(d, j, k);
    }
  }

  // ---------- Giving blocks up ----------


  /** Emptying a direct slot gives up exactly its block. */
  lemma DetachDirect(d: Disk, owner: map<nat, Slot>, nmeta: nat, size: nat, i: nat, k: nat)
    requires Owned(d, owner, nmeta, size) && i < |d.inodes| && k < NDIRECT && d.inodes[i].addrs[k] != 0
    ensures Owned(WithAddr(d, i, k, 0), owner - {d.inodes[i].addrs[k]}, nmeta, size)
    ensures forall s :: Ref(WithAddr(d, i, k, 0), s) == if s == Direct(i, k) then 0 else Ref(d, s)
  {
    var d' := WithAddr(d, i, k, 0);
    forall s ensures Ref(d', s) == if s == Direct(i, k) then 0 else Ref(d, s) {
    }
    assert Ref(d, Direct(i, k)) == d.inodes[i].addrs[k];
  }

  /** The blocks reached through the indirect block of inode i, itself included. */
  function IndirectBlocks(owner: map<nat, Slot>, i: nat): set<nat> {
    set b | b in owner && owner[b].i == i && !owner[b].Direct?
  }

  /** Dropping the indirect block gives up it and every block it lists. */
  lemma DetachIndirect(d: Disk, owner: map<nat, Slot>, nmeta: nat, size: nat, i: nat)
    requires Owned(d, owner, nmeta, size) && i < |d.inodes|
    ensures Owned(WithAddr(d, i, NDIRECT, 0), owner - IndirectBlocks(owner, i), nmeta, size)
    ensures forall s :: Ref(WithAddr(d, i, NDIRECT, 0), s) == if s.i == i && !s.Direct? then 0 else Ref(d, s)
  {
    var d' := WithAddr(d, i, NDIRECT, 0);
    forall s ensures Ref(d', s) == if s.i == i && !s.Direct? then 0 else Ref(d, s) {
    }
  }
}
