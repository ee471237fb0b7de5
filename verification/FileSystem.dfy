/**
  The block allocator and the inode operations over it: mapping a block of a file, truncating,
  reading and writing. The kernel keeps a copy of each inode in memory and writes it back.
*/
module FileSystem {
  import opened InodeBlocks
  import opened Bitmap
  import opened FileSteps

  datatype Option<T> = None | Some(value: T)

  const IPB: nat := 16         // inodes per block

  class FileSystem {
    const size: nat              // blocks on the disk
    const nmeta: nat             // blocks before the first data block
    const bmapstart: nat
    const inodestart: nat
    var inodes: seq<Inode>       // the copies in memory
    var dinodes: seq<Inode>      // the inodes on disk
    var blocks: seq<Block>
    var bits: Bits
    ghost var owner: map<nat, Slot>
    ghost var logged: set<nat>   // blocks the current operation has logged
    var calls: nat               // calls to the log
    var kept: multiset<nat>      // blocks whose buffer keeps a reference that nobody gives back

    ghost function D(): Disk reads this {
      Disk(inodes, blocks)
    }

    ghost predicate Valid() reads this {
      && Owned(D(), owner, nmeta, size) && size <= WORDS
      && BitsMatch(bits, owner, nmeta, size)
    }

    /** On a disk whose free map is one block, the blocks of the map in a set are that one. */
    ghost predicate OneMap(maps: set<nat>) {
      size <= BPB ==> maps <= {bmapstart}
    }

    lemma OneMapNone()
      ensures OneMap({})
    {
    }

    lemma OneMapUnion(a: set<nat>, b: set<nat>)
      requires OneMap(a) && OneMap(b)
      ensures OneMap(a + b)
    {
    }

    lemma MapFits()
      requires Valid()
      ensures size <= 8 * |bits| && |blocks| == size
    {
    }

    /** A file system as it is found on disk. */
    constructor (nmeta: nat, bmapstart: nat, inodestart: nat, dinodes: seq<Inode>, blocks: seq<Block>, bits: Bits,
                 ghost owner: map<nat, Slot>)
      requires Owned(Disk(dinodes, blocks), owner, nmeta, |blocks|) && |blocks| <= WORDS
      requires BitsMatch(bits, owner, nmeta, |blocks|)
      ensures Valid() && inodes == dinodes && this.dinodes == dinodes && this.blocks == blocks && logged == {}
      ensures this.bits == bits && this.owner == owner && size == |blocks| && this.nmeta == nmeta
    {
      this.size := |blocks|;
      this.nmeta, this.bmapstart, this.inodestart := nmeta, bmapstart, inodestart;
      this.inodes, this.dinodes, this.blocks, this.bits := dinodes, dinodes, blocks, bits;
      this.owner, this.logged, this.calls, this.kept := owner, {}, 0, multiset{};
    }

    // ---------- Blocks ----------

    method Zero(b: nat)
      requires b < |blocks|
      modifies this`blocks, this`logged, this`calls
      ensures blocks == old(blocks)[b := ZeroBlock()] && logged == old(logged) + {b} && calls == old(calls) + 1
    {
      blocks := blocks[b := ZeroBlock()];
      logged, calls := logged + {b}, calls + 1;
    }

    /** Finds the first free block, marks it and zeroes it. */
    method Alloc() returns (r: Option<nat>)
      requires size <= 8 * |bits| && size == |blocks|
      modifies this`bits, this`blocks, this`logged, this`calls
      ensures r.None? ==> bits == old(bits) && blocks == old(blocks) && logged == old(logged) && Full(bits, size)
      ensures calls == old(calls) + (if r.Some? then 2 else 0)
      ensures r.Some? ==> r.value < size && !Bit(old(bits), r.value)
      ensures r.Some? ==> forall c :: 0 <= c < r.value ==> Bit(old(bits), c)
      ensures r.Some? ==> bits == SetBit(old(bits), r.value) && blocks == old(blocks)[r.value := ZeroBlock()]
      ensures r.Some? ==> logged == old(logged) + {bmapstart + r.value / BPB, r.value}
      ensures Full(old(bits), size) ==> r.None?
    {
      hide Test, Raise, Lower;
      var b := 0;
      while b < size
        invariant b % BPB == 0
        invariant bits == old(bits) && blocks == old(blocks) && logged == old(logged) && calls == old(calls)
        invariant forall c :: 0 <= c < b && c < size ==> Bit(bits, c)
        decreases size + BPB - b
      {
        var bi := 0;
        while bi < BPB
          invariant 0 <= bi <= BPB
          invariant bits == old(bits) && blocks == old(blocks) && logged == old(logged) && calls == old(calls)
          invariant forall c :: 0 <= c < b + bi && c < size ==> Bit(bits, c)
        {
          if b + bi >= size {
            break;
          }
          var at := b / BPB * 1024 + bi / 8;       // byte bi / 8 of map block b / BPB
          BytePlace(b, bi);
          if !Test(bits[at], bi % 8) {
            bits := bits[at := Raise(bits[at], bi % 8)];
            logged, calls := logged + {bmapstart + b / BPB}, calls + 1;
            Zero(b + bi);
            return Some(b + bi);
          }
          assert Bit(bits, b + bi);
          bi := bi + 1;
        }
        b := b + BPB;
      }
      r := None;
    }

    /** Clears the bit of a block. False means the panic for a block that is free already. */
    method Free(b: nat) returns (ok: bool)
      requires size <= 8 * |bits| && b < size
      modifies this`bits, this`logged, this`calls
      ensures ok <==> Bit(old(bits), b)
      ensures ok ==> bits == ClearBit(old(bits), b) && logged == old(logged) + {bmapstart + b / BPB} && calls == old(calls) + 1
    {
      hide Test, Raise, Lower;
      var bi := b % BPB;
      var at := b / BPB * 1024 + bi / 8;
      BytePlace(b - bi, bi);
      if !Test(bits[at], bi % 8) {
        return false;
      }
      bits := bits[at := Lower(bits[at], bi % 8)];
      logged, calls := logged + {bmapstart + b / BPB}, calls + 1;
      ok := true;
    }

    // ---------- Blocks of a file ----------

    /** The direct block k of inode i, allocating it if it is not there. */
    method MapDirect(i: nat, k: nat) returns (r: Option<nat>, ghost maps: set<nat>)
      requires Valid() && i < |inodes| && k < NDIRECT
      modifies this`inodes, this`blocks, this`bits, this`owner, this`logged, this`calls
      ensures Valid() && MapsOnly(old(D()), D(), i) && |inodes| == |old(inodes)|
      ensures Ref(old(D()), Direct(i, k)) != 0 ==> r.Some? && inodes == old(inodes) && blocks == old(blocks) && logged == old(logged)
      ensures Ref(old(D()), Direct(i, k)) != 0 ==> bits == old(bits) && owner == old(owner) && maps == {}
      ensures r.Some? ==> r.value != 0 && r.value == Ref(D(), Direct(i, k))
      ensures r.None? ==> Full(bits, size) && maps == {}
      ensures |maps| <= 1 && logged <= old(logged) + maps + (if r.Some? then {r.value} else {})
      ensures forall s :: s != Direct(i, k) ==> Ref(D(), s) == Ref(old(D()), s)
      ensures r.None? <==> Blocked(old(D()), old(bits), size, Direct(i, k))
      ensures r.None? ==> D() == old(D()) && bits == old(bits)
      ensures Taken(old(bits), bits, size, if Ref(old(D()), Direct(i, k)) == 0 && r.Some? then 1 else 0)
      ensures calls == old(calls) + (if Ref(old(D()), Direct(i, k)) == 0 && r.Some? then 2 else 0)
      ensures OneMap(maps)
    {
      hide Owned, Ref, FileByte, BitsMatch, Full, SameBytes, FreeCount;
      Lengths(D(), owner, nmeta, size, bits);
      maps := {};
      DirectRef(D(), owner, nmeta, size, i, k);
      var addr := inodes[i].addrs[k];
      if addr == 0 {
        ghost var d := D();
        var a := Alloc();
        if a.None? {
          return None, maps;
        }
        addr := a.value;
        FreshBlock(d, owner, nmeta, size, old(bits), addr);
        ghost var d1 := D();
        AttachDirect(d1, owner, nmeta, size, i, k, addr);
        TakeOne(old(bits), size, addr);
        BitsAttach(old(bits), owner, nmeta, size, addr, Direct(i, k));
        inodes := inodes[i := Inode(inodes[i].size, inodes[i].addrs[k := addr])];
        owner := owner[addr := Direct(i, k)];
        maps := {bmapstart + addr / BPB};
        assert D() == WithAddr(d1, i, k, addr);
        MapsOnlyTrans(d, d1, D(), i);
      }
      r := Some(addr);
    }

    /** The indirect block of inode i, allocating it if it is not there. */
    method MapIndirect(i: nat) returns (r: Option<nat>, ghost maps: set<nat>)
      requires Valid() && i < |inodes|
      modifies this`inodes, this`blocks, this`bits, this`owner, this`logged, this`calls
      ensures Valid() && MapsOnly(old(D()), D(), i) && |inodes| == |old(inodes)|
      ensures Ref(old(D()), Indirect(i)) != 0 ==> r.Some? && inodes == old(inodes) && blocks == old(blocks) && logged == old(logged)
      ensures Ref(old(D()), Indirect(i)) != 0 ==> bits == old(bits) && owner == old(owner) && maps == {}
      ensures r.Some? ==> r.value != 0 && r.value == Ref(D(), Indirect(i))
      ensures r.None? ==> Full(bits, size) && maps == {}
      ensures |maps| <= 1 && logged <= old(logged) + maps + (if r.Some? then {r.value} else {})
      ensures forall s :: s != Indirect(i) ==> Ref(D(), s) == Ref(old(D()), s)
      ensures r.None? <==> Blocked(old(D()), old(bits), size, Indirect(i))
      ensures r.None? ==> D() == old(D()) && bits == old(bits)
      ensures Taken(old(bits), bits, size, if Ref(old(D()), Indirect(i)) == 0 && r.Some? then 1 else 0)
      ensures calls == old(calls) + (if Ref(old(D()), Indirect(i)) == 0 && r.Some? then 2 else 0)
      ensures OneMap(maps)
    {
      hide Owned, Ref, FileByte, BitsMatch, Full, SameBytes, FreeCount;
      Lengths(D(), owner, nmeta, size, bits);
      maps := {};
      DirectRef(D(), owner, nmeta, size, i, NDIRECT);
      var addr := inodes[i].addrs[NDIRECT];
      if addr == 0 {
        ghost var d := D();
        var a := Alloc();
        if a.None? {
          return None, maps;
        }
        addr := a.value;
        FreshBlock(d, owner, nmeta, size, old(bits), addr);
        ghost var d1 := D();
        AttachIndirect(d1, owner, nmeta, size, i, addr);
        TakeOne(old(bits), size, addr);
        BitsAttach(old(bits), owner, nmeta, size, addr, Indirect(i));
        inodes := inodes[i := Inode(inodes[i].size, inodes[i].addrs[NDIRECT := addr])];
        owner := owner[addr := Indirect(i)];
        maps := {bmapstart + addr / BPB};
        assert D() == WithAddr(d1, i, NDIRECT, addr);
        MapsOnlyTrans(d, d1, D(), i);
      }
      r := Some(addr);
    }

    /**
      Entry k of the indirect block ind of inode i, allocating its block if it is not there. If no
      block is free, the buffer of the indirect block keeps its reference.
     */
    method MapEntry(i: nat, ind: nat, k: nat) returns (r: Option<nat>, ghost maps: set<nat>)
      requires Valid() && i < |inodes| && k < NINDIRECT && ind != 0 && ind == Ref(D(), Indirect(i))
      modifies this`blocks, this`bits, this`owner, this`logged, this`calls, this`kept
      ensures Valid() && MapsOnly(old(D()), D(), i) && |inodes| == |old(inodes)|
      ensures Ref(old(D()), Entry(i, k)) != 0 ==> r.Some? && blocks == old(blocks) && logged == old(logged)
      ensures Ref(old(D()), Entry(i, k)) != 0 ==> bits == old(bits) && owner == old(owner) && maps == {}
      ensures r.Some? ==> r.value != 0 && r.value == Ref(D(), Entry(i, k))
      ensures r.None? ==> Full(bits, size) && maps == {}
      ensures |maps| <= 1 && logged <= old(logged) + maps + {ind} + (if r.Some? then {r.value} else {})
      ensures forall s :: s != Entry(i, k) ==> Ref(D(), s) == Ref(old(D()), s)
      ensures r.None? <==> Blocked(old(D()), old(bits), size, Entry(i, k))
      ensures r.None? ==> D() == old(D()) && bits == old(bits)
      ensures Taken(old(bits), bits, size, if Ref(old(D()), Entry(i, k)) == 0 && r.Some? then 1 else 0)
      ensures calls == old(calls) + (if Ref(old(D()), Entry(i, k)) == 0 && r.Some? then 3 else 0)
      ensures kept == old(kept) + (if r.None? then multiset{ind} else multiset{})
      ensures OneMap(maps)
    {
      hide Owned, Ref, FileByte, BitsMatch, Full, SameBytes, Word, PutWord, FreeCount;
      Lengths(D(), owner, nmeta, size, bits);
      maps := {};
      DirectRef(D(), owner, nmeta, size, i, NDIRECT);
      EntryRef(D(), owner, nmeta, size, i, k);
      var addr := Word(blocks[ind], k);
      if addr == 0 {
        ghost var d := D();
        var a := Alloc();
        if a.None? {
          kept := kept + multiset{ind};          // the buffer of the indirect block is not released
          return None, maps;
        }
        addr := a.value;
        FreshBlock(d, owner, nmeta, size, old(bits), addr);
        ghost var d1 := D();
        assert Ref(d1, Indirect(i)) == ind;
        AttachEntry(d1, owner, nmeta, size, i, k, addr);
        TakeOne(old(bits), size, addr);
        BitsAttach(old(bits), owner, nmeta, size, addr, Entry(i, k));
        blocks := blocks[ind := PutWord(blocks[ind], k, addr)];
        logged, calls := logged + {ind}, calls + 1;
        owner := owner[addr := Entry(i, k)];
        maps := {bmapstart + addr / BPB};
        assert D() == WithBlock(d1, ind, PutWord(d1.blocks[ind], k, addr));
        EntryMapsOnly(d1, D(), i, k);
        MapsOnlyTrans(d, d1, D(), i);
      }
      r := Some(addr);
    }

    /** The block in entry k of the indirect block of inode i, with the indirect block itself if need be. */
    method MapThrough(i: nat, k: nat) returns (r: Option<nat>, ghost maps: set<nat>)
      requires Valid() && i < |inodes| && k < NINDIRECT
      modifies this`inodes, this`blocks, this`bits, this`owner, this`logged, this`calls, this`kept
      ensures Valid() && |inodes| == |old(inodes)|
      ensures Mapped(old(D()), old(bits), D(), bits, size, i, NDIRECT + k, calls > old(calls))
      ensures Ref(old(D()), Entry(i, k)) != 0 ==> r.Some? && logged == old(logged) && owner == old(owner) && maps == {}
      ensures r.Some? ==> r.value != 0 && r.value == Ref(D(), Entry(i, k))
      ensures r.None? ==> size <= 8 * |bits| && Blocked(D(), bits, size, Entry(i, k))
      ensures |maps| <= (if r.Some? then 1 else 0) + NewIndirect(old(D()), D(), i)
      ensures logged <= old(logged) + maps + IndirectSet(D(), i) + (if r.Some? then {r.value} else {})
      ensures old(calls) <= calls <= old(calls) + (if r.Some? then 3 else 0) + 2 * NewIndirect(old(D()), D(), i)
      ensures kept == old(kept) + (if r.None? && Ref(D(), Indirect(i)) != 0 then multiset{Ref(D(), Indirect(i))} else multiset{})
      ensures OneMap(maps)
    {
      hide Valid, Full, MapsOnly, Ref, FreeCount, Taken, Mapped, IndirectSet, NewIndirect;
      MapFits();
      NoNewIndirect(D(), i);
      EntryNeedsIndirect(D(), i, k);
      var ind;
      ind, maps := MapIndirect(i);
      if ind.None? {
        MappedNothing(D(), bits, size, i, NDIRECT + k);
        return None, maps;
      }
      ghost var d1, bits1, maps1, logged1 := D(), bits, maps, logged;
      ghost var maps2;
      r, maps2 := MapEntry(i, ind.value, k);
      MapFits();
      MappedThrough(old(D()), old(bits), d1, bits1, D(), bits, size, i, k);
      maps := maps1 + maps2;
      ThroughLedger(old(D()), D(), i, ind.value, old(logged), logged1, logged, maps1, maps2, if r.Some? then {r.value} else {});
    }

    /**
      The block that holds block n of file i, allocating what is missing. Nothing that any file
      contains changes. It fails exactly beyond the largest file, and when what it needs is not free.
    */
    method Map(i: nat, n: nat) returns (r: Option<nat>, ghost maps: set<nat>)
      requires Valid() && i < |inodes|
      modifies this`inodes, this`blocks, this`bits, this`owner, this`logged, this`calls, this`kept
      ensures Valid() && |inodes| == |old(inodes)|
      ensures Mapped(old(D()), old(bits), D(), bits, size, i, n, calls > old(calls))
      ensures Ref(old(D()), SlotOf(i, n)) != 0 ==> r.Some? && logged == old(logged) && owner == old(owner) && maps == {}
      ensures r.Some? ==> n < MAXFILE && r.value != 0 && r.value == Ref(D(), SlotOf(i, n))
      ensures r.None? && n < MAXFILE ==> size <= 8 * |bits| && Blocked(D(), bits, size, SlotOf(i, n))
      ensures |maps| <= (if r.Some? then 1 else 0) + NewIndirect(old(D()), D(), i)
      ensures logged <= old(logged) + maps + IndirectSet(D(), i) + (if r.Some? then {r.value} else {})
      ensures old(calls) <= calls <= old(calls) + (if r.Some? then 3 else 0) + 2 * NewIndirect(old(D()), D(), i)
      ensures kept == old(kept) + (if r.None? && NDIRECT <= n < MAXFILE && Ref(D(), Indirect(i)) != 0
                                   then multiset{Ref(D(), Indirect(i))} else multiset{})
      ensures OneMap(maps)
    {
      hide Owned, FileByte, BitsMatch, Full, MapsOnly, Word, Ref, FreeCount, Mapped;
      Lengths(D(), owner, nmeta, size, bits);
      if n < NDIRECT {
        r, maps := MapDirect(i, n);
        if Ref(old(D()), SlotOf(i, n)) == 0 && r.Some? {
          MappedSlot(old(D()), old(bits), D(), bits, size, i, n);
        } else {
          MappedNothing(D(), bits, size, i, n);
        }
        return;
      }
      if n - NDIRECT < NINDIRECT {
        r, maps := MapThrough(i, n - NDIRECT);
        return;
      }
      EntryNeedsIndirect(D(), i, n - NDIRECT);
      MappedNothing(D(), bits, size, i, n);
      r, maps := None, {};
    }

    // ---------- Truncating ----------

    /** Writes the copy in memory of inode i to disk. */
    method Update(i: nat)
      requires i < |inodes| == |dinodes|
      modifies this`dinodes, this`logged, this`calls
      ensures dinodes == old(dinodes)[i := inodes[i]] && logged == old(logged) + {inodestart + i / IPB} && calls == old(calls) + 1
      ensures old(Valid()) ==> Valid()
    {
      dinodes := dinodes[i := inodes[i]];
      logged, calls := logged + {inodestart + i / IPB}, calls + 1;
    }

    /** Gives up the direct blocks of inode i. The panic for a block already free does not occur. */
    method TruncDirect(i: nat) returns (ok: bool)
      requires Valid() && i < |inodes|
      modifies this`inodes, this`bits, this`owner, this`logged, this`calls
      ensures ok && Valid() && |inodes| == |old(inodes)|
      ensures owner == WithoutDirect(old(owner), i, NDIRECT)
      ensures forall s :: Ref(D(), s) == if s.Direct? && s.i == i then 0 else Ref(old(D()), s)
      ensures forall j :: 0 <= j < |inodes| && j != i ==> inodes[j] == old(inodes)[j]
    {
      hide Owned, BitsMatch, Ref, Bit, ClearBit;
      ok := true;
      ghost var owner0 := owner;
      WithoutNone(owner0, i);
      DirectRef(D(), owner, nmeta, size, i, 0);
      var k := 0;
      while k < NDIRECT
        invariant 0 <= k <= NDIRECT
        invariant ok && Valid() && |inodes| == |old(inodes)|
        invariant owner == WithoutDirect(owner0, i, k)
        invariant forall s :: Ref(D(), s) == if s.Direct? && s.i == i && s.k < k then 0 else Ref(old(D()), s)
        invariant forall j :: 0 <= j < |inodes| && j != i ==> inodes[j] == old(inodes)[j]
      {
        DirectRef(D(), owner, nmeta, size, i, k);
        DirectStep(D(), owner, owner0, nmeta, size, i, k);
        if inodes[i].addrs[k] != 0 {
          var b := inodes[i].addrs[k];
          HeldBlock(D(), owner, nmeta, size, Direct(i, k));
          BitsDetach(bits, owner, nmeta, size, b);
          DetachDirect(D(), owner, nmeta, size, i, k);
          var freed := Free(b);
          ok := ok && freed;
          inodes := inodes[i := Inode(inodes[i].size, inodes[i].addrs[k := 0])];
          owner := owner - {b};
        }
        k := k + 1;
      }
      BeyondDirect(old(D()));
    }

    /** Clears the bits of the blocks listed in the indirect block ind of inode i. */
    method FreeEntries(i: nat, ind: nat) returns (ok: bool)
      requires Valid() && i < |inodes| && ind != 0 && ind == Ref(D(), Indirect(i))
      modifies this`bits, this`logged, this`calls
      ensures ok && BitsMatch(bits, WithoutEntries(owner, i, NINDIRECT), nmeta, size)
    {
      hide Owned, BitsMatch, Ref, Bit, ClearBit, Word;
      ok := true;
      WithoutNone(owner, i);
      var k := 0;
      while k < NINDIRECT
        invariant 0 <= k <= NINDIRECT
        invariant ok && BitsMatch(bits, WithoutEntries(owner, i, k), nmeta, size)
      {
        EntryRef(D(), owner, nmeta, size, i, k);
        EntryStep(D(), owner, nmeta, size, i, k);
        var b := Word(blocks[ind], k);
        if b != 0 {
          HeldBlock(D(), owner, nmeta, size, Entry(i, k));
          BitsDetach(bits, WithoutEntries(owner, i, k), nmeta, size, b);
          var freed := Free(b);
          ok := ok && freed;
        }
        k := k + 1;
      }
    }

    /**
      Discards the contents of inode i: its blocks and no others become free, no other file
      changes, and the panic for a block already free does not occur.
    */
    method Trunc(i: nat) returns (ok: bool)
      requires Valid() && i < |inodes| == |dinodes|
      modifies this
      ensures ok && Valid() && |inodes| == |old(inodes)| && blocks == old(blocks)
      ensures inodes[i].size == 0 && forall k :: 0 <= k < |inodes[i].addrs| ==> inodes[i].addrs[k] == 0
      ensures forall j :: 0 <= j < |inodes| && j != i ==> inodes[j] == old(inodes)[j]
      ensures owner == WithoutInode(old(owner), i)
      ensures size <= 8 * |old(bits)| && size <= 8 * |bits|
      ensures forall b :: 0 <= b < size ==>
                (Bit(bits, b) <==> Bit(old(bits), b) && !(b in old(owner) && old(owner)[b].i == i))
      ensures forall j: nat, p: nat :: j != i ==> FileByte(D(), j, p) == FileByte(old(D()), j, p)
      ensures dinodes == old(dinodes)[i := inodes[i]]
    {
      hide Owned, BitsMatch, Bit, Ref, FileByte, WithoutInode, WithoutDirect, WithoutEntries, IndirectBlocks;
      DirectsInRange(D(), owner, nmeta, size);
      ok := TruncDirect(i);
      ghost var d1, owner1 := D(), owner;
      DirectRef(d1, owner1, nmeta, size, i, NDIRECT);
      var ind := inodes[i].addrs[NDIRECT];
      if ind != 0 {
        var freed := FreeEntries(i, ind);
        HeldBlock(D(), owner, nmeta, size, Indirect(i));
        IndirectStays(owner, i, ind);
        BitsDetach(bits, WithoutEntries(owner, i, NINDIRECT), nmeta, size, ind);
        var freedInd := Free(ind);
        ok := ok && freed && freedInd;
        inodes := inodes[i := Inode(inodes[i].size, inodes[i].addrs[NDIRECT := 0])];
      }
      DetachIndirect(d1, owner1, nmeta, size, i);
      WithoutAll(d1, owner1, old(owner), nmeta, size, i);
      owner := owner - IndirectBlocks(owner, i);
      ghost var d2 := D();
      if ind == 0 {
        SameAddr(d1, i);
      }
      assert d2 == WithAddr(d1, i, NDIRECT, 0);
      SizeKeepsRefs(d2, owner, nmeta, size, i, 0);
      inodes := inodes[i := Inode(0, inodes[i].addrs)];
      assert D() == WithSize(d2, i, 0);
      OthersSeen(old(D()), D(), i);
      Emptied(D(), owner, nmeta, size, i);
      BitsFollow(old(bits), bits, old(D()), old(owner), nmeta, size, i);
      Update(i);
    }

    // ---------- Writing ----------

    /**
      Writes chunk at position at of file i, within one block, mapping the block first. Of the chunk
      the first `readable` bytes can be read from user memory; if that is not all, the bytes that can
      be read arrive in the buffer of the block, which is not logged.
     */
    method WriteBlock(i: nat, at: nat, chunk: seq<Byte>, readable: nat) returns (end: BlockEnd, ghost maps: set<nat>)
      requires Valid() && i < |inodes| && at % BSIZE + |chunk| <= BSIZE && at / BSIZE < MAXFILE
      modifies this`inodes, this`blocks, this`bits, this`owner, this`logged, this`calls, this`kept
      ensures Valid() && Grows(old(D()), D(), i) && |inodes| == |old(inodes)| && size <= 8 * |bits|
      ensures end.Wrote? ==> |chunk| <= readable && WritesBytes(old(D()), D(), i, at, chunk)
      ensures end.Faulted? ==> readable < |chunk| && WritesBytes(old(D()), D(), i, at, chunk[..readable])
      ensures end.NoBlock? ==> SameBytes(old(D()), D()) && Blocked(D(), bits, size, SlotOf(i, at / BSIZE))
      ensures !end.NoBlock? ==> Ref(D(), SlotOf(i, at / BSIZE)) != 0
      ensures Ref(old(D()), SlotOf(i, at / BSIZE)) != 0 ==> !end.NoBlock? && maps == {} && calls <= old(calls) + 1
      ensures |maps| <= (if end.NoBlock? then 0 else 1) + NewIndirect(old(D()), D(), i)
      ensures logged <= old(logged) + maps + IndirectSet(D(), i) + (if end.NoBlock? then {} else {Ref(D(), SlotOf(i, at / BSIZE))})
      ensures calls <= old(calls) + (if end.NoBlock? then 0 else 4) + 2 * NewIndirect(old(D()), D(), i)
      ensures Blocked(old(D()), old(bits), size, SlotOf(i, at / BSIZE)) ==> end.NoBlock? && D() == old(D()) && bits == old(bits)
      ensures PaidAt(old(D()), old(bits), D(), bits, size, i, at / BSIZE)
      ensures OneMap(maps)
    {
      hide Owned, BitsMatch, FileByte, Ref, Full, Blocked, RefsGrow, SlotOf, WritesBytes, PaidAt, FreeCount, Mapped, IndirectSet;
      Lengths(D(), owner, nmeta, size, bits);
      var addr;
      addr, maps := Map(i, at / BSIZE);
      Lengths(D(), owner, nmeta, size, bits);
      MappedFacts(old(D()), old(bits), D(), bits, size, i, at / BSIZE, calls > old(calls));
      if addr.None? {
        return NoBlock, maps;
      }
      ghost var d1 := D();
      var copied := if readable < |chunk| then chunk[..readable] else chunk;
      SpliceWrites(d1, owner, nmeta, size, i, at, copied);
      blocks := blocks[addr.value := SpliceBlock(blocks[addr.value], at % BSIZE, copied)];
      PaidSame(old(D()), old(bits), d1, bits, D(), size, i, at / BSIZE);
      IndirectSame(d1, D(), i);
      GrowsTrans(old(D()), d1, D(), i);
      WritesNothing(old(D()), d1, i, at);
      WritesTrans(old(D()), d1, D(), i, at, [], copied);
      assert [] + copied == copied;
      if readable < |chunk| {
        return Faulted, maps;
      }
      logged, calls := logged + {addr.value}, calls + 1;
      end := Wrote;
    }

    /** One round of the loop of a write: the bytes up to the next block boundary, or the end. */
    method WriteNext(i: nat, off: nat, src: seq<Byte>, readable: nat, total: nat, ghost d0: Disk, ghost logged0: set<nat>, ghost calls0: nat,
                     ghost inside: bool, ghost k: nat, ghost data: set<nat>, ghost maps: set<nat>)
      returns (m: nat, end: BlockEnd, ghost data': set<nat>, ghost maps': set<nat>)
      requires Valid() && i < |inodes| && total < |src| && total <= readable && off + |src| <= MAXFILE * BSIZE
      requires Progress(d0, D(), i, off, src, total) && BlockCount(off, |src|, total, k)
      requires Ledger(d0, D(), i, inside, k, logged0, logged, data, maps, calls0, calls)
      requires inside && k == 0 ==> Ref(D(), SlotOf(i, (off + total) / BSIZE)) != 0
      requires OneMap(maps)
      modifies this`inodes, this`blocks, this`bits, this`owner, this`logged, this`calls, this`kept
      ensures Valid() && |inodes| == |old(inodes)| && size <= 8 * |bits|
      ensures m > 0 && total + m <= |src| && (end.NoBlock? ==> !(inside && k == 0))
      ensures m == NextLength(off, |src|, total) && OneMap(maps')
      ensures end.Wrote? ==> total + m <= readable && Progress(d0, D(), i, off, src, total + m)
      ensures end.Faulted? ==> readable < total + m && Progress(d0, D(), i, off, src, readable)
      ensures end.NoBlock? ==> Progress(d0, D(), i, off, src, total) && Blocked(D(), bits, size, SlotOf(i, (off + total) / BSIZE))
      ensures BlockCount(off, |src|, total + m, k + 1)
      ensures Ledger(d0, D(), i, inside, if end.NoBlock? then k else k + 1, logged0, logged, data', maps', calls0, calls)
      ensures Blocked(old(D()), old(bits), size, SlotOf(i, (off + total) / BSIZE)) ==> end.NoBlock? && D() == old(D()) && bits == old(bits)
      ensures PaidAt(old(D()), old(bits), D(), bits, size, i, (off + total) / BSIZE)
    {
      hide Valid, OneMap, Ref, Full, Blocked, SlotOf, Progress, WritesBytes, Grows, SameBytes, BlockCount, Ledger,
           IndirectSet, NewIndirect, NextLength, PaidAt;
      var at := off + total;
      m := NextLength(off, |src|, total);
      CountStep(off, |src|, total, k);
      ProgressGrows(d0, D(), i, off, src, total);
      ghost var d1, logged1, calls1 := D(), logged, calls;
      ghost var maps1;
      end, maps1 := WriteBlock(i, at, src[total..total + m], readable - total);
      ghost var b := if end.NoBlock? then {} else {Ref(D(), SlotOf(i, at / BSIZE))};
      OneMapUnion(maps, maps1);
      data', maps' := data + b, maps + maps1;
      LedgerStep(d0, d1, D(), i, inside, k, logged0, logged1, logged, data, maps, maps1, b, calls0, calls1, calls);
      ProgressRound(d0, d1, D(), i, off, src, total, m, readable, end);
    }

    /**
      The loop of a write: block by block until it is done, the disk is full, or user memory cannot be
      read. Besides what is written it says what is logged: a block per block touched, and a block of
      the free map per allocation. A write that starts inside an existing block allocates one block less.
    */
    method WriteBlocks(i: nat, off: nat, src: seq<Byte>, readable: nat)
      returns (total: nat, ghost wrote: nat, ghost data: set<nat>, ghost maps: set<nat>)
      requires Valid() && i < |inodes| && off <= inodes[i].size && off + |src| <= MAXFILE * BSIZE
      modifies this`inodes, this`blocks, this`bits, this`owner, this`logged, this`calls, this`kept
      ensures Valid() && |inodes| == |old(inodes)| && Grows(old(D()), D(), i) && size <= 8 * |bits|
      ensures total <= wrote <= |src| && total <= readable && WritesBytes(old(D()), D(), i, off, src[..wrote])
      ensures |src| <= readable ==> wrote == total
      ensures total < |src| ==> Blocked(D(), bits, size, SlotOf(i, (off + total) / BSIZE)) || readable < total + NextLength(off, |src|, total)
      ensures total < |src| ==> total == 0 || (off + total) % BSIZE == 0
      ensures total > 0 ==> total >= NextLength(off, |src|, 0)
      ensures OneMap(maps)
      ensures NoHoles(old(D()), i) || total > 0 ==> Covers(D(), i, off, off + total)
      ensures logged <= old(logged) + data + maps + IndirectSet(D(), i)
      ensures |data| <= Touched(off, |src|)
      ensures |maps| <= Touched(off, |src|) + (if StartsInside(old(D()), i, off) && src != [] then 0 else 1)
      ensures calls <= old(calls) + 4 * Touched(off, |src|) + 2 - (if StartsInside(old(D()), i, off) && src != [] then 3 else 0)
      ensures Blocked(old(D()), old(bits), size, SlotOf(i, off / BSIZE)) ==> total == wrote == 0 && D() == old(D()) && bits == old(bits)
      ensures Pays(old(D()), old(bits), D(), bits, size, i, off, Past(total, |src|))
      ensures size <= 8 * |old(bits)| && (Full(old(bits), size) ==> Full(bits, size))
    {
      hide Valid, OneMap, RefsGrow, Ref, Full, Blocked, SlotOf, Progress, WritesBytes, Grows, SameBytes, StartsInside,
           Touched, BlockCount, Position, Ledger, IndirectSet, NewIndirect, PaidAt, Pays, Covers, NoHoles, NextLength;
      MapFits();
      OneMapNone();
      data, maps := {}, {};
      var n := |src|;
      ghost var d0 := D();
      ghost var inside := StartsInside(d0, i, off);
      WriteStarts(d0, i, off);
      ProgressStart(d0, i, off, src);
      PositionStart(off, n);
      LedgerStart(d0, i, inside, logged, calls);
      PaidNothing(d0, bits, size, i, 0, off, 0);
      ghost var blocked := Blocked(d0, bits, size, SlotOf(i, off / BSIZE));
      total, wrote := 0, 0;
      ghost var k: nat := 0;
      var going := true;
      while going && total < n
        invariant Valid() && |inodes| == |old(inodes)| && size <= 8 * |bits| && total <= wrote <= n && total <= readable
        invariant Progress(d0, D(), i, off, src, wrote) && Position(off, n, total, k, going) && OneMap(maps)
        invariant Ledger(d0, D(), i, inside, k, old(logged), logged, data, maps, old(calls), calls)
        invariant if going then wrote == total
                  else !(inside && k == 0) && total < n && (n <= readable ==> wrote == total)
                       && (Blocked(D(), bits, size, SlotOf(i, (off + total) / BSIZE)) || readable < total + NextLength(off, n, total))
        invariant going && k == 0 ==> total == 0 && D() == d0 && bits == old(bits)
        invariant blocked ==> total == wrote == 0 && k == 0 && D() == d0 && bits == old(bits)
        invariant Pays(d0, old(bits), D(), bits, size, i, off, if going then total else total + 1)
        decreases going, n - total
      {
        PositionStep(off, n, total, k);
        ghost var d1, bits1 := D(), bits;
        var m, end;
        m, end, data, maps := WriteNext(i, off, src, readable, total, d0, old(logged), old(calls), inside, k, data, maps);
        ghost var len := if end.Wrote? then total + m else total + 1;
        PaysMore(d0, old(bits), d1, bits1, size, i, off, total, len);
        PaysStep(d0, old(bits), d1, bits1, D(), bits, size, i, off, len, (off + total) / BSIZE);
        if end.Wrote? {
          total, k := total + m, k + 1;
          wrote := total;
        } else {
          going := false;
          if end.Faulted? {
            wrote, k := readable, k + 1;
          }
        }
      }
      ProgressGrows(d0, D(), i, off, src, wrote);
      if NoHoles(d0, i) || total > 0 {
        CoversLess(D(), i, off, off + wrote, off + total);
      }
      PositionEnd(off, n, total, k, going);
      LedgerEnd(d0, D(), i, inside, k, old(logged), logged, data, maps, old(calls), calls);
      GrowsRefs(d0, D(), i);
      FullStays(d0, old(bits), D(), bits, size, i, off, Past(total, n));
    }

    /** Sets the size of a file; its blocks and everyone's bytes stay. */
    method SetSize(i: nat, newSize: nat)
      requires Valid() && i < |inodes|
      modifies this`inodes
      ensures Valid() && D() == WithSize(old(D()), i, newSize) && |inodes| == |old(inodes)|
      ensures SameBytes(old(D()), D()) && forall s :: Ref(D(), s) == Ref(old(D()), s)
    {
      hide Owned, BitsMatch, Ref, SameBytes;
      SizeKeepsRefs(D(), owner, nmeta, size, i, newSize);
      inodes := inodes[i := Inode(newSize, inodes[i].addrs)];
      assert D() == WithSize(old(D()), i, newSize);
    }

    /**
      Writes src at off of file i, its length taken as a 32-bit word. It refuses to start beyond the end or to exceed the largest
      file. Otherwise the first r bytes are spliced into the file, all of them unless no block is
      free or user memory cannot be read, no other file changes, and the inode on disk agrees with
      the one in memory. In the block where user memory fails, the bytes up to `wrote` that could be
      read have arrived too; those beyond the end do not count.
    */
    method Write(i: nat, off: nat, src: seq<Byte>, readable: nat)
      returns (r: Option<nat>, ghost wrote: nat, ghost data: set<nat>, ghost maps: set<nat>)
      requires Valid() && i < |inodes| == |dinodes|
      modifies this
      ensures Valid() && |inodes| == |old(inodes)| && size <= 8 * |old(bits)| && size <= 8 * |bits|
      ensures r.None? <==> off > old(inodes)[i].size || off + |Cast(src)| >= WORDS || off + |Cast(src)| > MAXFILE * BSIZE
      ensures r.None? ==> D() == old(D()) && dinodes == old(dinodes) && bits == old(bits) && logged == old(logged) && calls == old(calls)
      ensures r.None? ==> data == maps == {}
      ensures r.Some? ==> dinodes == old(dinodes)[i := inodes[i]]
      ensures r.Some? ==> r.value <= wrote <= |Cast(src)| && r.value <= readable && off <= |Content(old(D()), i)|
      ensures r.Some? && |Cast(src)| <= readable ==> wrote == r.value
      ensures r.Some? ==> Content(D(), i) == SpliceUpTo(Content(old(D()), i), off, Cast(src)[..wrote], off + r.value)
      ensures r.Some? && r.value < |Cast(src)| ==>
                || Blocked(D(), bits, size, SlotOf(i, (off + r.value) / BSIZE))
                || readable < r.value + NextLength(off, |Cast(src)|, r.value)
      ensures r.Some? && r.value < |Cast(src)| ==> r.value == 0 || (off + r.value) % BSIZE == 0
      ensures r.Some? && r.value > 0 ==> r.value >= NextLength(off, |Cast(src)|, 0)
      ensures OneMap(maps)
      ensures r.Some? && r.value > 0 ==> Covers(D(), i, off, off + r.value)
      ensures RefsGrow(old(D()), D())
      ensures forall j: nat :: j != i ==> Content(D(), j) == Content(old(D()), j)
      ensures Full(old(bits), size) ==> Full(bits, size)
      ensures NoHoles(old(D()), i) ==> NoHoles(D(), i)
      ensures logged <= old(logged) + data + maps + IndirectSet(D(), i) + {inodestart + i / IPB}
      ensures |data| <= Touched(off, |Cast(src)|)
      ensures |maps| <= Touched(off, |Cast(src)|) + (if StartsInside(old(D()), i, off) && Cast(src) != [] then 0 else 1)
      ensures calls <= old(calls) + 4 * Touched(off, |Cast(src)|) + 3 - (if r.Some? && StartsInside(old(D()), i, off) && Cast(src) != [] then 3 else 0)
      ensures r.Some? && Blocked(old(D()), old(bits), size, SlotOf(i, off / BSIZE)) ==>
                r.value == wrote == 0 && D() == old(D()) && bits == old(bits)
      ensures Pays(old(D()), old(bits), D(), bits, size, i, off, if r.Some? then Past(r.value, |Cast(src)|) else 0)
    {
      hide Valid, FileByte, Ref, Full, Blocked, WritesBytes, Grows, SameBytes, NoHoles, Covers, StartsInside,
           IndirectSet, Touched, Content, SpliceUpTo, Pays, RefsGrow, NextLength, Cast;
      var cut := Cast(src);
      MapFits();
      ContentSize(D(), i);
      PaidNothing(D(), bits, size, i, 0, off, 0);
      RefsStay(D());
      wrote, data, maps := 0, {}, {};
      if off > inodes[i].size || off + |cut| >= WORDS {
        return None, wrote, data, maps;
      }
      if off + |cut| > MAXFILE * BSIZE {
        return None, wrote, data, maps;
      }
      var total;
      total, wrote, data, maps := WriteBlocks(i, off, cut, readable);
      ghost var d1 := D();
      SizesKept(old(D()), d1, i);
      var newSize := if off + total > inodes[i].size then off + total else inodes[i].size;
      SetSize(i, newSize);
      ghost var d2 := D();
      WriteFinish(old(D()), d1, d2, old(bits), bits, size, i, off, cut, total, wrote, newSize, Past(total, |cut|));
      IndirectSame(d1, d2, i);
      Update(i);
      r := Some(total);
    }

    /**
      A write from kernel memory, as a directory entry is written. It copies all that is left of src
      into the buffer of one block. So it runs beyond the buffer exactly when it is not refused, its
      first block is there or can be had, and it does not lie within that block. Otherwise it is the
      write above, of bytes that can be read.
    */
    method WriteFromKernel(i: nat, off: nat, src: seq<Byte>) returns (r: Option<nat>, overrun: bool)
      requires Valid() && i < |inodes| == |dinodes|
      modifies this
      ensures size <= 8 * |old(bits)|
      ensures overrun <==>
                && off <= old(inodes)[i].size && 0 < |src| % WORDS <= MAXFILE * BSIZE - off && off % BSIZE + |src| > BSIZE
                && Suffices(old(D()), old(bits), size, i, off, 1)
      ensures !overrun ==> Valid() && |inodes| == |old(inodes)|
      ensures !overrun ==>
                (r.None? <==> off > old(inodes)[i].size || off + |src| % WORDS >= WORDS || off + |src| % WORDS > MAXFILE * BSIZE)
      ensures !overrun && r.None? ==> D() == old(D())
      ensures !overrun && r.Some? ==> r.value == 0 || r.value == |src|
      ensures !overrun && r.Some? ==> off <= |Content(old(D()), i)| && r.value <= |src|
      ensures !overrun && r.Some? ==> Content(D(), i) == SpliceFile(Content(old(D()), i), off, src[..r.value])
      ensures !overrun ==> forall j: nat :: j != i ==> Content(D(), j) == Content(old(D()), j)
    {
      hide Valid, Ref, Full, Blocked, Content, SpliceUpTo, SpliceFile, NoHoles, Pays, Covers, Suffices, RefsGrow, NextLength, Touched,
           StartsInside, IndirectSet, Cast, Mapped, PaidAt, NewIndirect;
      MapFits();
      overrun := false;
      ghost var d0 := D();
      ContentSize(d0, i);
      var n := |src| % WORDS;
      if off > inodes[i].size || off + n >= WORDS || off + n > MAXFILE * BSIZE {
        return None, false;
      }
      if off % BSIZE + |src| <= BSIZE {
        ghost var wrote, data, maps;
        r, wrote, data, maps := Write(i, off, src, |src|);
        SpliceAll(Content(d0, i), off, src[..r.value]);
        WithinBlock(off, |src|, r.value);
        return;
      }
      SpliceNone(Content(d0, i), off);
      assert src[..0] == [];
      if n == 0 {
        Update(i);
        return Some(0), false;
      }
      var addr, _ := Map(i, off / BSIZE);
      MapFits();
      MappedFacts(d0, old(bits), D(), bits, size, i, off / BSIZE, calls > old(calls));
      OneBlock(d0, old(bits), D(), bits, size, i, off);
      if addr.Some? {
        return None, true;
      }
      SameContents(d0, D(), i);
      Update(i);
      r := Some(0);
    }

    // ---------- Reading ----------

    /** The loop of a read of count bytes that the file has: block by block, until user memory or the blocks end. */
    method ReadBlocks(i: nat, off: nat, count: nat, room: nat) returns (data: seq<Byte>, fault: bool)
      requires Valid() && i < |inodes| && off + count <= |Content(D(), i)|
      modifies this`inodes, this`blocks, this`bits, this`owner, this`logged, this`calls, this`kept
      ensures Valid() && |inodes| == |old(inodes)| && calls >= old(calls)
      ensures ReadDone(old(D()), old(bits), D(), bits, size, i, off, if count <= room then count else room + 1,
                       calls > old(calls), fault || |data| == count)
      ensures |data| <= count && |data| <= room && data == Content(old(D()), i)[off..off + |data|]
      ensures fault ==> room < count
    {
      hide Owned, BitsMatch, Full, Blocked, MapsOnly, FileByte, Content, Ref, SlotOf, FreeCount, Reading, Mapped, ReadDone,
           IndirectSet, NewIndirect;
      Lengths(D(), owner, nmeta, size, bits);
      ghost var d0, c := D(), Content(D(), i);
      ghost var reach := if count <= room then count else room + 1;
      ReadingStart(d0, bits, size, i, off, reach);
      fault := false;
      data := [];
      var at := off;
      while |data| < count
        invariant Valid() && |inodes| == |old(inodes)|
        invariant |data| <= count && |data| <= room && at == off + |data| && data == c[off..at]
        invariant Reading(d0, old(bits), D(), bits, size, i, off, reach, |data|, calls > old(calls)) && calls >= old(calls)
        decreases count - |data|
      {
        ghost var d1, bits1, calls1 := D(), bits, calls;
        var addr, _ := Map(i, at / BSIZE);
        Lengths(D(), owner, nmeta, size, bits);
        if addr.None? {
          ReadingStops(d0, old(bits), d1, bits1, D(), bits, size, i, off, reach, |data|, calls1 > old(calls), calls > calls1);
          return;
        }
        var m := if count - |data| < BSIZE - at % BSIZE then count - |data| else BSIZE - at % BSIZE;
        if |data| + m > room {
          ReadingStep(d0, old(bits), d1, bits1, D(), bits, size, i, off, reach, |data|, calls1 > old(calls), reach - |data|, calls > calls1);
          ReadingEnds(d0, old(bits), D(), bits, size, i, off, reach, calls > old(calls));
          fault := true;
          return;
        }
        ReadingStep(d0, old(bits), d1, bits1, D(), bits, size, i, off, reach, |data|, calls1 > old(calls), m, calls > calls1);
        ReadingContents(d0, old(bits), D(), bits, size, i, off, reach, |data| + m, calls > old(calls));
        ContentSize(D(), i);
        BlockBytes(D(), owner, nmeta, size, i, at, m);
        SliceJoin(c, off, at, at + m);
        data := data + blocks[addr.value][at % BSIZE..at % BSIZE + m];
        at := at + m;
      }
      ReadingEnds(d0, old(bits), D(), bits, size, i, off, reach, calls > old(calls));
    }

    /**
      Reads up to n bytes at off of file i into user memory, n being the length as a 32-bit word. Of that memory the first `room` bytes can be
      written. It refuses to start beyond the end. Otherwise it goes through the bytes up to the end
      of the file, and gives a missing block to the file on the way, if one is free: no file's contents
      change. So a read changes the disk exactly when it meets a missing block and one is free. The
      inode on disk is left as it was. It returns all the bytes exactly when user memory takes them
      and the blocks for them are there or can be had.
    */
    method Read(i: nat, off: nat, length: nat, room: nat) returns (r: Option<seq<Byte>>)
      requires Valid() && i < |inodes|
      modifies this`inodes, this`blocks, this`bits, this`owner, this`logged, this`calls, this`kept
      ensures Valid() && MapsOnly(old(D()), D(), i) && |inodes| == |old(inodes)| && size <= 8 * |old(bits)|
      ensures forall j: nat :: Content(D(), j) == Content(old(D()), j)
      ensures
        var c, n := Content(old(D()), i), length % WORDS;
        var count := Clamped(|c|, off, n);
        var reach := if count <= room then count else room + 1;
        && (off > |c| || off + n >= WORDS ==> r.None? && D() == old(D()))
        && (off <= |c| && off + n < WORDS ==>
              && (r.None? <==> room < count && Reaches(old(D()), old(bits), size, i, off, reach))
              && (r.Some? ==> |r.value| <= count && r.value == c[off..off + |r.value|])
              && (r.Some? ==> (|r.value| == count <==> count <= room && Reaches(old(D()), old(bits), size, i, off, reach)))
              && (D() != old(D()) <==> MeetsHole(old(D()), i, off, reach) && !Full(old(bits), size)))
      ensures calls >= old(calls) && (calls > old(calls) <==> D() != old(D()))
      ensures calls == old(calls) ==> bits == old(bits)
    {
      hide Owned, BitsMatch, Full, MapsOnly, Content, Reaches, MeetsHole;
      Lengths(D(), owner, nmeta, size, bits);
      ContentSize(D(), i);
      MapsNothing(D(), i);
      var n := length % WORDS;
      if off > inodes[i].size || off + n >= WORDS {
        return None;
      }
      var count := if off + n > inodes[i].size then inodes[i].size - off else n;
      var data, fault := ReadBlocks(i, off, count, room);
      SameContents(old(D()), D(), i);
      r := if fault then None else Some(data);
    }

    // ---------- Open files ----------

    /**
      A read of an open file. It begins no operation of the log, so the blocks that it gives to a file
      with holes are logged outside of a transaction when no operation is outstanding. That panic
      occurs exactly when none is, the read meets a missing block, and one is free.
    */
    method FileRead(i: nat, off: nat, length: nat, room: nat, outstanding: nat) returns (r: ReadEnd, off': nat)
      requires Valid() && i < |inodes|
      modifies this`inodes, this`blocks, this`bits, this`owner, this`logged, this`calls, this`kept
      ensures Valid() && MapsOnly(old(D()), D(), i) && size <= 8 * |old(bits)|
      ensures
        var c, n := Content(old(D()), i), length % WORDS;
        var count := Clamped(|c|, off, n);
        var reach := if count <= room then count else room + 1;
        && (r.OutsideOfTrans? <==>
              && outstanding == 0 && off <= |c| && off + n < WORDS
              && MeetsHole(old(D()), i, off, reach) && !Full(old(bits), size))
        && (r.Bytes? ==> off <= |c| && |r.data| <= count && off' == off + |r.data| && r.data == c[off..off'])
        && (r.Bytes? && |r.data| < count ==> !Reaches(old(D()), old(bits), size, i, off, reach))
        && (!r.Bytes? ==> off' == off)
        && (r.Bytes? ==> (D() != old(D()) ==> outstanding > 0))
        && (NoHoles(old(D()), i) ==> D() == old(D()) && !r.OutsideOfTrans?)
        && (NoHoles(old(D()), i) && off <= |c| && off + n < WORDS && count <= room && off + count <= MAXFILE * BSIZE ==>
              r.Bytes? && |r.data| == count)
    {
      hide Owned, BitsMatch, Full, MapsOnly, Content, Ref, FreeCount, Need, Suffices, Reaches, MeetsHole, NoHoles;
      off' := off;
      Lengths(D(), owner, nmeta, size, bits);
      ghost var d0 := D();
      ContentSize(d0, i);
      var before := calls;
      ghost var n := length % WORDS;
      var read := Read(i, off, length, room);
      if NoHoles(d0, i) && off <= |Content(d0, i)| {
        HolesNotMet(d0, old(bits), size, i, off, Clamped(|Content(d0, i)|, off, n));
        var reach := if Clamped(|Content(d0, i)|, off, n) <= room then Clamped(|Content(d0, i)|, off, n) else room + 1;
        HolesNotMet(d0, old(bits), size, i, off, reach);
      }
      if calls > before && outstanding < 1 {
        return OutsideOfTrans, off;
      }
      if read.None? {
        return IoError, off;
      }
      return Bytes(read.value), off + |read.value|;
    }

    /** One chunk of a write to an open file: an operation of the log that writes at most MAXCHUNK bytes. */
    method WriteChunk(i: nat, off: nat, src: seq<Byte>, readable: nat) returns (r: Option<nat>, ghost wrote: nat)
      requires Valid() && i < |inodes| == |dinodes| && |src| <= MAXCHUNK
      modifies this
      ensures Valid() && |inodes| == |old(inodes)| && size <= 8 * |old(bits)| && size <= 8 * |bits|
      ensures r.None? <==> off > old(inodes)[i].size || off + |src| >= WORDS || off + |src| > MAXFILE * BSIZE
      ensures r.None? ==> D() == old(D()) && dinodes == old(dinodes) && bits == old(bits)
      ensures r.Some? ==> dinodes == old(dinodes)[i := inodes[i]]
      ensures r.Some? ==> r.value <= wrote <= |src| && r.value <= readable && off <= |Content(old(D()), i)|
      ensures r.Some? && |src| <= readable ==> wrote == r.value
      ensures r.Some? ==> Content(D(), i) == SpliceUpTo(Content(old(D()), i), off, src[..wrote], off + r.value)
      ensures r.Some? && r.value < |src| ==>
                || Blocked(D(), bits, size, SlotOf(i, (off + r.value) / BSIZE))
                || readable < r.value + NextLength(off, |src|, r.value)
      ensures r.Some? && r.value < |src| ==> r.value == 0 || (off + r.value) % BSIZE == 0
      ensures r.Some? && r.value > 0 ==> r.value >= NextLength(off, |src|, 0)
      ensures r.Some? && r.value > 0 ==> Covers(D(), i, off, off + r.value)
      ensures RefsGrow(old(D()), D())
      ensures forall j: nat :: j != i ==> Content(D(), j) == Content(old(D()), j)
      ensures Full(old(bits), size) ==> Full(bits, size)
      ensures NoHoles(old(D()), i) ==> NoHoles(D(), i) && |logged| <= MAXOPBLOCKS && calls <= old(calls) + MAXCHUNKCALLS
      ensures r.Some? && Blocked(old(D()), old(bits), size, SlotOf(i, off / BSIZE)) ==>
                r.value == wrote == 0 && D() == old(D()) && bits == old(bits)
      ensures Pays(old(D()), old(bits), D(), bits, size, i, off, if r.Some? then Past(r.value, |src|) else 0)
      ensures size <= BPB ==> |logged| <= 7
    {
      hide Owned, BitsMatch, Ref, Full, Blocked, StartsInside, IndirectSet, Touched, Content, SpliceUpTo, NoHoles, Pays, Covers, RefsGrow, NextLength, Cast;
      logged := {};
      ghost var data, maps;
      r, wrote, data, maps := Write(i, off, src, readable);
      if size <= BPB {
        SubsetSize(maps, {bmapstart});
        OneMapBound(D(), i, off, |src|, logged, data, maps, inodestart + i / IPB);
      }
      if NoHoles(old(D()), i) {
        if r.Some? {
          ChunkBound(old(D()), D(), i, off, |src|, logged, data, maps, inodestart + i / IPB, old(calls), calls);
        }
      }
    }

    /** The loop of a write to an open file, for at most the given number of rounds. */
    method WriteRounds(i: nat, off: nat, src: seq<Byte>, readable: nat, rounds: nat)
      returns (refused: bool, pos: nat, ghost wrote: nat, ghost round: nat, ghost stuck: bool, ghost most: nat)
      requires Valid() && i < |inodes| == |dinodes|
      modifies this
      ensures Valid() && |inodes| == |old(inodes)|
      ensures WriteLoop(old(D()), old(bits), D(), bits, size, i, off, src, readable, pos, wrote, round, stuck)
      ensures refused ==> pos < |src| && (off > |Content(old(D()), i)| || !Accepted(off, |src|, pos))
      ensures if refused then pos < |src| else pos == |src| || round >= rounds
      ensures if round == 0 then dinodes == old(dinodes) else dinodes == old(dinodes)[i := inodes[i]]
      ensures NoHoles(old(D()), i) ==> NoHoles(D(), i) && most <= MAXOPBLOCKS
    {
      hide Valid, Ref, Full, Blocked, Content, SpliceUpTo, NoHoles, Pays, Covers, RefsGrow, SlotOf, WriteLoop, NextLength;
      MapFits();
      ContentSize(D(), i);
      ghost var d0 := D();
      pos, wrote, most, stuck, refused := 0, 0, 0, false, false;
      var turn := 0;
      round := 0;
      WriteLoopStart(d0, bits, size, i, off, src, readable);
      while pos < |src| && turn < rounds
        invariant Valid() && |inodes| == |old(inodes)| == |dinodes| && pos <= |src| && round == turn
        invariant WriteLoop(d0, old(bits), D(), bits, size, i, off, src, readable, pos, wrote, round, stuck)
        invariant if round == 0 then dinodes == old(dinodes) else dinodes == old(dinodes)[i := inodes[i]]
        invariant NoHoles(d0, i) ==> NoHoles(D(), i) && most <= MAXOPBLOCKS
      {
        var n := if |src| - pos < MAXCHUNK then |src| - pos else MAXCHUNK;
        ghost var d1, bits1 := D(), bits;
        WriteLoopFacts(d0, old(bits), d1, bits1, size, i, off, src, readable, pos, wrote, round, stuck);
        ContentSize(d1, i);
        var w;
        ghost var wrote1;
        w, wrote1 := WriteChunk(i, off + pos, src[pos..pos + n], readable - pos);
        if w.None? {
          refused := true;
          return;
        }
        most := if |logged| > most then |logged| else most;
        WriteLoopStep(d0, old(bits), d1, bits1, D(), bits, size, i, off, src, readable, pos, wrote, round, stuck, n, w.value, wrote1);
        stuck := stuck || w.value < n;
        wrote := if pos + wrote1 > wrote then pos + wrote1 else wrote;
        pos, turn := pos + w.value, turn + 1;
        round := round + 1;
      }
    }

    /**
      The loop of a write to an open file, watched for the given number of rounds. What has arrived
      is a prefix of src. A write that is not refused ends, and ends within one round more than there
      are bytes, exactly when user memory can be read and the blocks it needs are there or free at
      the start; otherwise it goes on for ever. One that would exceed the largest file is refused
      exactly when it gets to a chunk that does; otherwise it goes on for ever too. Each chunk stays within the blocks one operation of
      the log may write, if the file has no holes.
    */
    method FileWrite(i: nat, off: nat, src: seq<Byte>, readable: nat, rounds: nat)
      returns (r: WriteEnd, pos: nat, ghost wrote: nat, ghost most: nat)
      requires Valid() && i < |inodes| == |dinodes|
      modifies this
      ensures Valid() && |inodes| == |old(inodes)| && size <= 8 * |bits| && size <= 8 * |old(bits)|
      ensures pos <= wrote <= |src| && (off > |Content(old(D()), i)| ==> pos == wrote == 0 && D() == old(D()))
      ensures |src| <= readable ==> wrote == pos
      ensures off <= |Content(old(D()), i)| ==> Content(D(), i) == SpliceUpTo(Content(old(D()), i), off, src[..wrote], off + pos)
      ensures forall j: nat :: j != i ==> Content(D(), j) == Content(old(D()), j)
      ensures pos > 0 ==> dinodes == old(dinodes)[i := inodes[i]]
      ensures r.Finished? <==> pos == |src|
      ensures r.Refused? ==> off > |Content(old(D()), i)| || off + |src| > MAXFILE * BSIZE
      ensures src != [] && rounds > 0 && off > |Content(old(D()), i)| ==> r.Refused?
      ensures r.Finished? && off <= |Content(old(D()), i)| ==> Content(D(), i) == SpliceFile(Content(old(D()), i), off, src)
      ensures src != [] && off + |src| > MAXFILE * BSIZE ==> !r.Finished?
      ensures off <= |Content(old(D()), i)| && off + |src| > MAXFILE * BSIZE && src != [] ==>
                && (r.Refused? ==> GetsRefused(old(D()), old(bits), size, i, off, |src|, readable))
                && (rounds > |src| && GetsRefused(old(D()), old(bits), size, i, off, |src|, readable) ==> r.Refused?)
      ensures off <= |Content(old(D()), i)| && off + |src| <= MAXFILE * BSIZE ==>
                && (r.Finished? ==> |src| <= readable && Suffices(old(D()), old(bits), size, i, off, |src|))
                && (rounds > |src| && |src| <= readable && Suffices(old(D()), old(bits), size, i, off, |src|) ==> r.Finished?)
      ensures r.StillGoing? && rounds > |src| ==> readable < |src| || Blocked(D(), bits, size, SlotOf(i, (off + pos) / BSIZE))
      ensures src != [] && Blocked(old(D()), old(bits), size, SlotOf(i, off / BSIZE)) ==> !r.Finished? && pos == 0 && D() == old(D())
      ensures NoHoles(old(D()), i) ==> NoHoles(D(), i) && most <= MAXOPBLOCKS
    {
      hide Valid, Ref, Full, Blocked, Content, SpliceUpTo, SpliceFile, NoHoles, Suffices, SlotOf, WriteLoop, GetsRefused;
      MapFits();
      ghost var d0 := D();
      var refused;
      ghost var round, stuck;
      refused, pos, wrote, round, stuck, most := WriteRounds(i, off, src, readable, rounds);
      MapFits();
      WriteLoopFacts(d0, old(bits), D(), bits, size, i, off, src, readable, pos, wrote, round, stuck);
      WriteLoopBlocked(d0, old(bits), D(), bits, size, i, off, src, readable, pos, wrote, round, stuck);
      if off <= |Content(d0, i)| {
        WriteLoopEnds(d0, old(bits), D(), bits, size, i, off, src, readable, pos, wrote, round, stuck);
        SpliceAll(Content(d0, i), off, src);
        assert src[..|src|] == src;
        if off + |src| > MAXFILE * BSIZE && pos < |src| {
          WriteLoopRefused(d0, old(bits), D(), bits, size, i, off, src, readable, pos, wrote, round, stuck);
        }
      }
      r := if refused then Refused else if pos == |src| then Finished else StillGoing;
    }
  }

  /** A disk of two blocks: the first is metadata, the second is free; and one empty file. */
  function SmallDisk(): Disk {
    Disk([Inode(0, seq(NDIRECT + 1, k => 0))], [ZeroBlock(), ZeroBlock()])
  }

  lemma SmallDiskFacts()
    ensures Owned(SmallDisk(), map[], 1, 2) && BitsMatch([1], map[], 1, 2)
    ensures !Suffices(SmallDisk(), [1], 2, 0, 0, BSIZE + 1)
  {
    var d := SmallDisk();
    assert !Bit([1], 1) && Bit([1], 0);
    assert FreeSet([1], 2) == {1};
    forall s ensures Ref(d, s) == 0 {
    }
    assert Holes(d, 0, 0, 2) == {0, 1};
    assert EndBlock(BSIZE + 1) == 2;
  }

  /** Writing one byte more than a block to the empty file of that disk goes on for ever. */
  method EndlessWrite(rounds: nat) returns (r: WriteEnd)
    ensures r.StillGoing?
  {
    hide Owned, BitsMatch, Suffices;
    SmallDiskFacts();
    var d := SmallDisk();
    var fs := new FileSystem(1, 0, 0, d.inodes, d.blocks, [1], map[]);
    var pos;
    ghost var wrote, most;
    r, pos, wrote, most := fs.FileWrite(0, 0, seq(BSIZE + 1, k => 0), BSIZE + 1, rounds);
  }
}
