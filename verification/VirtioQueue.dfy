/**
  The split virtqueue of the disk driver: descriptor table, available ring and used ring, in the
  format of sections 2.6 (split virtqueues) and 5.2 (block device) of the Virtio 1.1 specification.
*/
module VirtioQueue {

  const NUM: nat := 8
  const WRAP: nat := 65536      // ring indices are 16-bit and wrap around
  const F_NEXT: bv16 := 1       // chained with another descriptor
  const F_WRITE: bv16 := 2      // the device writes the buffer
  const BSIZE: nat := 1024
  const REQ_SIZE: nat := 16     // size of the request header: type, reserved, sector

  datatype Option<T> = None | Some(value: T)

  /** What a descriptor's address points at. */
  datatype Addr = Null | ReqHeader(i: nat) | BufferData(buf: nat) | StatusByte(i: nat)

  datatype Desc = Desc(addr: Addr, len: nat, flags: bv16, next: nat)

  const EMPTY: Desc := Desc(Null, 0, 0, 0)

  datatype ReqKind = In | Out

  /** The header of a block request. */
  datatype BlockReq = BlockReq(kind: ReqKind, sector: nat)

  /** A disk operation as the driver is asked for it. */
  datatype Request = Request(buf: nat, blockNo: nat, write: bool)

  // ---------------------------------------------------------------- descriptors

  /** Index of the first free descriptor, or NUM. */
  function FirstFree(free: seq<bool>): (i: nat)
    ensures i <= |free| && (i < |free| ==> free[i])
    ensures forall j :: 0 <= j < i ==> !free[j]
  {
    if free == [] then 0 else if free[0] then 0 else 1 + FirstFree(free[1..])
  }

  /** The three descriptors that three successive allocations give, when there are three. */
  function Alloc3(free: seq<bool>): (r: Option<(nat, nat, nat)>)
  {
    var a := FirstFree(free);
    if a >= |free| then None else
      var f1 := free[a := false];
      var b := FirstFree(f1);
      if b >= |f1| then None else
        var f2 := f1[b := false];
        var c := FirstFree(f2);
        if c >= |f2| then None else Some((a, b, c))
  }

  /** The request chain headed by a, through b, to c. */
  function Format(desc: seq<Desc>, r: Request, a: nat, b: nat, c: nat): (d: seq<Desc>)
    requires a < |desc| && b < |desc| && c < |desc|
    ensures |d| == |desc|
  {
    desc[a := Desc(ReqHeader(a), REQ_SIZE, F_NEXT, b)]
        [b := Desc(BufferData(r.buf), BSIZE, (if r.write then 0 else F_WRITE) | F_NEXT, c)]
        [c := Desc(StatusByte(a), 1, F_WRITE, 0)]
  }

  function Header(r: Request): (h: BlockReq) {
    BlockReq(if r.write then Out else In, r.blockNo * (BSIZE / 512))
  }

  /** What the device makes of the chain headed by `head`: the operation it will perform. */
  function Parse(desc: seq<Desc>, ops: seq<BlockReq>, head: nat): (r: Option<Request>) {
    if head >= |desc| || desc[head].flags & F_NEXT == 0 || desc[head].next >= |desc| then None else
      var d0 := desc[head];
      var d1 := desc[d0.next];
      if d1.flags & F_NEXT == 0 || d1.next >= |desc| then None else
        var d2 := desc[d1.next];
        if !d0.addr.ReqHeader? || d0.addr.i >= |ops| || d0.len != REQ_SIZE || !d1.addr.BufferData? || d1.len != BSIZE
           || d2.addr != StatusByte(head) || d2.len != 1 || d2.flags != F_WRITE then None else
          var h := ops[d0.addr.i];
          if h.sector % 2 != 0 || (h.kind == In) != (d1.flags & F_WRITE != 0) then None
          else Some(Request(d1.addr.buf, h.sector / 2, h.kind == Out))
  }

  /** Formatting and parsing are inverse: the device performs the operation asked for. */
  lemma ParseFormat(desc: seq<Desc>, ops: seq<BlockReq>, r: Request, a: nat, b: nat, c: nat)
    requires |desc| == |ops| && a < |desc| && b < |desc| && c < |desc| && a != b && a != c && b != c
    ensures Parse(Format(desc, r, a, b, c), ops[a := Header(r)], a) == Some(r)
  {
    assert F_NEXT & F_NEXT == 1 && (F_WRITE | F_NEXT) & F_NEXT == 1 && (F_WRITE | F_NEXT) & F_WRITE == 2;
    assert (0 as bv16 | F_NEXT) & F_NEXT == 1 && (0 as bv16 | F_NEXT) & F_WRITE == 0;
  }

  /** A chain of three descriptors from head to an unchained last one. */
  predicate Chain(desc: seq<Desc>, a: nat, b: nat, c: nat) {
    && a < |desc| && b < |desc| && c < |desc| && a != b && a != c && b != c
    && desc[a].flags & F_NEXT != 0 && desc[a].next == b
    && desc[b].flags & F_NEXT != 0 && desc[b].next == c
    && desc[c].flags & F_NEXT == 0
  }

  lemma FormatChain(desc: seq<Desc>, r: Request, a: nat, b: nat, c: nat)
    requires a < |desc| && b < |desc| && c < |desc| && a != b && a != c && b != c
    ensures Chain(Format(desc, r, a, b, c), a, b, c)
  {
    assert F_NEXT & F_NEXT == 1 && (F_WRITE | F_NEXT) & F_NEXT == 1;
    assert (0 as bv16 | F_NEXT) & F_NEXT == 1 && F_WRITE & F_NEXT == 0;
  }

  // ---------------------------------------------------------------- who holds which descriptors

  /** Descriptors 0 to 2 and 3 to 5 are the only chains; 6 and 7 are never in flight. */
  predicate FreeMap(free: seq<bool>, low: bool, high: bool) {
    free == [!low, !low, !low, !high, !high, !high, true, true]
  }

  /** Allocation takes the low chain if it can, else the high one, else nothing. */
  lemma Alloc3Chains(free: seq<bool>, low: bool, high: bool)
    requires FreeMap(free, low, high)
    ensures Alloc3(free) == if !low then Some((0, 1, 2)) else if !high then Some((3, 4, 5)) else None
  {
    var a := FirstFree(free);
    assert !low ==> free[0];
    assert low && !high ==> free[3];
    if !(low && high) {
      var f1 := free[a := false];
      var b := FirstFree(f1);
      assert f1[a + 1] && b == a + 1;
      var f2 := f1[b := false];
      assert f2[a + 2] && FirstFree(f2) == a + 2;
    } else {
      assert free[6] && !free[0] && !free[1] && !free[2] && !free[3] && !free[4] && !free[5];
      assert a == 6;
      var f1 := free[6 := false];
      assert f1[7] && FirstFree(f1) == 7;
      var f2 := f1[7 := false];
      assert FirstFree(f2) == 8;
    }
  }

  // ---------------------------------------------------------------- rings

  function Succ(idx: nat): (r: nat)
    ensures r < WRAP
  {
    (idx + 1) % WRAP
  }

  /** The entries of a ring from index `from` up to index `to`, oldest first, are those of `q`. */
  predicate Window(ring: seq<nat>, from: nat, to: nat, q: seq<nat>) {
    && |ring| == NUM && |q| <= NUM && from < WRAP && to == (from + |q|) % WRAP
    && forall k :: 0 <= k < |q| ==> ring[(from + k) % NUM] == q[k]
  }

  /** Entries are put in at one end... */
  lemma WindowPush(ring: seq<nat>, from: nat, to: nat, q: seq<nat>, x: nat)
    requires Window(ring, from, to, q) && |q| < NUM
    ensures Window(ring[to % NUM := x], from, Succ(to), q + [x])
  {
    var r, p := ring[to % NUM := x], q + [x];
    assert to % NUM == (from + |q|) % NUM;
    forall k | 0 <= k < |p| ensures r[(from + k) % NUM] == p[k] {
      if k < |q| {
        assert (from + k) % NUM != (from + |q|) % NUM;
      }
    }
  }

  /** ...and taken out at the other. */
  lemma WindowPop(ring: seq<nat>, from: nat, to: nat, q: seq<nat>)
    requires Window(ring, from, to, q)
    ensures from != to ==> q != [] && ring[from % NUM] == q[0] && Window(ring, Succ(from), to, q[1..])
    ensures from == to ==> q == []
  {
    if q != [] {
      assert ring[(from + 0) % NUM] == q[0];
      assert (Succ(from) + |q| - 1) % WRAP == to;
      forall k | 0 <= k < |q| - 1 ensures ring[(Succ(from) + k) % NUM] == q[1..][k] {
        assert (Succ(from) + k) % NUM == (from + (k + 1)) % NUM;
      }
    }
  }
}
