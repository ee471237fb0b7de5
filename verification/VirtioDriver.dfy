/** The driver's side of the queue, as the code runs it under the disk lock. */
module VirtioDriver {
  import opened VirtioQueue

  /** Which buffer an operation in flight is for; indexed by the head of its chain. */
  datatype Info = Info(buf: Option<nat>, status: nat)

  class Disk {
    const desc: array<Desc>
    const free: array<bool>
    const ops: array<BlockReq>
    const info: array<Info>
    const availRing: array<nat>
    var availIdx: nat
    const usedRing: array<nat>    // written by the device
    var usedDeviceIdx: nat        // written by the device
    var usedIdx: nat
    /** Buffers whose `disk` flag is set: owned by the device. */
    var busy: set<nat>

    ghost predicate Valid()
      reads this
    {
      && desc.Length == free.Length == ops.Length == info.Length == availRing.Length == usedRing.Length == NUM
      && availRing != usedRing
      && availIdx < WRAP && usedDeviceIdx < WRAP && usedIdx < WRAP
    }

    constructor ()
      ensures Valid() && free[..] == seq(NUM, _ => true) && busy == {}
      ensures availIdx == 0 && usedDeviceIdx == 0 && usedIdx == 0
      ensures fresh(desc) && fresh(free) && fresh(ops) && fresh(info) && fresh(availRing) && fresh(usedRing)
    {
      desc := new Desc[NUM](_ => EMPTY);
      free := new bool[NUM](_ => true);
      ops := new BlockReq[NUM](_ => BlockReq(In, 0));
      info := new Info[NUM](_ => Info(None, 0));
      availRing := new nat[NUM](_ => 0);
      usedRing := new nat[NUM](_ => 0);
      availIdx, usedDeviceIdx, usedIdx, busy := 0, 0, 0, {};
    }

    /** Finds the first free descriptor and marks it taken. */
    method AllocDesc() returns (r: Option<nat>)
      requires Valid()
      modifies free
      ensures r.Some? ==> r.value == FirstFree(old(free[..])) && r.value < NUM
      ensures r.Some? ==> free[..] == old(free[..])[r.value := false]
      ensures r.None? ==> FirstFree(old(free[..])) == NUM && free[..] == old(free[..])
    {
      for i := 0 to NUM
        invariant free[..] == old(free[..])
        invariant forall j :: 0 <= j < i ==> !free[j]
      {
        if free[i] {
          free[i] := false;
          return Some(i);
        }
      }
      return None;
    }

    /** Marks a descriptor free; reports the channel that sleepers on it are woken through. */
    method FreeDesc(i: nat) returns (woken: nat)
      requires Valid() && i < NUM
      modifies desc, free
      ensures free[..] == old(free[..])[i := true] && desc[..] == old(desc[..])[i := EMPTY] && woken == i
    {
      desc[i] := desc[i].(addr := Null);
      desc[i] := desc[i].(len := 0);
      desc[i] := desc[i].(flags := 0);
      desc[i] := desc[i].(next := 0);
      free[i] := true;
      woken := i;
    }

    /** Frees a chain of three descriptors, following its links. */
    method FreeChain(head: nat, ghost b: nat, ghost c: nat) returns (woken: set<nat>)
      requires Valid() && Chain(desc[..], head, b, c)
      modifies desc, free
      ensures free[..] == old(free[..])[head := true][b := true][c := true]
      ensures desc[..] == old(desc[..])[head := EMPTY][b := EMPTY][c := EMPTY]
      ensures woken == {head, b, c}
    {
      var i := head;
      woken := {};
      ghost var n := 0;
      while true
        invariant n <= 2 && i == (if n == 0 then head else if n == 1 then b else c)
        invariant n == 0 ==> free[..] == old(free[..]) && desc[..] == old(desc[..]) && woken == {}
        invariant n == 1 ==> free[..] == old(free[..])[head := true] && desc[..] == old(desc[..])[head := EMPTY] && woken == {head}
        invariant n == 2 ==>
                    && free[..] == old(free[..])[head := true][b := true]
                    && desc[..] == old(desc[..])[head := EMPTY][b := EMPTY] && woken == {head, b}
        decreases 3 - n
      {
        assert desc[..][i] == old(desc[..])[i];
        var flag := desc[i].flags;
        var next := desc[i].next;
        var w := FreeDesc(i);
        woken := woken + {w};
        if flag & F_NEXT != 0 {
          i := next;
          n := n + 1;
        } else {
          break;
        }
      }
    }

    /** Allocates three descriptors, or none: a partial allocation is undone. */
    method Alloc3Desc() returns (r: Option<(nat, nat, nat)>)
      requires Valid() && forall i :: 0 <= i < NUM && free[i] ==> desc[i] == EMPTY
      modifies desc, free
      ensures r == Alloc3(old(free[..])) && desc[..] == old(desc[..])
      ensures r.Some? ==> free[..] == old(free[..])[r.value.0 := false][r.value.1 := false][r.value.2 := false]
      ensures r.None? ==> free[..] == old(free[..])
    {
      var taken: seq<nat> := [];
      for i := 0 to 3
        invariant |taken| == i && desc[..] == old(desc[..])
        invariant i == 0 ==> free[..] == old(free[..])
        invariant i >= 1 ==> taken[0] == FirstFree(old(free[..])) < NUM
        invariant i == 1 ==> free[..] == old(free[..])[taken[0] := false]
        invariant i >= 2 ==> taken[1] == FirstFree(old(free[..])[taken[0] := false]) < NUM
        invariant i == 2 ==> free[..] == old(free[..])[taken[0] := false][taken[1] := false]
        invariant i == 3 ==> taken[2] == FirstFree(old(free[..])[taken[0] := false][taken[1] := false]) < NUM
        invariant i == 3 ==> free[..] == old(free[..])[taken[0] := false][taken[1] := false][taken[2] := false]
      {
        var d := AllocDesc();
        if d.None? {
          if i >= 1 {
            var _ := FreeDesc(taken[0]);
          }
          if i == 2 {
            var _ := FreeDesc(taken[1]);
          }
          assert desc[..] == old(desc[..]);
          assert free[..] == old(free[..]);
          return None;
        }
        taken := taken + [d.value];
      }
      return Some((taken[0], taken[1], taken[2]));
    }

    /** Formats the descriptors of a request and makes its chain available to the device. */
    method Submit(r: Request, a: nat, b: nat, c: nat)
      requires Valid() && a < NUM && b < NUM && c < NUM && a != b && a != c && b != c
      modifies desc, ops, info, availRing, this`availIdx, this`busy
      ensures Valid() && availIdx == Succ(old(availIdx)) && busy == old(busy) + {r.buf}
      ensures desc[..] == Format(old(desc[..]), r, a, b, c) && ops[..] == old(ops[..])[a := Header(r)]
      ensures info[..] == old(info[..])[a := Info(Some(r.buf), 0xFF)]
      ensures availRing[..] == old(availRing[..])[old(availIdx) % NUM := a]
    {
      ops[a] := BlockReq(if r.write then Out else In, r.blockNo * (BSIZE / 512));

      desc[a] := Desc(ReqHeader(a), REQ_SIZE, F_NEXT, b);

      desc[b] := Desc(BufferData(r.buf), BSIZE, if r.write then 0 else F_WRITE, 0);
      desc[b] := desc[b].(flags := desc[b].flags | F_NEXT);
      desc[b] := desc[b].(next := c);

      info[a] := info[a].(status := 0xFF);
      desc[c] := Desc(StatusByte(a), 1, F_WRITE, 0);

      info[a] := info[a].(buf := Some(r.buf));
      busy := busy + {r.buf};

      availRing[availIdx % NUM] := a;
      availIdx := (availIdx + 1) % WRAP;
    }

    /** Acknowledges every completion in the used ring: each clears the flag of its own buffer. */
    method HandleInterrupt(ghost q: seq<nat>)
      requires Valid() && Window(usedRing[..], usedIdx, usedDeviceIdx, q)
      requires forall k :: 0 <= k < |q| ==> q[k] < NUM && info[q[k]].buf.Some?
      modifies this`busy, this`usedIdx
      ensures Valid() && usedIdx == usedDeviceIdx
      ensures forall x :: x in busy <==> x in old(busy) && forall k :: 0 <= k < |q| ==> info[q[k]].buf != Some(x)
    {
      ghost var n := 0;
      while usedIdx != usedDeviceIdx
        invariant n <= |q| && Valid() && Window(usedRing[..], usedIdx, usedDeviceIdx, q[n..])
        invariant forall x :: x in busy <==> x in old(busy) && forall k :: 0 <= k < n ==> info[q[k]].buf != Some(x)
        decreases |q| - n
      {
        WindowPop(usedRing[..], usedIdx, usedDeviceIdx, q[n..]);
        assert q[n..][1..] == q[n + 1..];
        var id := usedRing[usedIdx % NUM];
        assert id == q[n];
        var buf := info[id].buf;
        busy := busy - {buf.value};
        usedIdx := (usedIdx + 1) % WRAP;
        n := n + 1;
      }
      WindowPop(usedRing[..], usedIdx, usedDeviceIdx, q[n..]);
    }

    /** The end of rw, once the buffer's flag is clear. */
    method Complete(head: nat, ghost b: nat, ghost c: nat) returns (woken: set<nat>)
      requires Valid() && Chain(desc[..], head, b, c)
      modifies desc, free, info
      ensures info[..] == old(info[..])[head := old(info[head]).(buf := None)]
      ensures free[..] == old(free[..])[head := true][b := true][c := true]
      ensures desc[..] == old(desc[..])[head := EMPTY][b := EMPTY][c := EMPTY]
      ensures woken == {head, b, c}
    {
      info[head] := info[head].(buf := None);
      woken := FreeChain(head, b, c);
    }
  }
}
