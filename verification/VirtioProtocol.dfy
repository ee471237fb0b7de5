/**
  Any number of processes doing disk operations through the queue, and the device serving them in
  any order. Requests of different processes are for different buffers and blocks, because a
  process holds the lock of the one buffer that caches the block.
*/
module VirtioProtocol {
  import opened VirtioQueue

  type Block = seq<nat>

  /** How far the device and the interrupt handler have got with a chain. */
  datatype Stage = Queued | Working | Used | Acked

  /** Where a process is in rw. */
  datatype Pc = Ready | Waiting | InFlight(head: nat, stage: Stage) | Done

  /** `payload` is what the buffer held when the request was made. */
  datatype Proc = Proc(req: Request, pc: Pc, payload: Block)

  datatype State = State(
    desc: seq<Desc>,
    free: seq<bool>,
    ops: seq<BlockReq>,
    info: seq<Option<nat>>,
    availRing: seq<nat>,
    availIdx: nat,
    seenIdx: nat,             // how much of the available ring the device has taken
    usedRing: seq<nat>,
    usedDeviceIdx: nat,
    usedIdx: nat,
    busy: set<nat>,           // buffers whose `disk` flag is set
    disk: map<nat, Block>,
    data: map<nat, Block>,    // contents of each buffer
    procs: seq<Proc>,
    low: Option<nat>,         // history: process holding descriptors 0 to 2
    high: Option<nat>,        // history: process holding descriptors 3 to 5
    queued: seq<nat>,         // history: heads the device has not taken yet
    used: seq<nat>            // history: heads the driver has not acknowledged yet
  )

  datatype Step =
    | New(req: Request)
    | Touch(buf: nat, x: Block)
    | Try(p: nat)
    | Fetch
    | Serve(p: nat)
    | Ack
    | Finish(p: nat)

  predicate Unfinished(p: Proc) {
    !p.pc.Done?
  }

  /** The chain headed by h is held by process p, which is at the given stage. */
  predicate Holds(s: State, h: nat, p: nat) {
    p < |s.procs| && s.procs[p].pc.InFlight? && s.procs[p].pc.head == h
  }

  function Slot(s: State, h: nat): (o: Option<nat>) {
    if h == 0 then s.low else if h == 3 then s.high else None
  }

  // ---------------------------------------------------------------- steps

  predicate Enabled(s: State, step: Step) {
    match step
    case New(r) =>
      && r.buf in s.data && r.blockNo in s.disk
      && forall p :: 0 <= p < |s.procs| && Unfinished(s.procs[p]) ==>
           s.procs[p].req.buf != r.buf && s.procs[p].req.blockNo != r.blockNo
    case Touch(buf, _) =>
      buf in s.data && forall p :: 0 <= p < |s.procs| && Unfinished(s.procs[p]) ==> s.procs[p].req.buf != buf
    case Try(p) => p < |s.procs| && s.procs[p].pc.Ready? && |s.desc| == |s.free| == |s.ops| == |s.info| == |s.availRing| == NUM
    case Fetch => |s.availRing| == NUM && s.seenIdx != s.availIdx
    case Serve(p) =>
      && p < |s.procs| && s.procs[p].pc.InFlight? && s.procs[p].pc.stage == Working && |s.usedRing| == NUM
      && Parse(s.desc, s.ops, s.procs[p].pc.head).Some?
    case Ack =>
      && |s.usedRing| == NUM && s.usedIdx != s.usedDeviceIdx
      && s.usedRing[s.usedIdx % NUM] < |s.info| && s.info[s.usedRing[s.usedIdx % NUM]].Some?
    case Finish(p) =>
      && p < |s.procs| && s.procs[p].pc.InFlight? && s.procs[p].req.buf !in s.busy
      && |s.desc| == |s.free| == |s.info| == NUM && s.procs[p].pc.head + 2 < NUM
  }

  /** rw up to waiting for the interrupt: allocate descriptors or sleep, then submit. */
  function DoTry(s: State, p: nat): State
    requires Enabled(s, Try(p))
  {
    var r := s.procs[p].req;
    match Alloc3(s.free)
    case None => s.(procs := s.procs[p := s.procs[p].(pc := Waiting)])
    case Some((a, b, c)) =>
      if a >= NUM || b >= NUM || c >= NUM then s else
      s.(free := s.free[a := false][b := false][c := false],
         desc := Format(s.desc, r, a, b, c),
         ops := s.ops[a := Header(r)],
         info := s.info[a := Some(r.buf)],
         busy := s.busy + {r.buf},
         availRing := s.availRing[s.availIdx % NUM := a],
         availIdx := Succ(s.availIdx),
         procs := s.procs[p := Proc(r, InFlight(a, Queued), if r.buf in s.data then s.data[r.buf] else [])],
         low := if a == 0 then Some(p) else s.low,
         high := if a == 3 then Some(p) else s.high,
         queued := s.queued + [a])
  }

  function Staged(s: State, h: nat, stage: Stage): (procs: seq<Proc>)
    ensures |procs| == |s.procs|
  {
    var o := Slot(s, h);
    if o.Some? && o.value < |s.procs| then s.procs[o.value := s.procs[o.value].(pc := InFlight(h, stage))] else s.procs
  }

  /** The device takes the next chain from the available ring. */
  function DoFetch(s: State): State
    requires Enabled(s, Fetch)
  {
    s.(seenIdx := Succ(s.seenIdx),
       procs := Staged(s, s.availRing[s.seenIdx % NUM], Working),
       queued := if s.queued == [] then [] else s.queued[1..])
  }

  /** The device performs the operation it reads from the descriptors and reports it as used. */
  function DoServe(s: State, p: nat): State
    requires Enabled(s, Serve(p))
  {
    var h := s.procs[p].pc.head;
    var r := Parse(s.desc, s.ops, h).value;
    s.(disk := if r.write && r.buf in s.data then s.disk[r.blockNo := s.data[r.buf]] else s.disk,
       data := if !r.write && r.blockNo in s.disk then s.data[r.buf := s.disk[r.blockNo]] else s.data,
       usedRing := s.usedRing[s.usedDeviceIdx % NUM := h],
       usedDeviceIdx := Succ(s.usedDeviceIdx),
       procs := s.procs[p := s.procs[p].(pc := InFlight(h, Used))],
       used := s.used + [h])
  }

  /** One turn of the interrupt handler. */
  function DoAck(s: State): State
    requires Enabled(s, Ack)
  {
    var h := s.usedRing[s.usedIdx % NUM];
    s.(busy := s.busy - {s.info[h].value},
       usedIdx := Succ(s.usedIdx),
       procs := Staged(s, h, Acked),
       used := if s.used == [] then [] else s.used[1..])
  }

  /** The end of rw: frees the chain; freeing descriptor 0 wakes those waiting for descriptors. */
  function DoFinish(s: State, p: nat): State
    requires Enabled(s, Finish(p))
  {
    var h := s.procs[p].pc.head;
    var ended := s.procs[p := s.procs[p].(pc := Done)];
    s.(desc := s.desc[h := EMPTY][h + 1 := EMPTY][h + 2 := EMPTY],
       free := s.free[h := true][h + 1 := true][h + 2 := true],
       info := s.info[h := None],
       procs := if h == 0 then Awake(ended) else ended,
       low := if h == 0 then None else s.low,
       high := if h == 3 then None else s.high)
  }

  /** Everyone asleep on the channel of descriptor 0 tries again. */
  function Awake(procs: seq<Proc>): (r: seq<Proc>)
    ensures |r| == |procs|
    ensures forall p :: 0 <= p < |procs| ==> r[p] == if procs[p].pc.Waiting? then procs[p].(pc := Ready) else procs[p]
  {
    seq(|procs|, i requires 0 <= i < |procs| => if procs[i].pc.Waiting? then procs[i].(pc := Ready) else procs[i])
  }

  function Do(s: State, step: Step): State
    requires Enabled(s, step)
  {
    match step
    case New(r) => s.(procs := s.procs + [Proc(r, Ready, [])])
    case Touch(buf, x) => s.(data := s.data[buf := x])
    case Try(p) => DoTry(s, p)
    case Fetch => DoFetch(s)
    case Serve(p) => DoServe(s, p)
    case Ack => DoAck(s)
    case Finish(p) => DoFinish(s, p)
  }

  // ---------------------------------------------------------------- invariant

  predicate Shape(s: State) {
    |s.desc| == |s.free| == |s.ops| == |s.info| == |s.availRing| == |s.usedRing| == NUM
  }

  predicate Descriptors(s: State)
    requires Shape(s)
  {
    && FreeMap(s.free, s.low.Some?, s.high.Some?)
    && (forall i :: 0 <= i < NUM && s.free[i] ==> s.desc[i] == EMPTY)
  }

  /** A chain in flight is formatted for its request and recorded under its head. */
  predicate SlotOk(s: State, h: nat, o: Option<nat>)
    requires Shape(s) && h + 2 < NUM
  {
    o.Some? ==>
      && Holds(s, h, o.value)
      && Chain(s.desc, h, h + 1, h + 2) && s.desc[h].addr == ReqHeader(h)
      && Parse(s.desc, s.ops, h) == Some(s.procs[o.value].req)
      && s.info[h] == Some(s.procs[o.value].req.buf)
      && (s.procs[o.value].req.buf in s.busy <==> s.procs[o.value].pc.stage != Acked)
      && (h in s.queued <==> s.procs[o.value].pc.stage == Queued)
      && (h in s.used <==> s.procs[o.value].pc.stage == Used)
  }

  predicate NoDup(q: seq<nat>) {
    |q| <= 2 && (|q| == 2 ==> q[0] != q[1])
  }

  predicate Rings(s: State) {
    && Window(s.availRing, s.seenIdx, s.availIdx, s.queued) && NoDup(s.queued)
    && Window(s.usedRing, s.usedIdx, s.usedDeviceIdx, s.used) && NoDup(s.used)
    && (forall k :: 0 <= k < |s.queued| ==> Slot(s, s.queued[k]).Some?)
    && (forall k :: 0 <= k < |s.used| ==> Slot(s, s.used[k]).Some?)
  }

  predicate Procs(s: State) {
    && (forall p :: 0 <= p < |s.procs| && s.procs[p].pc.InFlight? ==>
          (s.procs[p].pc.head == 0 && s.low == Some(p)) || (s.procs[p].pc.head == 3 && s.high == Some(p)))
    && (forall p :: 0 <= p < |s.procs| && s.procs[p].pc.Waiting? ==> s.low.Some?)
    && (forall p, q :: 0 <= p < q < |s.procs| && Unfinished(s.procs[p]) && Unfinished(s.procs[q]) ==>
          s.procs[p].req.buf != s.procs[q].req.buf && s.procs[p].req.blockNo != s.procs[q].req.blockNo)
    && (forall p :: 0 <= p < |s.procs| && Unfinished(s.procs[p]) ==> s.procs[p].req.buf in s.data && s.procs[p].req.blockNo in s.disk)
  }

  /** What a request in flight has done to its buffer and its block. */
  predicate Transferred(s: State, p: Proc) {
    && p.req.buf in s.data && p.req.blockNo in s.disk
    && (p.req.write ==> s.data[p.req.buf] == p.payload)
    && (p.pc.InFlight? && (p.pc.stage == Used || p.pc.stage == Acked) ==> s.data[p.req.buf] == s.disk[p.req.blockNo])
  }

  predicate Transfers(s: State) {
    forall p :: 0 <= p < |s.procs| && s.procs[p].pc.InFlight? ==> Transferred(s, s.procs[p])
  }

  predicate Inv(s: State) {
    && Shape(s) && Descriptors(s) && SlotOk(s, 0, s.low) && SlotOk(s, 3, s.high)
    && Rings(s) && Procs(s) && Transfers(s)
  }

  // ---------------------------------------------------------------- every step keeps it

  lemma NewInv(s: State, r: Request)
    requires Inv(s) && Enabled(s, New(r))
    ensures Inv(Do(s, New(r)))
  {
    hide Parse, Chain, Window, FreeMap;
  }

  lemma TouchInv(s: State, buf: nat, x: Block)
    requires Inv(s) && Enabled(s, Touch(buf, x))
    ensures Inv(Do(s, Touch(buf, x)))
  {
    hide Parse, Chain, Window, FreeMap;
  }

  /** Both chains in flight: the process waits, and descriptor 0 is in flight. */
  lemma TryWaits(s: State, p: nat)
    requires Inv(s) && Enabled(s, Try(p)) && s.low.Some? && s.high.Some?
    ensures DoTry(s, p) == s.(procs := s.procs[p := s.procs[p].(pc := Waiting)]) && Inv(DoTry(s, p))
  {
    Alloc3Chains(s.free, true, true);
    hide Parse, Chain, Window, FreeMap;
  }

  lemma PopNoDup(q: seq<nat>)
    requires NoDup(q) && q != []
    ensures NoDup(q[1..]) && forall x :: x in q[1..] <==> x in q && x != q[0]
  {
  }

  /** The chain the device takes is one that was queued and not yet taken. */
  lemma FetchHead(s: State) returns (h: nat, p: nat)
    requires Inv(s) && Enabled(s, Fetch)
    ensures h == s.availRing[s.seenIdx % NUM] && s.queued != [] && h == s.queued[0]
    ensures Slot(s, h) == Some(p) && Holds(s, h, p) && s.procs[p].pc.stage == Queued
    ensures Window(s.availRing, Succ(s.seenIdx), s.availIdx, s.queued[1..])
  {
    hide Parse, Chain, Descriptors, Procs, Transfers;
    WindowPop(s.availRing, s.seenIdx, s.availIdx, s.queued);
    h := s.queued[0];
    p := Slot(s, h).value;
  }

  /** Advancing the stage of one chain, with the rings adjusted to it. */
  lemma AdvanceSlots(s: State, t: State, h: nat, p: nat, stage: Stage)
    requires Inv(s) && Slot(s, h) == Some(p) && Holds(s, h, p)
    requires t == s.(procs := s.procs[p := s.procs[p].(pc := InFlight(h, stage))], queued := t.queued, used := t.used,
                     busy := t.busy, seenIdx := t.seenIdx, usedIdx := t.usedIdx, usedRing := t.usedRing, usedDeviceIdx := t.usedDeviceIdx,
                     data := t.data, disk := t.disk)
    requires |t.usedRing| == NUM
    requires forall x :: x != h ==> (x in t.queued <==> x in s.queued) && (x in t.used <==> x in s.used)
    requires (h in t.queued <==> stage == Queued) && (h in t.used <==> stage == Used)
    requires forall b :: b != s.procs[p].req.buf ==> (b in t.busy <==> b in s.busy)
    requires s.procs[p].req.buf in t.busy <==> stage != Acked
    ensures Descriptors(t) && SlotOk(t, 0, t.low) && SlotOk(t, 3, t.high)
  {
    hide Parse, Chain, FreeMap, Transfers, Rings;
  }

  lemma AdvanceProcs(s: State, t: State, h: nat, p: nat, stage: Stage)
    requires Procs(s) && Holds(s, h, p)
    requires t.procs == s.procs[p := s.procs[p].(pc := InFlight(h, stage))] && t.low == s.low && t.high == s.high
    requires t.data.Keys == s.data.Keys && t.disk.Keys == s.disk.Keys
    ensures Procs(t)
  {
  }

  lemma FetchInv(s: State)
    requires Inv(s) && Enabled(s, Fetch)
    ensures Inv(DoFetch(s))
  {
    hide Parse, Chain, Window, FreeMap;
    var h, p := FetchHead(s);
    PopNoDup(s.queued);
    AdvanceSlots(s, DoFetch(s), h, p, Working);
    AdvanceProcs(s, DoFetch(s), h, p, Working);
    hide Procs, SlotOk, Descriptors;
  }

  /** A completion read from the used ring is one reported and not yet acknowledged... */
  lemma AckHead(s: State) returns (h: nat, p: nat)
    requires Inv(s) && s.usedIdx != s.usedDeviceIdx
    ensures h == s.usedRing[s.usedIdx % NUM] && s.used != [] && h == s.used[0] && h < NUM
    ensures Slot(s, h) == Some(p) && Holds(s, h, p) && s.procs[p].pc.stage == Used
    ensures s.info[h] == Some(s.procs[p].req.buf)
    ensures Window(s.usedRing, Succ(s.usedIdx), s.usedDeviceIdx, s.used[1..])
  {
    hide Parse, Chain, Descriptors, Procs, Transfers;
    WindowPop(s.usedRing, s.usedIdx, s.usedDeviceIdx, s.used);
    h := s.used[0];
    p := Slot(s, h).value;
  }

  /** ...and acknowledging it clears the flag of its own buffer only. */
  lemma AckInv(s: State)
    requires Inv(s) && Enabled(s, Ack)
    ensures Inv(DoAck(s))
  {
    hide Parse, Chain, Window, FreeMap;
    var h, p := AckHead(s);
    PopNoDup(s.used);
    AdvanceSlots(s, DoAck(s), h, p, Acked);
    AdvanceProcs(s, DoAck(s), h, p, Acked);
    hide Procs, SlotOk, Descriptors;
  }

  /** The chain being served is in flight for process p, formatted for its request, and not reported yet. */
  lemma ServeHead(s: State, p: nat)
    requires Inv(s) && Enabled(s, Serve(p))
    ensures
      var h := s.procs[p].pc.head;
      && (h == 0 || h == 3) && Slot(s, h) == Some(p) && Holds(s, h, p)
      && Parse(s.desc, s.ops, h) == Some(s.procs[p].req)
      && h !in s.used && h !in s.queued && |s.used| <= 1
      && s.procs[p].req.buf in s.busy && s.procs[p].req.buf in s.data && s.procs[p].req.blockNo in s.disk
  {
    hide Parse, Chain, Window, FreeMap, Descriptors, Transfers;
  }

  lemma ServeRings(s: State, p: nat)
    requires Inv(s) && Enabled(s, Serve(p))
    ensures Rings(DoServe(s, p))
  {
    hide Parse, Chain, FreeMap, Descriptors, Transfers, Procs, SlotOk, Window;
    ServeHead(s, p);
    WindowPush(s.usedRing, s.usedIdx, s.usedDeviceIdx, s.used, s.procs[p].pc.head);
  }

  lemma ServeInv(s: State, p: nat)
    requires Inv(s) && Enabled(s, Serve(p))
    ensures Inv(DoServe(s, p))
  {
    hide Parse, Procs, SlotOk, Descriptors, Transfers, Rings;
    var h := s.procs[p].pc.head;
    var t := DoServe(s, p);
    ServeHead(s, p);
    ServeRings(s, p);
    AdvanceSlots(s, t, h, p, Used);
    AdvanceProcs(s, t, h, p, Used);
    ServeTransfers(s, p);
  }

  /** Serving one request touches no buffer or block of another. */
  lemma ServeTransfers(s: State, p: nat)
    requires Inv(s) && Enabled(s, Serve(p))
    ensures Transfers(DoServe(s, p))
  {
    hide SlotOk, Rings, Descriptors, Parse;
    ServeHead(s, p);
  }

  // ---------------------------------------------------------------- submitting and finishing

  /** A chain is not disturbed by changes to other descriptors and headers. */
  lemma ChainKept(d: seq<Desc>, e: seq<Desc>, ops: seq<BlockReq>, ops': seq<BlockReq>, h: nat)
    requires Chain(d, h, h + 1, h + 2) && d[h].addr == ReqHeader(h) && |d| == |e| == |ops| == |ops'|
    requires e[h] == d[h] && e[h + 1] == d[h + 1] && e[h + 2] == d[h + 2] && ops'[h] == ops[h]
    ensures Chain(e, h, h + 1, h + 2) && Parse(e, ops', h) == Parse(d, ops, h)
  {
  }

  /** The state after a successful allocation of the chain headed by h. */
  function Submitted(s: State, p: nat, h: nat): State
    requires Enabled(s, Try(p)) && h + 2 < NUM
  {
    var r := s.procs[p].req;
    s.(free := s.free[h := false][h + 1 := false][h + 2 := false],
       desc := Format(s.desc, r, h, h + 1, h + 2),
       ops := s.ops[h := Header(r)],
       info := s.info[h := Some(r.buf)],
       busy := s.busy + {r.buf},
       availRing := s.availRing[s.availIdx % NUM := h],
       availIdx := Succ(s.availIdx),
       procs := s.procs[p := Proc(r, InFlight(h, Queued), if r.buf in s.data then s.data[r.buf] else [])],
       low := if h == 0 then Some(p) else s.low,
       high := if h == 3 then Some(p) else s.high,
       queued := s.queued + [h])
  }

  predicate CanSubmit(s: State, p: nat, h: nat) {
    Inv(s) && Enabled(s, Try(p)) && ((h == 0 && s.low.None?) || (h == 3 && s.low.Some? && s.high.None?))
  }

  lemma TrySubmits(s: State, p: nat, h: nat)
    requires CanSubmit(s, p, h)
    ensures DoTry(s, p) == Submitted(s, p, h)
  {
    Alloc3Chains(s.free, s.low.Some?, s.high.Some?);
  }

  lemma SubmitSlot(s: State, p: nat, h: nat)
    requires CanSubmit(s, p, h)
    ensures SlotOk(Submitted(s, p, h), h, Some(p))
  {
    var r := s.procs[p].req;
    FormatChain(s.desc, r, h, h + 1, h + 2);
    ParseFormat(s.desc, s.ops, r, h, h + 1, h + 2);
    assert h !in s.used;
    hide Parse, Chain, Window, FreeMap, Header;
  }

  lemma SubmitOther(s: State, p: nat, h: nat)
    requires CanSubmit(s, p, h)
    ensures SlotOk(Submitted(s, p, h), 3 - h, Slot(s, 3 - h))
  {
    hide Parse, Window, FreeMap, Header;
    var t, g := Submitted(s, p, h), 3 - h;
    if Slot(s, g).Some? {
      ChainKept(s.desc, t.desc, s.ops, t.ops, g);
    }
    hide Chain, Format;
  }

  lemma SubmitDescriptors(s: State, p: nat, h: nat)
    requires CanSubmit(s, p, h)
    ensures Descriptors(Submitted(s, p, h))
  {
    hide Parse, Window, Chain, SlotOk, Procs, Transfers, Rings;
  }

  lemma SubmitRings(s: State, p: nat, h: nat)
    requires CanSubmit(s, p, h)
    ensures Rings(Submitted(s, p, h))
  {
    hide Parse, Chain, Descriptors, Procs, Transfers;
    assert h !in s.queued;
    assert |s.queued| <= 1;
    WindowPush(s.availRing, s.seenIdx, s.availIdx, s.queued, h);
    hide Window, SlotOk;
  }

  lemma SubmitProcs(s: State, p: nat, h: nat)
    requires CanSubmit(s, p, h)
    ensures Procs(Submitted(s, p, h)) && Transfers(Submitted(s, p, h))
  {
    hide Parse, Chain, Descriptors, Rings, Window, SlotOk;
  }

  lemma TryInv(s: State, p: nat)
    requires Inv(s) && Enabled(s, Try(p))
    ensures Inv(DoTry(s, p))
  {
    if s.low.Some? && s.high.Some? {
      TryWaits(s, p);
    } else {
      var h := if s.low.None? then 0 else 3;
      TrySubmits(s, p, h);
      SubmitSlot(s, p, h);
      SubmitOther(s, p, h);
      SubmitDescriptors(s, p, h);
      SubmitRings(s, p, h);
      SubmitProcs(s, p, h);
      hide SlotOk, Descriptors, Rings, Procs, Transfers, DoTry;
    }
  }

  /** A process whose flag is clear holds an acknowledged chain, so it has left both rings. */
  lemma FinishHead(s: State, p: nat) returns (h: nat)
    requires Inv(s) && Enabled(s, Finish(p))
    ensures s.procs[p].pc == InFlight(h, Acked) && (h == 0 || h == 3) && Slot(s, h) == Some(p)
    ensures h !in s.queued && h !in s.used
    ensures s.data[s.procs[p].req.buf] == s.disk[s.procs[p].req.blockNo]
    ensures s.procs[p].req.write ==> s.data[s.procs[p].req.buf] == s.procs[p].payload
  {
    hide Parse, Chain, Window, FreeMap;
    h := s.procs[p].pc.head;
  }

  lemma FinishDescriptors(s: State, p: nat)
    requires Inv(s) && Enabled(s, Finish(p))
    ensures Descriptors(DoFinish(s, p))
  {
    hide Parse, Window, Chain;
    var h := FinishHead(s, p);
    hide SlotOk, Procs, Transfers, Rings, Awake;
  }

  lemma FinishSlot(s: State, p: nat)
    requires Inv(s) && Enabled(s, Finish(p))
    ensures var t := DoFinish(s, p); SlotOk(t, 0, t.low) && SlotOk(t, 3, t.high)
  {
    hide Parse, Window, Transfers, FreeMap;
    var h := FinishHead(s, p);
    var t := DoFinish(s, p);
    if Slot(s, 3 - h).Some? {
      ChainKept(s.desc, t.desc, s.ops, t.ops, 3 - h);
    }
    hide Chain, Rings, Descriptors, Awake;
  }

  lemma FinishProcs(s: State, p: nat)
    requires Inv(s) && Enabled(s, Finish(p))
    ensures Procs(DoFinish(s, p)) && Transfers(DoFinish(s, p))
  {
    hide Parse, Window, Chain, FreeMap;
    var h := FinishHead(s, p);
    hide SlotOk, Descriptors, Rings, Awake;
  }

  lemma FinishInv(s: State, p: nat)
    requires Inv(s) && Enabled(s, Finish(p))
    ensures Inv(DoFinish(s, p))
  {
    hide Parse, Chain, Window, FreeMap, Awake;
    FinishDescriptors(s, p);
    FinishSlot(s, p);
    FinishProcs(s, p);
    var h := FinishHead(s, p);
    hide SlotOk, Descriptors, Procs, Transfers;
  }

  lemma StepInv(s: State, step: Step)
    requires Inv(s) && Enabled(s, step)
    ensures Inv(Do(s, step))
  {
    hide Inv, DoTry, DoFetch, DoServe, DoAck, DoFinish;
    match step
    case New(r) => NewInv(s, r);
    case Touch(buf, x) => TouchInv(s, buf, x);
    case Try(p) => TryInv(s, p);
    case Fetch => FetchInv(s);
    case Serve(p) => ServeInv(s, p);
    case Ack => AckInv(s);
    case Finish(p) => FinishInv(s, p);
  }

  // ---------------------------------------------------------------- the theorems

  predicate Init(s: State) {
    && s.desc == seq(NUM, _ => EMPTY) && s.free == seq(NUM, _ => true) && |s.ops| == NUM && |s.info| == NUM
    && |s.availRing| == |s.usedRing| == NUM && s.availIdx == s.seenIdx < WRAP && s.usedDeviceIdx == s.usedIdx < WRAP
    && s.procs == [] && s.low.None? && s.high.None? && s.queued == [] && s.used == []
  }

  predicate IsRun(run: seq<State>, steps: seq<Step>) {
    && |run| == |steps| + 1 && Init(run[0])
    && forall i :: 0 <= i < |steps| ==> Enabled(run[i], steps[i]) && run[i + 1] == Do(run[i], steps[i])
  }

  lemma {:induction false} RunInv(run: seq<State>, steps: seq<Step>, i: nat)
    requires IsRun(run, steps) && i < |run|
    ensures Inv(run[i])
  {
    hide Do, Enabled;
    if i == 0 {
      assert run[0].free == [true, true, true, true, true, true, true, true];
    } else {
      hide Inv;
      RunInv(run, steps, i - 1);
      StepInv(run[i - 1], steps[i - 1]);
    }
  }

  /**
    In every reachable state the chains in flight are headed by 0 or 3, are disjoint, and there are
    at most two; the operation the device reads from a chain is the one its process asked for;
    and a process waits for descriptors only while descriptor 0 is in flight.
   */
  lemma ChainsInFlight(run: seq<State>, steps: seq<Step>, i: nat, p: nat)
    requires IsRun(run, steps) && i < |run| && p < |run[i].procs|
    ensures var s := run[i];
            && (s.procs[p].pc.InFlight? ==>
                  var h := s.procs[p].pc.head;
                  && (h == 0 || h == 3) && |s.free| == NUM && !s.free[h] && !s.free[h + 1] && !s.free[h + 2]
                  && Parse(s.desc, s.ops, h) == Some(s.procs[p].req)
                  && forall q :: 0 <= q < |s.procs| && s.procs[q].pc.InFlight? && q != p ==> s.procs[q].pc.head == 3 - h)
            && (s.procs[p].pc.Waiting? ==> |s.free| == NUM && !s.free[0] && exists q :: 0 <= q < |s.procs| && Holds(s, 0, q))
  {
    RunInv(run, steps, i);
    var s := run[i];
    hide Parse, Chain, Window;
    if s.procs[p].pc.Waiting? { assert Holds(s, 0, s.low.value); }
  }

  /** A waiting process moves only when the holder of descriptor 0 finishes, and then it tries again. */
  lemma WaiterMoves(s: State, step: Step, p: nat)
    requires Inv(s) && Enabled(s, step) && p < |s.procs| && s.procs[p].pc.Waiting?
    ensures
      var t := Do(s, step);
      && p < |t.procs|
      && (t.procs[p].pc.Waiting? || (step.Finish? && Holds(s, 0, step.p) && t.procs[p].pc.Ready?))
  {
    hide Parse, Chain, Window, Descriptors, Transfers, Procs, SlotOk, Rings;
    match step
    case Fetch =>
      var h, q := FetchHead(s);
    case Ack =>
      var h, q := AckHead(s);
    case _ =>
  }

  /** Step k of a run is the one that wakes process p. */
  predicate WokenAt(run: seq<State>, steps: seq<Step>, k: nat, p: nat)
    requires k < |steps| && |run| == |steps| + 1
  {
    && steps[k].Finish? && Holds(run[k], 0, steps[k].p)
    && p < |run[k].procs| && run[k].procs[p].pc.Waiting?
    && p < |run[k + 1].procs| && run[k + 1].procs[p].pc.Ready?
  }

  /**
    No waiter is forgotten: from any state in which a process waits for descriptors on, it either
    still waits, and then some process holds descriptor 0, or the end of such a holder's request
    has woken it.
   */
  lemma {:induction false} FinishWakes(run: seq<State>, steps: seq<Step>, i: nat, j: nat, p: nat)
    requires IsRun(run, steps) && i <= j < |run| && p < |run[i].procs| && run[i].procs[p].pc.Waiting?
    ensures
      || (p < |run[j].procs| && run[j].procs[p].pc.Waiting? && exists q :: 0 <= q < |run[j].procs| && Holds(run[j], 0, q))
      || (exists k :: i <= k < j && WokenAt(run, steps, k, p))
    decreases j
  {
    hide Do, Enabled, Inv, Init, Holds;
    if i == j {
      WaiterHasHolder(run, steps, j, p);
    } else {
      FinishWakes(run, steps, i, j - 1, p);
      if k :| i <= k < j - 1 && WokenAt(run, steps, k, p) {
        assert i <= k < j && WokenAt(run, steps, k, p);
      } else {
        LastMove(run, steps, j - 1, p);
        if run[j].procs[p].pc.Waiting? {
          WaiterHasHolder(run, steps, j, p);
        }
      }
    }
  }

  lemma WaiterHasHolder(run: seq<State>, steps: seq<Step>, j: nat, p: nat)
    requires IsRun(run, steps) && j < |run| && p < |run[j].procs| && run[j].procs[p].pc.Waiting?
    ensures exists q :: 0 <= q < |run[j].procs| && Holds(run[j], 0, q)
  {
    hide IsRun, Parse;
    ChainsInFlight(run, steps, j, p);
  }

  lemma LastMove(run: seq<State>, steps: seq<Step>, k: nat, p: nat)
    requires IsRun(run, steps) && k < |steps| && p < |run[k].procs| && run[k].procs[p].pc.Waiting?
    ensures p < |run[k + 1].procs| && (run[k + 1].procs[p].pc.Waiting? || WokenAt(run, steps, k, p))
  {
    hide Do, Enabled, Inv, Init, Holds;
    RunInv(run, steps, k);
    assert Enabled(run[k], steps[k]) && run[k + 1] == Do(run[k], steps[k]);
    WaiterMoves(run[k], steps[k], p);
  }

  /** A completion clears the flag of its own buffer and of no other buffer in flight. */
  lemma AckClearsOwn(run: seq<State>, steps: seq<Step>, i: nat) returns (p: nat)
    requires IsRun(run, steps) && i < |steps| && steps[i] == Ack
    ensures p < |run[i].procs| && run[i].procs[p].pc.InFlight? && run[i].procs[p].pc.stage == Used
    ensures run[i + 1].busy == run[i].busy - {run[i].procs[p].req.buf}
    ensures forall q :: 0 <= q < |run[i].procs| && q != p && Unfinished(run[i].procs[q]) ==>
              run[i].procs[q].req.buf != run[i].procs[p].req.buf
  {
    RunInv(run, steps, i);
    hide Parse, Chain, Window;
    var h;
    h, p := AckHead(run[i]);
  }

  /** When rw returns, the buffer and its block agree; what was to be written has been written. */
  lemma TransferComplete(run: seq<State>, steps: seq<Step>, i: nat, p: nat)
    requires IsRun(run, steps) && i < |steps| && steps[i] == Finish(p)
    ensures var s := run[i];
            var r := s.procs[p].req;
            && r.buf in s.data && r.blockNo in s.disk && s.data[r.buf] == s.disk[r.blockNo]
            && (r.write ==> s.disk[r.blockNo] == s.procs[p].payload)
  {
    RunInv(run, steps, i);
    hide Parse, Chain, Window;
    var h := FinishHead(run[i], p);
  }
}
