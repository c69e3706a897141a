/** The transmit ring: ixgbe_tx_packet cut into its single loads and stores, and a NIC that may act
    between any two of them.

    NIC assumptions: it fetches descriptors in order from the head register up to, not including, the
    tail register; it writes a fetched descriptor back once, at any later moment and in any order,
    with the done bit set and the other bits arbitrary; after the write-back it no longer reads the
    buffer. */
module TxRing {
  import opened RingIndex
  import opened Descriptors

  /** What a caller hands over: the size field of the buffer and its bytes. */
  datatype Pkt = Pkt(size: nat, data: seq<nat>)

  /** An accepted packet, with the descriptor that was in memory when the tail moved past it. */
  datatype Posting = Posting(buf: nat, pkt: Pkt, desc: TxDesc)

  /** Control state of ixgbe_tx_packet, with its local variables. `pkt` is what `buf` held at the call:
      nothing writes a buffer while the driver is inside the call. */
  datatype Pc =
    | Idle
    | Scan(buf: nat, pkt: Pkt, ci: nat, cur: nat)       // about to test the loop condition and the status
    | Release(buf: nat, pkt: Pkt, ci: nat, cur: nat)    // done bit seen at ci
    | SaveClean(buf: nat, pkt: Pkt, ci: nat, cur: nat)  // about to store clean_index and test for a full ring
    | PutShadow(buf: nat, pkt: Pkt, cur: nat)
    | PutIndex(buf: nat, pkt: Pkt, cur: nat)
    | PutAddr(buf: nat, pkt: Pkt, cur: nat)
    | PutCmd(buf: nat, pkt: Pkt, cur: nat)
    | PutLen(buf: nat, pkt: Pkt, cur: nat)
    | PutTail(buf: nat, pkt: Pkt, cur: nat)

  /** Queue, registers and NIC. The last four fields are history: every packet whose tail update has
      happened, every descriptor the NIC fetched, which of these it has written back, and how many
      buffers the driver has returned to the pool. */
  datatype Ring = Ring(
    n: nat, desc: seq<TxDesc>, shadow: seq<nat>, clean: nat, tx: nat, tdh: nat, tdt: nat, pc: Pc,
    posted: seq<Posting>, fetched: seq<TxDesc>, written: set<nat>, cleaned: nat)

  /** What a driver step does to the buffers outside the ring. */
  datatype Effect = Quiet | Freed(buf: nat) | Rejected(buf: nat) | Accepted(buf: nat)

  // -- steps -------------------------------------------------------------------------------------

  function Call(r: Ring, buf: nat, pkt: Pkt): Ring
    requires r.pc.Idle?
  {
    r.(pc := Scan(buf, pkt, r.clean, r.tx))
  }

  predicate WellShaped(r: Ring) {
    && r.n >= 2 && |r.desc| == |r.shadow| == r.n
    && r.clean < r.n && r.tx < r.n && r.tdh < r.n && r.tdt < r.n
    && (r.pc.Scan? || r.pc.Release? || r.pc.SaveClean? ==> r.pc.ci < r.n && r.pc.cur < r.n)
    && (r.pc.PutShadow? || r.pc.PutIndex? || r.pc.PutAddr? || r.pc.PutCmd? || r.pc.PutLen? || r.pc.PutTail? ==>
          r.pc.cur < r.n)
  }

  /** One load or store of the driver. */
  function Driver(r: Ring): (Ring, Effect)
    requires WellShaped(r) && !r.pc.Idle?
  {
    match r.pc
    case Scan(b, p, ci, cur) =>
      if ci != cur && TxDone(r.desc[ci]) then (r.(pc := Release(b, p, ci, cur)), Quiet)
      else (r.(pc := SaveClean(b, p, ci, cur)), Quiet)
    case Release(b, p, ci, cur) =>
      (r.(pc := Scan(b, p, Next(ci, r.n), cur), cleaned := r.cleaned + 1), Freed(r.shadow[ci]))
    case SaveClean(b, p, ci, cur) =>
      if ci == Next(cur, r.n) then (r.(clean := ci, pc := Idle), Rejected(b))
      else (r.(clean := ci, pc := PutShadow(b, p, cur)), Quiet)
    case PutShadow(b, p, cur) => (r.(shadow := r.shadow[cur := b], pc := PutIndex(b, p, cur)), Quiet)
    case PutIndex(b, p, cur) => (r.(tx := Next(r.tx, r.n), pc := PutAddr(b, p, cur)), Quiet)
    case PutAddr(b, p, cur) =>
      (r.(desc := r.desc[cur := r.desc[cur].(addr := InPool(b, DATA_OFFSET))], pc := PutCmd(b, p, cur)), Quiet)
    case PutCmd(b, p, cur) =>
      (r.(desc := r.desc[cur := r.desc[cur].(cmdTypeLen := CmdWord(p.size))], pc := PutLen(b, p, cur)), Quiet)
    case PutLen(b, p, cur) =>
      (r.(desc := r.desc[cur := r.desc[cur].(olinfoStatus := PaylenWord(p.size))], pc := PutTail(b, p, cur)), Quiet)
    case PutTail(b, p, cur) =>
      (r.(tdt := r.tx, posted := r.posted + [Posting(b, p, r.desc[cur])], pc := Idle), Accepted(b))
  }

  predicate CanFetch(r: Ring) { WellShaped(r) && r.tdh != r.tdt }

  function Fetch(r: Ring): Ring
    requires CanFetch(r)
  {
    r.(fetched := r.fetched + [r.desc[r.tdh]], tdh := Next(r.tdh, r.n))
  }

  predicate CanWriteBack(r: Ring, j: nat, d: TxDesc) {
    WellShaped(r) && j < |r.fetched| && j !in r.written && TxDone(d)
  }

  function WriteBack(r: Ring, j: nat, d: TxDesc): Ring
    requires CanWriteBack(r, j, d)
  {
    r.(desc := r.desc[Slot(j, r.n) := d], written := r.written + {j})
  }

  // -- invariant ---------------------------------------------------------------------------------

  /** clean_index, or the loop's copy of it while the loop runs. */
  function CleanPos(r: Ring): nat {
    if r.pc.Scan? || r.pc.Release? || r.pc.SaveClean? then r.pc.ci else r.clean
  }

  ghost predicate Registers(r: Ring) {
    && WellShaped(r)
    && r.cleaned <= |r.fetched| <= |r.posted| <= r.cleaned + r.n - 1
    && CleanPos(r) == Slot(r.cleaned, r.n)
    && r.tdh == Slot(|r.fetched|, r.n)
    && r.tdt == Slot(|r.posted|, r.n)
  }

  /** The NIC has seen exactly the accepted packets, in order. */
  ghost predicate Log(r: Ring) {
    && (forall j | 0 <= j < |r.fetched| :: j < |r.posted| && r.fetched[j] == r.posted[j].desc)
    && (forall j | 0 <= j < |r.posted| :: !TxDone(r.posted[j].desc))
    && (forall j | j in r.written :: j < |r.fetched|)
    && (forall j | 0 <= j < r.cleaned :: j in r.written)
  }

  /** The slot of packet j: its shadow pointer, and a descriptor that is done exactly if the NIC has
      written it back. */
  ghost predicate SlotOk(r: Ring, j: nat)
    requires WellShaped(r) && j < |r.posted|
  {
    && r.shadow[Slot(j, r.n)] == r.posted[j].buf
    && (j !in r.written ==> r.desc[Slot(j, r.n)] == r.posted[j].desc)
    && (j in r.written ==> TxDone(r.desc[Slot(j, r.n)]))
  }

  ghost predicate Slots(r: Ring)
    requires Registers(r)
  {
    forall j: nat | r.cleaned <= j < |r.posted| :: SlotOk(r, j)
  }

  ghost predicate PcOk(r: Ring)
    requires Registers(r)
  {
    match r.pc
    case Idle => r.tx == r.tdt
    case Scan(b, p, ci, cur) => cur == r.tx == r.tdt
    case Release(b, p, ci, cur) => cur == r.tx == r.tdt && r.cleaned < |r.fetched| && r.cleaned in r.written
    case SaveClean(b, p, ci, cur) => cur == r.tx == r.tdt
    case PutShadow(b, p, cur) => cur == r.tx == r.tdt && Room(r)
    case PutIndex(b, p, cur) => cur == r.tx == r.tdt && Room(r) && r.shadow[cur] == b
    case PutAddr(b, p, cur) => Filling(r, b, cur)
    case PutCmd(b, p, cur) => Filling(r, b, cur)
    case PutLen(b, p, cur) => Filling(r, b, cur)
    case PutTail(b, p, cur) => Filling(r, b, cur) && !TxDone(r.desc[cur])
  }

  ghost predicate Room(r: Ring) { |r.posted| < r.cleaned + r.n - 1 }

  ghost predicate Filling(r: Ring, b: nat, cur: nat)
    requires WellShaped(r)
  {
    cur == r.tdt && r.tx == Next(r.tdt, r.n) && Room(r) && r.shadow[cur] == b
  }

  ghost predicate Inv(r: Ring) { Registers(r) && Log(r) && Slots(r) && PcOk(r) }

  // -- ownership ---------------------------------------------------------------------------------

  ghost function Bufs(q: seq<Posting>): seq<nat> { seq(|q|, i requires 0 <= i < |q| => q[i].buf) }

  /** The ring as a FIFO of buffers: those between clean_index and the tail, then the one a running
      call was given. */
  ghost function Queue(r: Ring): seq<nat>
    requires r.cleaned <= |r.posted|
  {
    Bufs(r.posted[r.cleaned..]) + if r.pc.Idle? then [] else [r.pc.buf]
  }

  /** Dropping packets from the front of an idle ring drops buffers from the front of its queue. */
  lemma QueueSplit(r: Ring, c: nat)
    requires r.pc.Idle? && r.cleaned <= c <= |r.posted|
    ensures Queue(r)[..c - r.cleaned] == Bufs(r.posted[r.cleaned..c])
    ensures Queue(r)[c - r.cleaned..] == Bufs(r.posted[c..])
  {
  }

  /** A whole call: k packets leave at the front, those in `more` join at the back. */
  lemma QueueAfterCall(r: Ring, r': Ring, more: seq<Posting>)
    requires r.pc.Idle? && r'.pc.Idle? && r.cleaned <= r'.cleaned <= |r.posted| && r'.posted == r.posted + more
    ensures |Queue(r)| == |r.posted| - r.cleaned && |Queue(r')| == |r'.posted| - r'.cleaned
    ensures Queue(r)[..r'.cleaned - r.cleaned] == Bufs(r.posted[r.cleaned..r'.cleaned])
    ensures Queue(r') == Queue(r)[r'.cleaned - r.cleaned..] + Bufs(more)
  {
    QueueSplit(r, r'.cleaned);
    assert r'.posted[r'.cleaned..] == r.posted[r'.cleaned..] + more;
  }

  /** Freed buffers leave at the front, a rejected one leaves at the back, nothing else changes. */
  ghost predicate FifoStep(q: seq<nat>, e: Effect, q': seq<nat>) {
    match e
    case Freed(b) => q == [b] + q'
    case Rejected(b) => q == q' + [b]
    case _ => q == q'
  }

  // -- every step keeps the invariant ------------------------------------------------------------

  lemma CallKeeps(r: Ring, buf: nat, pkt: Pkt)
    requires Inv(r) && r.pc.Idle?
    ensures Inv(Call(r, buf, pkt))
    ensures Queue(Call(r, buf, pkt)) == Queue(r) + [buf]
  {
    var r' := Call(r, buf, pkt);
    forall j: nat | r.cleaned <= j < |r.posted| ensures SlotOk(r', j) { assert SlotOk(r, j); }
  }

  lemma FetchKeeps(r: Ring)
    requires Inv(r) && CanFetch(r)
    ensures Inv(Fetch(r)) && Queue(Fetch(r)) == Queue(r)
  {
    var k, r' := |r.fetched|, Fetch(r);
    assert k < |r.posted| && k !in r.written && SlotOk(r, k);
    forall j: nat | r.cleaned <= j < |r.posted| ensures SlotOk(r', j) { assert SlotOk(r, j); }
  }

  lemma WriteBackKeeps(r: Ring, j: nat, d: TxDesc)
    requires Inv(r) && CanWriteBack(r, j, d)
    ensures Inv(WriteBack(r, j, d)) && Queue(WriteBack(r, j, d)) == Queue(r)
  {
    var r' := WriteBack(r, j, d);
    OthersElsewhere(j, r.cleaned, |r.posted| + 1, r.n);
    forall i: nat | r.cleaned <= i < |r.posted| ensures SlotOk(r', i) { assert SlotOk(r, i); }
  }

  /** A set done bit inside the window was written by the NIC after the slot was last posted. */
  lemma DoneIsFresh(r: Ring)
    requires Inv(r) && r.pc.Scan? && r.pc.ci != r.pc.cur && TxDone(r.desc[r.pc.ci])
    ensures r.cleaned < |r.fetched| && r.cleaned in r.written
  {
    assert SlotOk(r, r.cleaned);
  }

  /** A step that changes only indices, control state and the slot behind the window keeps the
      invariant, provided the new indices and control state are right. */
  lemma FrameKeeps(r: Ring, r': Ring)
    requires Inv(r) && Registers(r') && PcOk(r')
    requires r' == r.(desc := r'.desc, shadow := r'.shadow, clean := r'.clean, tx := r'.tx, pc := r'.pc)
    requires forall i | 0 <= i < r.n && (Room(r) ==> i != Slot(|r.posted|, r.n)) ::
               r'.desc[i] == r.desc[i] && r'.shadow[i] == r.shadow[i]
    ensures Inv(r')
  {
    if Room(r) { OthersElsewhere(|r.posted|, r.cleaned, |r.posted| + 1, r.n); }
    forall j: nat | r.cleaned <= j < |r.posted| ensures SlotOk(r', j) { assert SlotOk(r, j); }
  }

  lemma ScanKeeps(r: Ring)
    requires Inv(r) && r.pc.Scan?
    ensures Inv(Driver(r).0)
  {
    if r.pc.ci != r.pc.cur && TxDone(r.desc[r.pc.ci]) { DoneIsFresh(r); }
    FrameKeeps(r, Driver(r).0);
  }

  lemma SaveCleanKeeps(r: Ring)
    requires Inv(r) && r.pc.SaveClean?
    ensures Inv(Driver(r).0)
  {
    SlotEqual(r.cleaned, |r.posted| + 1, r.n);
    FrameKeeps(r, Driver(r).0);
  }

  lemma PutShadowKeeps(r: Ring)
    requires Inv(r) && r.pc.PutShadow?
    ensures Inv(Driver(r).0)
  {
    FrameKeeps(r, Driver(r).0);
  }

  lemma PutIndexKeeps(r: Ring)
    requires Inv(r) && r.pc.PutIndex?
    ensures Inv(Driver(r).0)
  {
    FrameKeeps(r, Driver(r).0);
  }

  lemma PutAddrKeeps(r: Ring)
    requires Inv(r) && r.pc.PutAddr?
    ensures Inv(Driver(r).0)
  {
    FrameKeeps(r, Driver(r).0);
  }

  lemma PutCmdKeeps(r: Ring)
    requires Inv(r) && r.pc.PutCmd?
    ensures Inv(Driver(r).0)
  {
    FrameKeeps(r, Driver(r).0);
  }

  lemma PutLenKeeps(r: Ring)
    requires Inv(r) && r.pc.PutLen?
    ensures Inv(Driver(r).0)
  {
    FrameKeeps(r, Driver(r).0);
  }

  lemma ReleaseKeeps(r: Ring)
    requires Inv(r) && r.pc.Release?
    ensures Inv(Driver(r).0)
  {
    var r' := Driver(r).0;
    forall j: nat | r'.cleaned <= j < |r.posted| ensures SlotOk(r', j) { assert SlotOk(r, j); }
  }

  lemma PutTailKeeps(r: Ring)
    requires Inv(r) && r.pc.PutTail?
    ensures Inv(Driver(r).0)
  {
    var r' := Driver(r).0;
    assert |r.posted| !in r.written;
    forall j: nat | r.cleaned <= j < |r.posted| ensures SlotOk(r', j) { assert SlotOk(r, j); }
    assert SlotOk(r', |r.posted|);
  }

  /** The call ends by taking the packet or by turning it away, which it does only with n - 1 packets in the ring. */
  lemma ControlFlow(r: Ring)
    requires Inv(r) && !r.pc.Idle?
    ensures var (r', e) := Driver(r);
            && r'.n == r.n
            && (r'.pc.Idle? <==> e.Accepted? || e.Rejected?)
            && (e.Rejected? ==> |r.posted| == r.cleaned + r.n - 1)
  {
    SlotEqual(r.cleaned, |r.posted| + 1, r.n);
  }

  lemma BufsFront(q: seq<Posting>, k: nat)
    requires k < |q|
    ensures Bufs(q[k..]) == [q[k].buf] + Bufs(q[k + 1..])
  {
  }

  lemma BufsBack(q: seq<Posting>, k: nat, p: Posting)
    requires k <= |q|
    ensures Bufs((q + [p])[k..]) == Bufs(q[k..]) + [p.buf]
  {
  }

  lemma DriverIsFifo(r: Ring)
    requires Inv(r) && !r.pc.Idle?
    ensures Driver(r).0.cleaned <= |Driver(r).0.posted|
    ensures FifoStep(Queue(r), Driver(r).1, Queue(Driver(r).0))
  {
    if r.pc.Release? {
      assert SlotOk(r, r.cleaned);
      BufsFront(r.posted, r.cleaned);
    } else if r.pc.PutTail? {
      BufsBack(r.posted, r.cleaned, Posting(r.pc.buf, r.pc.pkt, r.desc[r.pc.cur]));
    } else {
      assert Driver(r).0.posted == r.posted && Driver(r).0.cleaned == r.cleaned;
    }
  }

  lemma DriverKeeps(r: Ring)
    requires Inv(r) && !r.pc.Idle?
    ensures Inv(Driver(r).0)
    ensures FifoStep(Queue(r), Driver(r).1, Queue(Driver(r).0))
  {
    DriverIsFifo(r);
    match r.pc
    case Scan(_, _, _, _) => ScanKeeps(r);
    case Release(_, _, _, _) => ReleaseKeeps(r);
    case SaveClean(_, _, _, _) => SaveCleanKeeps(r);
    case PutShadow(_, _, _) => PutShadowKeeps(r);
    case PutIndex(_, _, _) => PutIndexKeeps(r);
    case PutAddr(_, _, _) => PutAddrKeeps(r);
    case PutCmd(_, _, _) => PutCmdKeeps(r);
    case PutLen(_, _, _) => PutLenKeeps(r);
    case PutTail(_, _, _) => PutTailKeeps(r);
  }

  // -- a call run alone --------------------------------------------------------------------------

  /** Steps that the call has left, if it finds nothing to clean. */
  function Rank(pc: Pc): nat {
    match pc
    case Idle => 0
    case Scan(_, _, _, _) => 8
    case Release(_, _, _, _) => 9
    case SaveClean(_, _, _, _) => 7
    case PutShadow(_, _, _) => 6
    case PutIndex(_, _, _) => 5
    case PutAddr(_, _, _) => 4
    case PutCmd(_, _, _) => 3
    case PutLen(_, _, _) => 2
    case PutTail(_, _, _) => 1
  }

  /** The NIC has nothing outstanding: what it fetched has been cleaned. */
  ghost predicate Still(r: Ring) { |r.fetched| == r.cleaned }

  /** Then there is nothing to clean. */
  lemma StillStep(r: Ring)
    requires Inv(r) && !r.pc.Idle? && Still(r)
    ensures var (r', e) := Driver(r);
            && Rank(r'.pc) < Rank(r.pc) && !e.Freed? && Still(r') && r'.cleaned == r.cleaned && r'.written == r.written
            && r.posted <= r'.posted && |r'.posted| == |r.posted| + (if e.Accepted? then 1 else 0)
  {
    if r.pc.Scan? && r.pc.ci != r.pc.cur && TxDone(r.desc[r.pc.ci]) { DoneIsFresh(r); }
  }

  /** If the NIC has finished the oldest packet and fetched no other, the call first cleans that one. */
  lemma CleanStep(r: Ring)
    requires Inv(r) && r.pc.Scan? && |r.fetched| == r.cleaned + 1 && r.cleaned in r.written
    ensures r.cleaned < |r.posted| && Driver(r).0 == r.(pc := Release(r.pc.buf, r.pc.pkt, r.pc.ci, r.pc.cur))
    ensures r.shadow[r.pc.ci] == r.posted[r.cleaned].buf
  {
    assert SlotOk(r, r.cleaned);
    SlotInjective(r.cleaned, |r.posted|, r.n);
  }

  // -- descriptor contents -----------------------------------------------------------------------

  /** Every accepted packet was described to the NIC completely and correctly. */
  ghost predicate Encoded(r: Ring)
    requires WellShaped(r)
  {
    && (forall j | 0 <= j < |r.posted| :: r.posted[j].desc == TxEncode(r.posted[j].buf, r.posted[j].pkt.size))
    && (r.pc.PutCmd? || r.pc.PutLen? || r.pc.PutTail? ==> r.desc[r.pc.cur].addr == InPool(r.pc.buf, DATA_OFFSET))
    && (r.pc.PutLen? || r.pc.PutTail? ==> r.desc[r.pc.cur].cmdTypeLen == CmdWord(r.pc.pkt.size))
    && (r.pc.PutTail? ==> r.desc[r.pc.cur].olinfoStatus == PaylenWord(r.pc.pkt.size))
  }

  /** The tail store: all three words are in place. */
  lemma TailEncodes(r: Ring)
    requires WellShaped(r) && r.pc.PutTail? && Encoded(r)
    ensures WellShaped(Driver(r).0) && Encoded(Driver(r).0)
  {
    assert r.desc[r.pc.cur] == TxEncode(r.pc.buf, r.pc.pkt.size);
  }

  /** The other stores. */
  lemma WordEncodes(r: Ring)
    requires WellShaped(r) && !r.pc.Idle? && !r.pc.PutTail? && Encoded(r)
    ensures WellShaped(Driver(r).0) && Encoded(Driver(r).0)
  {
    assert Driver(r).0.posted == r.posted;
  }

  lemma DriverEncodes(r: Ring)
    requires Inv(r) && !r.pc.Idle? && Encoded(r)
    ensures Inv(Driver(r).0) && Encoded(Driver(r).0)
  {
    DriverKeeps(r);
    if r.pc.PutTail? { TailEncodes(r); } else { WordEncodes(r); }
  }

  lemma WriteBackEncodes(r: Ring, j: nat, d: TxDesc)
    requires Inv(r) && CanWriteBack(r, j, d) && Encoded(r)
    ensures WellShaped(WriteBack(r, j, d)) && Encoded(WriteBack(r, j, d))
  {
    OthersElsewhere(j, r.cleaned, |r.posted| + 1, r.n);
  }

  // -- start, and the ring seen through its indices ----------------------------------------------

  /** The ring memory is filled with 0xFF, so every stale status word has its done bit set. */
  const STALE: TxDesc := TxDesc(Raw(0xFFFF_FFFF_FFFF_FFFF), 0xFFFF_FFFF, 0xFFFF_FFFF)

  function Start(n: nat): Ring {
    Ring(n, seq(n, _ => STALE), seq(n, _ => 0), 0, 0, 0, 0, Idle, [], [], {}, 0)
  }

  lemma StartOk(n: nat)
    requires n >= 2
    ensures Inv(Start(n)) && Encoded(Start(n)) && Queue(Start(n)) == [] && TxDone(STALE)
  {
  }

  /** The shadow pointers in the cyclic range [clean_index, tx_index). */
  function Window(r: Ring): seq<nat>
    requires WellShaped(r)
  {
    seq((r.tx - r.clean) % r.n, k requires 0 <= k => r.shadow[(r.clean + k) % r.n])
  }

  /** Between calls the cyclic window of shadow pointers is the FIFO, and its length is below n. */
  lemma WindowIsQueue(r: Ring)
    requires Inv(r) && r.pc.Idle?
    ensures Window(r) == Queue(r) && |Window(r)| <= r.n - 1
  {
    SlotDistance(r.cleaned, |r.posted|, r.n);
    forall k | 0 <= k < |Queue(r)| ensures Window(r)[k] == Queue(r)[k] {
      SlotPlus(r.cleaned, k, r.n);
      assert SlotOk(r, r.cleaned + k);
    }
  }

  lemma QueueBound(r: Ring)
    requires Inv(r) && r.pc.Idle?
    ensures |Queue(r)| <= r.n - 1
  {
  }
}
