/** What the forwarder, with both stores of the receive side as intended, does to packets: the two NICs work in one
    memory without getting in each other's way, and what is transmitted is what was received. */
module ForwarderData {
  import opened Descriptors
  import opened Ownership
  import opened Forwarder
  import R = RxRing
  import Rx = RxSystem
  import T = TxRing
  import Tx = TxSystem

  ghost function InHand(app: App): seq<nat> { if app.Has? then [app.buf] else [] }

  /** What is out of the receive side's hands is in the loop's hand, in the transmit queue, or lost. */
  ghost predicate Linked(s: Fwd) {
    && s.tx.cleaned <= |s.tx.posted|
    && s.rx.held == Bag(InHand(s.app), T.Queue(s.tx), s.lost)
  }

  /** What the transmit NIC may still read is what the transmit function was handed. */
  ghost predicate Intact(mem: seq<Rx.Buf>, r: T.Ring) {
    && (forall j | r.cleaned <= j < |r.posted| :: Contents(mem, r.posted[j].buf) == r.posted[j].pkt)
    && (!r.pc.Idle? ==> Contents(mem, r.pc.buf) == r.pc.pkt)
  }

  function Packet(d: Rx.Delivery): T.Pkt { T.Pkt(d.size, d.data) }

  /** The received packets minus the ones that were not taken. */
  function Passed(got: seq<Rx.Delivery>, outcomes: seq<bool>): seq<T.Pkt>
    requires |outcomes| <= |got|
  {
    if outcomes == [] then [] else
    var k := |outcomes| - 1;
    Passed(got, outcomes[..k]) + if outcomes[k] then [Packet(got[k])] else []
  }

  function Packets(posted: seq<T.Posting>): seq<T.Pkt> { seq(|posted|, i requires 0 <= i < |posted| => posted[i].pkt) }

  /** The loop is dealing with the packet received last. */
  predicate Busy(app: App) { app.Has? || app.Sending? }

  ghost predicate History(s: Fwd) {
    && |s.outcomes| + One(Busy(s.app)) == |s.rx.got|
    && Packets(s.tx.posted) == Passed(s.rx.got, s.outcomes)
    && (s.app.Has? ==> Contents(s.rx.mem, s.app.buf) == Packet(s.rx.got[|s.outcomes|]))
    && (s.app.Sending? ==> !s.tx.pc.Idle? && s.tx.pc.pkt == Packet(s.rx.got[|s.outcomes|]))
  }

  ghost predicate Whole(s: Fwd) {
    && Rx.Inv(s.rx) && Inv(s, |s.rx.mem|) && T.Encoded(s.tx)
    && Linked(s) && Intact(s.rx.mem, s.tx) && History(s)
  }

  // -- the receive side --------------------------------------------------------------------------

  lemma {:induction false} PassedPrefix(got: seq<Rx.Delivery>, more: seq<Rx.Delivery>, outcomes: seq<bool>)
    requires |outcomes| <= |got|
    ensures Passed(got + more, outcomes) == Passed(got, outcomes)
    decreases outcomes
  {
    if outcomes != [] { PassedPrefix(got, more, outcomes[..|outcomes| - 1]); }
  }

  lemma OutIsUntouched(s: Fwd, a: Rx.Act, b: nat)
    requires Rx.Inv(s.rx) && Linked(s) && (b in T.Queue(s.tx) || b in InHand(s.app))
    requires Rx.Enabled(s.rx, a) && (a.Recv? || a.Drive? || a.NicStore?)
    ensures Contents(Rx.Step(s.rx, a).mem, b) == Contents(s.rx.mem, b)
  {
    assert b in multiset(T.Queue(s.tx)) || b in multiset(InHand(s.app));
    Rx.HeldIsUntouched(s.rx, a, b);
  }

  /** The transmit queue and the loop's hand are out of the receive side's reach. */
  lemma ReceiveSideKeepsIntact(s: Fwd, a: Rx.Act)
    requires Rx.Inv(s.rx) && Linked(s) && Intact(s.rx.mem, s.tx)
    requires Rx.Enabled(s.rx, a) && (a.Recv? || a.Drive? || a.NicStore?)
    ensures Intact(Rx.Step(s.rx, a).mem, s.tx)
    ensures s.app.Has? ==> Contents(Rx.Step(s.rx, a).mem, s.app.buf) == Contents(s.rx.mem, s.app.buf)
  {
    forall j | s.tx.cleaned <= j < |s.tx.posted|
      ensures Contents(Rx.Step(s.rx, a).mem, s.tx.posted[j].buf) == s.tx.posted[j].pkt
    {
      Tx.InQueue(s.tx, j);
      OutIsUntouched(s, a, s.tx.posted[j].buf);
    }
    if !s.tx.pc.Idle? { OutIsUntouched(s, a, s.tx.pc.buf); }
    if s.app.Has? { OutIsUntouched(s, a, s.app.buf); }
  }

  lemma StoreKeepsWhole(s: Fwd, a: Act)
    requires Whole(s) && Enabled(s, a) && a.RxStore?
    ensures Whole(Step(s, a))
  {
    var b := Rx.NicStore(a.wb, a.data, a.junk);
    StepKeeps(s, |s.rx.mem|, a);
    Rx.StepKeeps(s.rx, b);
    ReceiveSideKeepsIntact(s, b);
  }

  lemma CallKeepsWhole(s: Fwd)
    requires Whole(s) && Enabled(s, Cpu) && s.app.LoopHead?
    ensures Whole(Step(s, Cpu))
  {
    StepKeeps(s, |s.rx.mem|, Cpu);
    Rx.StepKeeps(s.rx, Rx.Recv);
  }

  /** The packet that a receive call returns is the new entry of the history. */
  lemma ReturnGives(s: Rx.Sys)
    requires Rx.Inv(s) && Rx.Enabled(s, Rx.Drive)
    ensures var s', e := Rx.Step(s, Rx.Drive), R.Driver(s.ring, s.cfg.repaired, R.Top(s.free)).1;
            if e.Returned? then
              && |s'.got| == |s.got| + 1 && s'.got == s.got + [s'.got[|s.got|]]
              && Contents(s'.mem, e.buf) == Packet(s'.got[|s.got|])
              && s'.held == s.held + multiset{e.buf}
            else s'.got == s.got && s'.held == s.held
  {
    Rx.EffectOperands(s);
    if s.ring.pc.PutTail? {
      Rx.PostedIsOwned(s.ring, s.ring.taken);
      Rx.OwnedIsNotHeld(s, s.ring.pc.buf);
    }
  }

  /** The receive call goes on, or ends without a packet. */
  lemma NothingReturned(s: Fwd, rx: Rx.Sys, app: App)
    requires Linked(s) && History(s) && s.app.Receiving? && !Busy(app)
    requires rx.held == s.rx.held && rx.got == s.rx.got
    ensures Linked(s.(rx := rx, app := app)) && History(s.(rx := rx, app := app))
  {
  }

  /** It ends with a packet. */
  lemma PacketReturned(s: Fwd, rx: Rx.Sys, b: nat, d: Rx.Delivery)
    requires Linked(s) && History(s) && s.app.Receiving?
    requires rx.held == s.rx.held + multiset{b} && rx.got == s.rx.got + [d] && Contents(rx.mem, b) == Packet(d)
    ensures Linked(s.(rx := rx, app := Has(b))) && History(s.(rx := rx, app := Has(b)))
  {
    PassedPrefix(s.rx.got, [d], s.outcomes);
    BagPickUp(s.rx.held, T.Queue(s.tx), s.lost, b);
  }

  lemma ReceivingStep(s: Fwd)
    requires Enabled(s, Cpu) && s.app.Receiving?
    ensures var e := R.Driver(s.rx.ring, s.rx.cfg.repaired, R.Top(s.rx.free)).1;
            && Step(s, Cpu) == s.(rx := Rx.Step(s.rx, Rx.Drive), app := Received(s.rx.ring.pc, e))
            && (e.Returned? ==> Received(s.rx.ring.pc, e) == Has(e.buf))
            && (!e.Returned? ==> !Busy(Received(s.rx.ring.pc, e)))
  {
  }

  lemma ReceivingKeepsHistory(s: Fwd)
    requires Rx.Inv(s.rx) && Linked(s) && History(s) && Enabled(s, Cpu) && s.app.Receiving?
    ensures Linked(Step(s, Cpu)) && History(Step(s, Cpu))
  {
    ReturnGives(s.rx);
    ReceivingStep(s);
    var e := R.Driver(s.rx.ring, s.rx.cfg.repaired, R.Top(s.rx.free)).1;
    var rx := Rx.Step(s.rx, Rx.Drive);
    if e.Returned? {
      PacketReturned(s, rx, e.buf, rx.got[|s.rx.got|]);
    } else {
      NothingReturned(s, rx, Received(s.rx.ring.pc, e));
    }
  }

  lemma ReceivingKeepsWhole(s: Fwd)
    requires Whole(s) && Enabled(s, Cpu) && s.app.Receiving?
    ensures Whole(Step(s, Cpu))
  {
    var s' := Step(s, Cpu);
    StepKeeps(s, |s.rx.mem|, Cpu);
    Rx.StepKeeps(s.rx, Rx.Drive);
    ReceiveSideKeepsIntact(s, Rx.Drive);
    ReceivingKeepsHistory(s);
    assert s'.rx == Rx.Step(s.rx, Rx.Drive) && s'.tx == s.tx;
  }

  // -- the transmit side -------------------------------------------------------------------------

  lemma HandOverIsLinked(s: Fwd, tx: T.Ring)
    requires Linked(s) && s.app.Has? && tx.cleaned <= |tx.posted| && T.Queue(tx) == T.Queue(s.tx) + [s.app.buf]
    ensures Linked(s.(tx := tx, app := Sending))
  {
    BagHandOver(T.Queue(s.tx), T.Queue(tx), s.lost, s.app.buf);
  }

  lemma CallKeepsIntact(mem: seq<Rx.Buf>, r: T.Ring, b: nat)
    requires T.WellShaped(r) && r.pc.Idle? && Intact(mem, r) && T.Encoded(r)
    ensures var r' := T.Call(r, b, Contents(mem, b)); Intact(mem, r') && T.WellShaped(r') && T.Encoded(r')
  {
  }

  lemma HandOverKeepsWhole(s: Fwd)
    requires Whole(s) && Enabled(s, Cpu) && s.app.Has?
    ensures Whole(Step(s, Cpu))
  {
    var s' := Step(s, Cpu);
    StepKeeps(s, |s.rx.mem|, Cpu);
    T.CallKeeps(s.tx, s.app.buf, Contents(s.rx.mem, s.app.buf));
    CallKeepsIntact(s.rx.mem, s.tx, s.app.buf);
    HandOverIsLinked(s, s'.tx);
    assert s'.rx == s.rx && s'.tx.posted == s.tx.posted;
  }

  /** What the transmit function frees goes back to the pool. */
  lemma ReleaseIsFree(rx: Rx.Sys, b: nat)
    requires Rx.Inv(rx) && rx.ring.pc.Idle? && b in rx.held
    ensures Rx.Inv(Release(rx, b))
  {
    Exclusive(|rx.mem|, rx.held, multiset(rx.free) + multiset(R.Own(rx.ring)), b);
    Rx.StepKeeps(rx, Rx.Free(b));
    assert Release(rx, b) == Rx.Step(rx, Rx.Free(b));
  }

  /** A buffer leaves the transmit queue for the pool. */
  lemma FreedIsLinked(s: Fwd, s': Fwd, b: nat)
    requires Linked(s) && s.app.Sending? && !s'.app.Has? && s'.tx.cleaned <= |s'.tx.posted|
    requires T.Queue(s.tx) == [b] + T.Queue(s'.tx) || T.Queue(s.tx) == T.Queue(s'.tx) + [b]
    requires s'.rx.held == s.rx.held - multiset{b} && s'.lost == s.lost
    ensures Linked(s') && b in s.rx.held
  {
    BagLeave(s.rx.held, T.Queue(s.tx), T.Queue(s'.tx), s.lost, b);
  }

  /** It is lost. */
  lemma LostIsLinked(s: Fwd, s': Fwd, b: nat)
    requires Linked(s) && s.app.Sending? && !s'.app.Has? && s'.tx.cleaned <= |s'.tx.posted|
    requires T.Queue(s.tx) == T.Queue(s'.tx) + [b] && s'.rx.held == s.rx.held && s'.lost == s.lost + [b]
    ensures Linked(s') && b in s.rx.held
  {
    BagLeave(s.rx.held, T.Queue(s.tx), T.Queue(s'.tx), s.lost, b);
  }

  lemma SentIsLinked(s: Fwd, tx: T.Ring, e: T.Effect)
    requires Linked(s) && s.app.Sending? && tx.cleaned <= |tx.posted| && T.FifoStep(T.Queue(s.tx), e, T.Queue(tx))
    ensures Linked(Sent(s.(tx := tx), e))
    ensures e.Freed? || e.Rejected? ==> e.buf in s.rx.held
  {
    var s' := Sent(s.(tx := tx), e);
    if e.Freed? || (e.Rejected? && s.freeing) {
      FreedIsLinked(s, s', e.buf);
    } else if e.Rejected? {
      LostIsLinked(s, s', e.buf);
    }
  }

  lemma DriverKeepsIntact(mem: seq<Rx.Buf>, r: T.Ring)
    requires T.WellShaped(r) && !r.pc.Idle? && Intact(mem, r)
    ensures Intact(mem, T.Driver(r).0)
  {
    var r' := T.Driver(r).0;
    assert r'.cleaned >= r.cleaned;
    assert r'.posted == r.posted || r'.posted == r.posted + [T.Posting(r.pc.buf, r.pc.pkt, r.desc[r.pc.cur])];
  }

  lemma PassedGrows(got: seq<Rx.Delivery>, outcomes: seq<bool>, took: bool)
    requires |outcomes| < |got|
    ensures Passed(got, outcomes + [took]) ==
            Passed(got, outcomes) + if took then [Packet(got[|outcomes|])] else []
  {
    assert (outcomes + [took])[..|outcomes|] == outcomes;
  }

  lemma AcceptedKeepsHistory(s: Fwd)
    requires T.WellShaped(s.tx) && s.app.Sending? && History(s) && s.tx.pc.PutTail?
    ensures History(Step(s, Cpu))
  {
    PassedGrows(s.rx.got, s.outcomes, true);
    assert Packets(T.Driver(s.tx).0.posted) == Packets(s.tx.posted) + [s.tx.pc.pkt];
  }

  lemma SentKeepsHistory(s: Fwd)
    requires T.WellShaped(s.tx) && s.app.Sending? && History(s)
    ensures History(Step(s, Cpu))
  {
    if s.tx.pc.PutTail? {
      AcceptedKeepsHistory(s);
    } else {
      assert T.Driver(s.tx).0.posted == s.tx.posted;
      PassedGrows(s.rx.got, s.outcomes, false);
    }
  }

  lemma SendingKeepsWhole(s: Fwd)
    requires Whole(s) && Enabled(s, Cpu) && s.app.Sending?
    ensures Whole(Step(s, Cpu))
  {
    var (tx, e) := T.Driver(s.tx);
    StepKeeps(s, |s.rx.mem|, Cpu);
    T.DriverKeeps(s.tx);
    T.DriverEncodes(s.tx);
    SentIsLinked(s, tx, e);
    if e.Freed? || e.Rejected? { ReleaseIsFree(s.rx, e.buf); }
    DriverKeepsIntact(s.rx.mem, s.tx);
    SentKeepsHistory(s);
  }

  /** Linked, Intact and History read only these parts of the transmit ring. */
  lemma NicFrame(s: Fwd, tx: T.Ring)
    requires Linked(s) && Intact(s.rx.mem, s.tx) && History(s)
    requires tx.posted == s.tx.posted && tx.cleaned == s.tx.cleaned && tx.pc == s.tx.pc
    ensures Linked(s.(tx := tx)) && Intact(s.rx.mem, tx) && History(s.(tx := tx))
  {
    assert T.Queue(tx) == T.Queue(s.tx);
  }

  lemma FetchKeepsWhole(s: Fwd)
    requires Whole(s) && Enabled(s, TxFetch)
    ensures Whole(Step(s, TxFetch))
  {
    StepKeeps(s, |s.rx.mem|, TxFetch);
    NicFrame(s, T.Fetch(s.tx));
  }

  lemma WriteBackKeepsWhole(s: Fwd, j: nat, d: TxDesc)
    requires Whole(s) && Enabled(s, TxWriteBack(j, d))
    ensures Whole(Step(s, TxWriteBack(j, d)))
  {
    StepKeeps(s, |s.rx.mem|, TxWriteBack(j, d));
    T.WriteBackEncodes(s.tx, j, d);
    NicFrame(s, T.WriteBack(s.tx, j, d));
  }

  lemma StepKeepsWhole(s: Fwd, a: Act)
    requires Whole(s) && Enabled(s, a)
    ensures Whole(Step(s, a))
  {
    match a
    case RxStore(_, _, _) => StoreKeepsWhole(s, a);
    case TxFetch => FetchKeepsWhole(s);
    case TxWriteBack(j, d) => WriteBackKeepsWhole(s, j, d);
    case Cpu =>
      match s.app {
        case LoopHead => CallKeepsWhole(s);
        case Receiving => ReceivingKeepsWhole(s);
        case Has(_) => HandOverKeepsWhole(s);
        case Sending => SendingKeepsWhole(s);
      }
  }

  lemma {:induction false} RunKeepsWhole(s: Fwd, acts: seq<Act>)
    requires Whole(s) && ValidRun(s, acts)
    ensures Whole(Run(s, acts)) && SameSizes(s, Run(s, acts))
    decreases acts
  {
    if acts != [] {
      StepKeepsWhole(s, acts[0]);
      StepKeepsSizes(s, acts[0]);
      RunKeepsWhole(Step(s, acts[0]), acts[1..]);
    }
  }

  // -- whole runs --------------------------------------------------------------------------------

  /** The receive side with both stores as intended and packets that fit. */
  predicate AsIntended(c: Setup) { c.rx.repaired && c.rx.off == DATA_OFFSET && c.rx.mtu <= c.rx.cap }

  lemma BeginWhole(c: Setup, mem: seq<Rx.Buf>)
    requires Sized(c, |mem|) && AsIntended(c) && Rx.Headers(mem)
    ensures Whole(Begin(c, mem))
  {
    Rx.BeginOk(c.rx.n, mem, c.rx.cap, c.rx.mtu);
    BeginOk(c, mem);
    T.StartOk(c.ntx);
  }

  /** Every buffer of the pool, in the one place where it is. */
  ghost function Own(s: Fwd): multiset<nat>
    requires s.tx.cleaned <= |s.tx.posted|
  {
    multiset(s.rx.free) + Bag(InHand(s.app), T.Queue(s.tx), s.lost) + multiset(R.Own(s.rx.ring))
  }

  lemma OwnIsAll(s: Fwd)
    requires Linked(s) && Rx.Partitioned(s.rx)
    ensures Own(s) == Universe(|s.rx.mem|)
  {
  }

  /** The receive NIC may write the buffer of descriptor j. */
  predicate NicMayWrite(r: R.Ring, j: nat) { |r.filled| <= j < |r.posted| }

  /** No buffer is open to both NICs. */
  ghost predicate NicsApart(s: Fwd) {
    forall j: nat, i: nat | NicMayWrite(s.rx.ring, j) && Tx.NicMayRead(s.tx, i) ::
      s.rx.ring.posted[j].InPool? && s.rx.ring.posted[j].buf != s.tx.posted[i].buf
  }

  /** What the transmit NIC may read is what was received, and it was told the right buffer and length. */
  ghost predicate NicReadsPackets(s: Fwd) {
    && |s.outcomes| <= |s.rx.got| <= |s.rx.ring.filled|
    && Packets(s.tx.posted) == Passed(s.rx.got, s.outcomes)
    && (forall i: nat | Tx.NicMayRead(s.tx, i) :: Contents(s.rx.mem, s.tx.posted[i].buf) == s.tx.posted[i].pkt)
    && Tx.DeliversInOrder(s.tx)
  }

  lemma WrittenIsNotRead(s: Fwd, j: nat, i: nat)
    requires Whole(s) && NicMayWrite(s.rx.ring, j) && Tx.NicMayRead(s.tx, i)
    ensures s.rx.ring.posted[j].InPool? && s.rx.ring.posted[j].buf != s.tx.posted[i].buf
  {
    Rx.PostedIsOwned(s.rx.ring, j);
    Rx.OwnedIsNotHeld(s.rx, s.rx.ring.posted[j].buf);
    Tx.InQueue(s.tx, i);
    assert s.tx.posted[i].buf in s.rx.held;
  }

  lemma KeepsNicsApart(s: Fwd)
    requires Whole(s)
    ensures NicsApart(s)
  {
    forall j: nat, i: nat | NicMayWrite(s.rx.ring, j) && Tx.NicMayRead(s.tx, i)
      ensures s.rx.ring.posted[j].InPool? && s.rx.ring.posted[j].buf != s.tx.posted[i].buf
    {
      WrittenIsNotRead(s, j, i);
    }
  }

  lemma GivesNicPackets(s: Fwd)
    requires Whole(s)
    ensures NicReadsPackets(s)
  {
    forall i: nat | Tx.NicMayRead(s.tx, i) ensures i >= s.tx.cleaned {}
  }

  /** Over every interleaving of the loop, its driver calls and the two NICs, in one memory: every buffer is in one
      place; no buffer is open to both NICs; the packets posted for transmission are the received ones minus those not
      taken, in order, with their lengths and bytes, and are unchanged in memory while the NIC may read them; and the
      k-th received packet is the k-th the receive NIC stored. */
  lemma ForwardsWhatItReceives(c: Setup, mem: seq<Rx.Buf>, acts: seq<Act>)
    requires Sized(c, |mem|) && AsIntended(c) && Rx.Headers(mem) && ValidRun(Begin(c, mem), acts)
    ensures var s := Run(Begin(c, mem), acts);
            && s.tx.cleaned <= |s.tx.posted| && Own(s) == Universe(|mem|)
            && NicsApart(s)
            && NicReadsPackets(s)
            && (forall k: nat | k < |s.rx.got| :: Rx.Delivers(s.rx, k))
            && (s.app.LoopHead? ==> |s.outcomes| == |s.rx.got|)
  {
    BeginWhole(c, mem);
    RunKeepsWhole(Begin(c, mem), acts);
    var s := Run(Begin(c, mem), acts);
    OwnIsAll(s);
    KeepsNicsApart(s);
    GivesNicPackets(s);
  }
}
