/** The two advanced descriptor formats, reduced to the words the driver and the NIC exchange. */
module Descriptors {
  import opened RingIndex

  /** offsetof(struct pkt_buf, data): the header fills one cache line. */
  const DATA_OFFSET: nat := 64

  /** A bus address: byte `off` of pool buffer `buf`, or a bit pattern that names no buffer. */
  datatype DmaAddr = InPool(buf: nat, off: nat) | Raw(bits: nat)

  /** What the data area of a buffer holds after a DMA write of `data` at byte `off` of the buffer: a write that
      starts inside the header leaves only what reaches beyond it. */
  function Landed(was: seq<nat>, off: nat, data: seq<nat>): seq<nat> {
    if off >= DATA_OFFSET then data
    else if off + |data| > DATA_OFFSET then data[DATA_OFFSET - off..]
    else was
  }

  // -- transmit ----------------------------------------------------------------------------------

  /** The third word is olinfo_status when the driver writes it and status when the NIC does. */
  datatype TxDesc = TxDesc(addr: DmaAddr, cmdTypeLen: nat, olinfoStatus: nat)

  /** EOP, RS, IFCS, DEXT and DTYP_DATA. */
  const TX_FLAGS: nat := 0x01000000 + 0x08000000 + 0x02000000 + 0x20000000 + 0x00300000

  predicate TxDone(d: TxDesc) { d.olinfoStatus % 2 == 1 }

  function CmdWord(size: nat): nat { BitOr(TX_FLAGS, size) }

  /** `size << 14` in 32 bits. */
  function PaylenWord(size: nat): nat { (size * 0x4000) % 0x1_0000_0000 }

  /** The descriptor that the three stores of the transmit function leave behind. */
  function TxEncode(buf: nat, size: nat): (d: TxDesc)
    ensures !TxDone(d)
  {
    NoDoneBit(size);
    TxDesc(InPool(buf, DATA_OFFSET), CmdWord(size), PaylenWord(size))
  }

  lemma NoDoneBit(size: nat)
    ensures PaylenWord(size) % 2 == 0
  {
  }

  /** DTALEN, the low 16 bits of the command word. */
  function DataLength(d: TxDesc): nat { d.cmdTypeLen % 0x1_0000 }

  /** PAYLEN, the high 18 bits of the third word. */
  function PayloadLength(d: TxDesc): nat { d.olinfoStatus / 0x4000 }

  predicate TellsSize(d: TxDesc, size: nat) {
    DataLength(d) == size && PayloadLength(d) == size && d.cmdTypeLen == TX_FLAGS + size
  }

  lemma {:induction false} OrDisjoint(a: nat, b: nat, k: nat)
    requires a % Pow2(k) == 0 && b < Pow2(k)
    ensures BitOr(a, b) == a + b
    decreases k, a
  {
    if k == 0 {
      if a > 0 { OrDisjoint(a / 2, 0, 0); }
    } else if a > 0 || b > 0 {
      HalveMod(a, Pow2(k - 1));
      OrDisjoint(a / 2, b / 2, k - 1);
    }
  }

  lemma Pow2Of16()
    ensures Pow2(16) == 0x1_0000
  {
    assert Pow2(4) == 16 && Pow2(8) == 0x100 && Pow2(12) == 0x1000;
  }

  /** The flags, all above bit 15, leave the size in the low half of the command word. */
  lemma CommandWordFields(flags: nat, size: nat)
    requires flags % 0x1_0000 == 0
    ensures BitOr(flags, size) % 0x1_0000 == size % 0x1_0000
    ensures size < 0x1_0000 ==> BitOr(flags, size) == flags + size
  {
    Pow2Of16();
    OrLowBits(flags, size, 16);
    if size < 0x1_0000 { OrDisjoint(flags, size, 16); }
  }

  lemma PaylenWordField(size: nat)
    requires size < 0x1_0000
    ensures PaylenWord(size) / 0x4000 == size
  {
  }

  /** A posted descriptor tells the NIC the buffer's size, in both length fields and with the flags
      intact, exactly when the size fits 16 bits. */
  lemma PostedLengthExact(buf: nat, size: nat)
    ensures TellsSize(TxEncode(buf, size), size) <==> size < 0x1_0000
  {
    CommandWordFields(TX_FLAGS, size);
    if size < 0x1_0000 {
      PaylenWordField(size);
    } else {
      assert DataLength(TxEncode(buf, size)) < 0x1_0000;
    }
  }

  // -- receive -----------------------------------------------------------------------------------

  /** The driver writes an address and a 64-bit hdr_addr; the NIC's write-back puts other data over the
      address and status, length and VLAN tag over hdr_addr. Only status and length are read. */
  datatype RxDesc = RxDesc(addr: DmaAddr, status: nat, length: nat)

  predicate RxDone(d: RxDesc) { d.status % 2 == 1 }

  predicate RxEndOfPacket(d: RxDesc) { (d.status / 2) % 2 == 1 }
}
