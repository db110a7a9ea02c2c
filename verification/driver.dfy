/** The driver's decision logic: the `begin` error gate and the register images it
    writes, transmit admission across the software queue and the three mailboxes, the
    mailbox write, the receive and transmit interrupt handlers, and callback dispatch
    by filter-match index. Hardware status registers are inputs and every register the
    driver writes is an output value. Register layouts follow RM0008 chapter 24
    (CAN_MCR, CAN_TSR, CAN_RFxR, CAN_IER, CAN_BTR, CAN_TIxR/CAN_RIxR, CAN_TDTxR/CAN_RDTxR). */
module Driver {
  import opened Optional
  import opened Frames
  import opened Bits
  import opened BitTiming
  import Fifo
  import DA = DynArray
  import FB = FilterBank

  /** `begin`'s own status bit, above every consistency bit. */
  const ActualBitRateTooFarFromDesiredBitRate: bv32 := 0x1_0000

  /** `tryToSendReturnStatus` results. */
  const SendOk: nat := 0
  const TransmitBufferIndexTooLarge: nat := 1
  const TransmitBufferOverflow: nat := 2

  datatype Driver = Driver(
    rx0: Fifo.Queue,
    rx1: Fifo.Queue,
    tx: Fifo.Queue,
    callBacks0: DA.DynamicArray<CallBack>,
    callBacks1: DA.DynamicArray<CallBack>)

  predicate Valid(d: Driver) {
    Fifo.Valid(d.rx0) && Fifo.Valid(d.rx1) && Fifo.Valid(d.tx)
    && DA.Valid(d.callBacks0) && DA.Valid(d.callBacks1)
  }

  /** A constructed driver before `begin`: queues without storage, no callbacks. */
  function New(): (d: Driver)
    ensures Valid(d)
    ensures d.rx0.size == 0 && d.rx1.size == 0 && d.tx.size == 0
    ensures d.callBacks0.items == [] && d.callBacks1.items == []
  {
    Driver(Fifo.New(), Fifo.New(), Fifo.New(), DA.Empty(), DA.Empty())
  }

  // ---------------------------------------------------------------------------
  // begin: the error gate
  // ---------------------------------------------------------------------------

  /** `begin`'s result code: the consistency mask when it is not zero, otherwise the
      rate-too-far code when the achieved rate is outside the tolerance, otherwise 0.
      The two kinds of error are never reported together. */
  function BeginStatus(s: Settings): (e: bv32)
    ensures e == 0 <==> ConsistentTiming(s) && s.closeEnough
    ensures !ConsistentTiming(s) ==> e == Consistency(s)
    ensures ConsistentTiming(s) && !s.closeEnough ==> e == ActualBitRateTooFarFromDesiredBitRate
    ensures e & ActualBitRateTooFarFromDesiredBitRate == 0 || e & ConsistencyBits == 0
  {
    var m := Consistency(s);
    if m != 0 then
      HighBitClear(m);
      m
    else if !s.closeEnough then
      ActualBitRateTooFarFromDesiredBitRate
    else
      0
  }

  lemma HighBitClear(m: bv32)
    requires m & !ConsistencyBits == 0
    ensures m & ActualBitRateTooFarFromDesiredBitRate == 0
  {
  }

  // ---------------------------------------------------------------------------
  // The bit timing register
  // ---------------------------------------------------------------------------

  /** CAN_BTR fields: BRP[9:0] at bits 9..0, TS1[3:0] at 19..16, TS2[2:0] at 22..20,
      SJW[1:0] at 25..24, each holding its quantity minus one; LBKM is bit 30 and SILM
      bit 31. */
  function BtrBrp(w: nat): nat { w % 0x400 + 1 }
  function BtrTs1(w: nat): nat { (w / 0x1_0000) % 0x10 + 1 }
  function BtrTs2(w: nat): nat { (w / 0x10_0000) % 0x8 + 1 }
  function BtrSjw(w: nat): nat { (w / 0x100_0000) % 0x4 + 1 }
  predicate BtrLoopBack(w: nat) { (w / 0x4000_0000) % 2 == 1 }
  predicate BtrSilent(w: nat) { (w / 0x8000_0000) % 2 == 1 }

  /** The module mode a BTR word selects. */
  function BtrMode(w: nat): ModuleMode {
    if BtrLoopBack(w) && BtrSilent(w) then InternalLoopBack
    else if BtrLoopBack(w) then ExternalLoopBack
    else if BtrSilent(w) then Silent
    else Normal
  }

  /** The BTR word `begin` writes: prescaler and segments minus one in their fields,
      plus LBKM and SILM by mode. Decoding it gives back the settings. */
  function BtrWord(s: Settings): (w: nat)
    requires ConsistentTiming(s)
    ensures w < WordLimit
    ensures BtrBrp(w) == s.brp && BtrTs1(w) == s.ps1 && BtrTs2(w) == s.ps2 && BtrSjw(w) == s.rjw
    ensures BtrMode(w) == s.moduleMode
  {
    var lbkm := if s.moduleMode == InternalLoopBack || s.moduleMode == ExternalLoopBack then 1 else 0;
    var silm := if s.moduleMode == InternalLoopBack || s.moduleMode == Silent then 1 else 0;
    var w := (s.brp - 1) + (s.ps1 - 1) * 0x1_0000 + (s.ps2 - 1) * 0x10_0000 + (s.rjw - 1) * 0x100_0000
      + lbkm * 0x4000_0000 + silm * 0x8000_0000;
    BtrFields(s.brp - 1, s.ps1 - 1, s.ps2 - 1, s.rjw - 1, lbkm, silm);
    assert BtrLoopBack(w) <==> lbkm == 1;
    assert BtrSilent(w) <==> silm == 1;
    ModeBits(w, s.moduleMode, lbkm == 1, silm == 1);
    w
  }

  lemma ModeBits(w: nat, mode: ModuleMode, lbkm: bool, silm: bool)
    requires BtrLoopBack(w) == lbkm && BtrSilent(w) == silm
    requires lbkm == (mode == InternalLoopBack || mode == ExternalLoopBack)
    requires silm == (mode == InternalLoopBack || mode == Silent)
    ensures BtrMode(w) == mode
  {
  }

  /** The six BTR fields read back from their sum. */
  lemma BtrFields(brp: nat, ts1: nat, ts2: nat, sjw: nat, lbkm: nat, silm: nat)
    requires brp < 0x400 && ts1 < 0x10 && ts2 < 0x8 && sjw < 0x4 && lbkm < 2 && silm < 2
    ensures var w := brp + ts1 * 0x1_0000 + ts2 * 0x10_0000 + sjw * 0x100_0000
                     + lbkm * 0x4000_0000 + silm * 0x8000_0000;
      && w < WordLimit
      && w % 0x400 == brp && (w / 0x1_0000) % 0x10 == ts1 && (w / 0x10_0000) % 0x8 == ts2
      && (w / 0x100_0000) % 0x4 == sjw
      && (w / 0x4000_0000) % 2 == lbkm && (w / 0x8000_0000) % 2 == silm
  {
    var top := lbkm + silm * 2;
    DivMulAdd(ts1 * 0x40 + ts2 * 0x400 + sjw * 0x4000 + top * 0x10_0000, brp, 0x400);
    DivMulAdd(ts1 + ts2 * 0x10 + sjw * 0x100 + top * 0x4000, brp, 0x1_0000);
    DivMulAdd(ts2 + sjw * 0x10 + top * 0x400, ts1 * 0x1_0000 + brp, 0x10_0000);
    DivMulAdd(sjw + top * 0x40, ts2 * 0x10_0000 + ts1 * 0x1_0000 + brp, 0x100_0000);
    DivMulAdd(top, sjw * 0x100_0000 + ts2 * 0x10_0000 + ts1 * 0x1_0000 + brp, 0x4000_0000);
    DivMulAdd(silm, lbkm * 0x4000_0000 + sjw * 0x100_0000 + ts2 * 0x10_0000 + ts1 * 0x1_0000 + brp,
              0x8000_0000);
  }

  // ---------------------------------------------------------------------------
  // The filter-register image
  // ---------------------------------------------------------------------------

  /** The filter registers `begin` writes: the bank words in bank order, then FM1R,
      FS1R, FFA1R and the activation register FA1R. */
  datatype FilterImage = FilterImage(
    fr1: seq<nat>,
    fr2: seq<nat>,
    fm1r: nat,
    fs1r: nat,
    ffa1r: nat,
    fa1r: nat)

  /** The image of a builder: with no filter, one active 32-bit mask bank whose
      identifier and mask are zero, feeding FIFO 0; otherwise the builder's words and
      flags, with exactly its banks active. Seen over all 14 banks, no register has a
      bit set beyond the active ones. */
  function ConfigureFilters(f: FB.Filters): (img: FilterImage)
    requires FB.Valid(f)
    ensures var active := if FB.Count(f) == 0 then 1 else FB.Count(f);
      && |img.fr1| == |img.fr2| == active
      && Flags(img.fa1r, FB.MaxFilterCount) == seq(FB.MaxFilterCount, i => i < active)
    ensures FB.Count(f) == 0 ==>
      && img.fr1 == [0] && img.fr2 == [0]
      && Flags(img.fm1r, FB.MaxFilterCount) == seq(FB.MaxFilterCount, _ => false)
      && Flags(img.fs1r, FB.MaxFilterCount) == seq(FB.MaxFilterCount, i => i == 0)
      && Flags(img.ffa1r, FB.MaxFilterCount) == seq(FB.MaxFilterCount, _ => false)
    ensures FB.Count(f) > 0 ==> var n := FB.Count(f); var z := seq(FB.MaxFilterCount - n, _ => false);
      && img.fr1 == f.fr1.items && img.fr2 == f.fr2.items
      && Flags(img.fm1r, FB.MaxFilterCount) == Flags(f.fm1r, n) + z
      && Flags(img.fs1r, FB.MaxFilterCount) == Flags(f.fs1r, n) + z
      && Flags(img.ffa1r, FB.MaxFilterCount) == Flags(f.ffa1r, n) + z
  {
    var n := FB.Count(f);
    var m := FB.MaxFilterCount;
    if n == 0 then
      ZeroFlags(m);
      FlagsPrefix(1, 1, m);
      assert Flags(1, 1) == [true];
      assert [true] + seq(m - 1, _ => false) == seq(m, i => i == 0);
      FilterImage([0], [0], 0, 1, 0, 1)
    else
      LowMaskFlags(n);
      FlagsPrefix(Pow2(n) - 1, n, m);
      FlagsPrefix(f.fm1r, n, m);
      FlagsPrefix(f.fs1r, n, m);
      FlagsPrefix(f.ffa1r, n, m);
      assert seq(n, _ => true) + seq(m - n, _ => false) == seq(m, i => i < n);
      FilterImage(f.fr1.items, f.fr2.items, f.fm1r, f.fs1r, f.ffa1r, Pow2(n) - 1)
  }

  /** Zero has no bit set. */
  lemma {:induction false} ZeroFlags(m: nat)
    ensures Flags(0, m) == seq(m, _ => false)
  {
    if m > 0 {
      ZeroFlags(m - 1);
    }
  }

  /** A word below `2^n` read over `m >= n` bits: its low `n` flags, then clear ones. */
  lemma {:induction false} FlagsPrefix(w: nat, n: nat, m: nat)
    requires w < Pow2(n) && n <= m
    ensures Flags(w, m) == Flags(w, n) + seq(m - n, _ => false)
  {
    if n == 0 {
      ZeroFlags(m);
    } else {
      FlagsPrefix(w / 2, n - 1, m - 1);
    }
  }

  /** Hardware acceptance in mask mode: every bit the mask selects agrees between the
      received identifier word `x` and the filter identifier `id`. */
  predicate MaskMatch(x: nat, id: nat, mask: nat, n: nat) {
    n == 0 || ((mask % 2 == 1 ==> x % 2 == id % 2) && MaskMatch(x / 2, id / 2, mask / 2, n - 1))
  }

  lemma {:induction false} ZeroMaskMatchesAll(x: nat, id: nat, n: nat)
    ensures MaskMatch(x, id, 0, n)
  {
    if n > 0 {
      ZeroMaskMatchesAll(x / 2, id / 2, n - 1);
    }
  }

  /** Without filters the single active bank is a 32-bit mask bank in FIFO 0 whose mask
      selects no bit, so it accepts every frame. */
  lemma DefaultBankAcceptsAll(f: FB.Filters, x: nat)
    requires FB.Valid(f) && FB.Count(f) == 0
    ensures var img := ConfigureFilters(f);
      && Flags(img.fa1r, FB.MaxFilterCount)[0] && Flags(img.fs1r, FB.MaxFilterCount)[0]
      && !Flags(img.fm1r, FB.MaxFilterCount)[0] && !Flags(img.ffa1r, FB.MaxFilterCount)[0]
      && MaskMatch(x, img.fr1[0], img.fr2[0], 32)
  {
    ZeroMaskMatchesAll(x, 0, 32);
  }

  // ---------------------------------------------------------------------------
  // begin and end
  // ---------------------------------------------------------------------------

  /** CAN_IER: TMEIE, FMPIE0, FFIE0, FOVIE0, FMPIE1, FFIE1 and FOVIE1 (bits 0..6). */
  const InterruptEnable: nat := 0x7F

  /** CAN_MCR on leaving init mode: ABOM (bit 6), and TXFP (bit 2) when transmit
      priority follows request order. */
  function McrWord(s: Settings): (w: nat)
    ensures (w / 0x40) % 2 == 1
    ensures ((w / 0x4) % 2 == 1) <==> s.transmitPriority == ByRequestOrder
    ensures w < 0x80
  {
    if s.transmitPriority == ByRequestOrder then 0x44 else 0x40
  }

  /** The registers `begin` writes once the gate is passed. */
  datatype Configuration = Configuration(btr: nat, filters: FilterImage, ier: nat, mcr: nat)

  /** `begin`: on a non-zero status nothing changes; otherwise the three queues get
      fresh storage of the configured sizes, the callback tables are copied from the
      builder, and the register image is produced. */
  function Begin(d: Driver, s: Settings, f: FB.Filters): (r: (Driver, bv32, Option<Configuration>))
    requires Valid(d) && FB.Valid(f)
    requires s.rx0Size <= Fifo.MaxSize && s.rx1Size <= Fifo.MaxSize && s.txSize <= Fifo.MaxSize
    ensures Valid(r.0)
    ensures r.1 == BeginStatus(s)
    ensures r.1 != 0 ==> r.0 == d && r.2 == None
    ensures r.1 == 0 ==>
      && Fifo.Contents(r.0.rx0) == [] && r.0.rx0.size == s.rx0Size
      && Fifo.Contents(r.0.rx1) == [] && r.0.rx1.size == s.rx1Size
      && Fifo.Contents(r.0.tx) == [] && r.0.tx.size == s.txSize
      && r.0.callBacks0.items == f.callBacks0.items && r.0.callBacks1.items == f.callBacks1.items
      && r.2 == Some(Configuration(BtrWord(s), ConfigureFilters(f), InterruptEnable, McrWord(s)))
  {
    var e := BeginStatus(s);
    if e != 0 then
      (d, e, None)
    else
      var d1 := Driver(Fifo.InitWithSize(s.rx0Size), Fifo.InitWithSize(s.rx1Size),
                       Fifo.InitWithSize(s.txSize),
                       DA.CopyTo(f.callBacks0, d.callBacks0), DA.CopyTo(f.callBacks1, d.callBacks1));
      (d1, 0, Some(Configuration(BtrWord(s), ConfigureFilters(f), InterruptEnable, McrWord(s))))
  }

  /** `end`: every queue and callback table released. */
  function End(d: Driver): (r: Driver)
    ensures Valid(r)
    ensures r.rx0.size == 0 && r.rx1.size == 0 && r.tx.size == 0
    ensures Fifo.Contents(r.rx0) == [] && Fifo.Contents(r.rx1) == [] && Fifo.Contents(r.tx) == []
    ensures r.callBacks0.items == [] && r.callBacks1.items == []
  {
    Driver(Fifo.Free(d.rx0), Fifo.Free(d.rx1), Fifo.Free(d.tx),
           DA.Free(d.callBacks0), DA.Free(d.callBacks1))
  }

  // ---------------------------------------------------------------------------
  // Mailbox identifier registers (CAN_TIxR for transmit, CAN_RIxR for receive):
  // STID[10:0] at 31..21, or STID/EXID[28:0] at 31..3; IDE bit 2, RTR bit 1, and on
  // transmit TXRQ bit 0.
  // ---------------------------------------------------------------------------

  function IdStandard(r: nat): nat { (r / 0x20_0000) % 0x800 }
  function IdExtended(r: nat): nat { (r / 8) % 0x2000_0000 }
  predicate IdIde(r: nat) { (r / 4) % 2 == 1 }
  predicate IdRtr(r: nat) { (r / 2) % 2 == 1 }
  predicate TxRequest(r: nat) { r % 2 == 1 }

  /** The four words written to one transmit mailbox. */
  datatype MailboxWrite = MailboxWrite(mailbox: nat, tir: nat, tdtr: nat, tdlr: nat, tdhr: nat)

  /** `writeTxRegisters`: identifier, flags and the transmit request in TIR, the length
      code in TDTR, the payload in TDLR/TDHR. The identifier is shifted in 32 bits, so
      only its low 11 (standard) or 29 (extended) bits survive. */
  function WriteTxRegisters(m: Frame, mailbox: nat): (w: MailboxWrite)
    ensures w.mailbox == mailbox && w.tir < WordLimit && w.tdtr < 0x10
    ensures TxRequest(w.tir) && IdRtr(w.tir) == m.rtr && IdIde(w.tir) == m.ext
    ensures m.ext ==> IdExtended(w.tir) == m.id % 0x2000_0000
    ensures !m.ext ==> IdStandard(w.tir) == m.id % 0x800
    ensures w.tdtr == m.len % 0x10 && w.tdlr == m.data0 && w.tdhr == m.data1
  {
    var rtr := if m.rtr then 1 else 0;
    var ext := if m.ext then 1 else 0;
    if m.ext then
      var id := m.id % 0x2000_0000;
      TirExtended(id, ext, rtr);
      MailboxWrite(mailbox, id * 8 + ext * 4 + rtr * 2 + 1, m.len % 0x10, m.data0, m.data1)
    else
      var id := m.id % 0x800;
      TirStandard(id, ext, rtr);
      MailboxWrite(mailbox, id * 0x20_0000 + ext * 4 + rtr * 2 + 1, m.len % 0x10, m.data0, m.data1)
  }

  /** An extended TIR word reads back its identifier and its three flag bits. */
  lemma TirExtended(id: nat, ext: nat, rtr: nat)
    requires id < 0x2000_0000 && ext < 2 && rtr < 2
    ensures var w := id * 8 + ext * 4 + rtr * 2 + 1;
      && w < WordLimit && IdExtended(w) == id && TxRequest(w)
      && IdIde(w) == (ext == 1) && IdRtr(w) == (rtr == 1)
  {
    TirFields(id, 8, ext, rtr);
  }

  /** A standard TIR word reads back its identifier and its three flag bits. */
  lemma TirStandard(id: nat, ext: nat, rtr: nat)
    requires id < 0x800 && ext < 2 && rtr < 2
    ensures var w := id * 0x20_0000 + ext * 4 + rtr * 2 + 1;
      && w < WordLimit && IdStandard(w) == id && TxRequest(w)
      && IdIde(w) == (ext == 1) && IdRtr(w) == (rtr == 1)
  {
    TirFields(id, 0x20_0000, ext, rtr);
  }

  /** An identifier placed at `unit` (a multiple of 8) above IDE, RTR and TXRQ reads
      back, and so do the three flag bits. */
  lemma TirFields(id: nat, unit: nat, ext: nat, rtr: nat)
    requires unit % 8 == 0 && unit >= 8 && ext < 2 && rtr < 2
    ensures var w := id * unit + ext * 4 + rtr * 2 + 1;
      w / unit == id && w % 2 == 1 && (w / 2) % 2 == rtr && (w / 4) % 2 == ext
  {
    var flags := ext * 4 + rtr * 2 + 1;
    var u := unit / 8;
    assert id * unit == id * u * 8;
    DivMulAdd(id, flags, unit);
    DivMulAdd(id * u * 2 + ext, rtr * 2 + 1, 4);
    DivMulAdd(id * u * 4 + ext * 2 + rtr, 1, 2);
    DivMulAdd(id * u * 2 + ext, rtr, 2);
  }

  /** The receive interrupt's decoding of a FIFO mailbox: flags from RIR bits 1 and 2,
      the identifier from the field the IDE bit selects, the length code from RDTR's low
      nibble and the filter-match index from RDTR bits 15..8. */
  function DecodeRx(rir: nat, rdtr: nat, rdlr: nat, rdhr: nat): (m: Frame)
    requires rdlr < WordLimit && rdhr < WordLimit
    ensures InRange(m) && m.len < 0x10
    ensures m.ext ==> m.id <= FB.ExtendedIdentifierMax
    ensures !m.ext ==> m.id <= FB.StandardIdentifierMax
    ensures m.rtr == IdRtr(rir) && m.ext == IdIde(rir)
    ensures m.id == if m.ext then IdExtended(rir) else IdStandard(rir)
    ensures m.len == rdtr % 0x10 && m.idx == (rdtr / 0x100) % 0x100
    ensures m.data0 == rdlr && m.data1 == rdhr
  {
    var ext := IdIde(rir);
    Frame(if ext then IdExtended(rir) else IdStandard(rir),
          IdRtr(rir), ext, rdtr % 0x10, rdlr, rdhr, (rdtr / 0x100) % 0x100)
  }

  /** Reading back what `writeTxRegisters` wrote, with the receiver's filter-match index
      `k` in RDTR, gives the frame with its identifier and length cut to their register
      widths; a frame whose identifier fits and whose length is below 16 comes back
      unchanged apart from the index. */
  lemma TxRxRoundTrip(m: Frame, mailbox: nat, k: nat)
    requires InRange(m) && k < 0x100
    ensures var w := WriteTxRegisters(m, mailbox);
      DecodeRx(w.tir, w.tdtr + k * 0x100, w.tdlr, w.tdhr)
        == m.(id := if m.ext then m.id % 0x2000_0000 else m.id % 0x800, len := m.len % 0x10, idx := k)
    ensures var w := WriteTxRegisters(m, mailbox);
      ((m.ext ==> m.id <= FB.ExtendedIdentifierMax) && (!m.ext ==> m.id <= FB.StandardIdentifierMax)
       && m.len < 0x10) ==> DecodeRx(w.tir, w.tdtr + k * 0x100, w.tdlr, w.tdhr) == m.(idx := k)
  {
    var w := WriteTxRegisters(m, mailbox);
    DivMulAdd(k * 0x10, w.tdtr, 0x10);
    DivMulAdd(k, w.tdtr, 0x100);
  }

  /** RIR bit 0 is reserved and reads 0; the decoding ignores it, so a received word
      decodes like the same word with the transmit request set. */
  lemma DecodeRxIgnoresBit0(rir: nat, rdtr: nat, rdlr: nat, rdhr: nat)
    requires rir % 2 == 0 && rdlr < WordLimit && rdhr < WordLimit
    ensures DecodeRx(rir, rdtr, rdlr, rdhr) == DecodeRx(rir + 1, rdtr, rdlr, rdhr)
  {
    var h := rir / 2;
    DivMulAdd(h, 0, 2);
    DivMulAdd(h, 1, 2);
    assert (rir + 1) / 2 == h;
    HalvedFields(rir);
    HalvedFields(rir + 1);
  }

  /** Every RIR field above bit 0 is read from the word halved. */
  lemma HalvedFields(r: nat)
    ensures IdRtr(r) == (r / 2 % 2 == 1)
    ensures IdIde(r) == ((r / 2) / 2 % 2 == 1)
    ensures IdExtended(r) == ((r / 2) / 4) % 0x2000_0000
    ensures IdStandard(r) == ((r / 2) / 0x10_0000) % 0x800
  {
    DivDiv(r, 2, 2);
    DivDiv(r, 2, 4);
    DivDiv(r, 2, 0x10_0000);
  }

  /** Dividing by `c * d` is dividing by `c`, then by `d`, for the constants the
      register layouts use. */
  lemma DivDiv(x: nat, c: nat, d: nat)
    requires (c, d) in {(2, 2), (2, 4), (2, 0x10_0000), (8, 0x4_0000)}
    ensures x / (c * d) == (x / c) / d
  {
    var q := (x / c) / d;
    var low := x - c * d * q;
    assert x == c * (x / c) + x % c;
    assert x / c == d * q + (x / c) % d;
    assert 0 <= low < c * d;
    DivMulAdd(q, low, c * d);
  }

  /** An even RIR word is its identifier field above IDE and RTR. */
  lemma LowThree(r: nat)
    requires r % 2 == 0
    ensures r == (r / 8) * 8 + (if IdIde(r) then 4 else 0) + (if IdRtr(r) then 2 else 0)
  {
    HalvedFields(r);
    DivDiv(r, 2, 4);
    DivMulAdd(r / 2, 0, 2);
    var h := r / 2;
    assert h == 2 * (h / 2) + h % 2;
    assert h / 2 == 2 * ((h / 2) / 2) + (h / 2) % 2;
  }

  /** The converse round trip: a received identifier word whose unused bits are clear
      (bit 0 always; EXID[17:0] at bits 20..3 for a standard frame) is rebuilt exactly,
      up to the transmit request, by writing the decoded frame, and so is the length
      code. */
  lemma RxTxRoundTrip(rir: nat, rdtr: nat, rdlr: nat, rdhr: nat, mailbox: nat)
    requires rir < WordLimit && rir % 2 == 0 && rdlr < WordLimit && rdhr < WordLimit
    requires IdIde(rir) || (rir / 8) % 0x4_0000 == 0
    ensures var w := WriteTxRegisters(DecodeRx(rir, rdtr, rdlr, rdhr), mailbox);
      w.tir == rir + 1 && w.tdtr == rdtr % 0x10 && w.tdlr == rdlr && w.tdhr == rdhr
  {
    var m := DecodeRx(rir, rdtr, rdlr, rdhr);
    var flags := (if m.ext then 4 else 0) + (if m.rtr then 2 else 0);
    LowThree(rir);
    var q := rir / 8;
    DivMulAdd(q, rir % 8, 8);
    assert q < 0x2000_0000;
    if m.ext {
      DivMulAdd(0, q, 0x2000_0000);
      assert m.id == q;
      assert WriteTxRegisters(m, mailbox).tir == q * 8 + flags + 1;
    } else {
      StandardField(rir);
      assert WriteTxRegisters(m, mailbox).tir == m.id * 0x20_0000 + flags + 1;
    }
  }

  /** With EXID[17:0] clear, the identifier field of an RIR word is the standard
      identifier placed at bit 21. */
  lemma StandardField(r: nat)
    requires r < WordLimit && (r / 8) % 0x4_0000 == 0
    ensures (r / 8) * 8 == IdStandard(r) * 0x20_0000
  {
    var q := r / 8;
    DivDiv(r, 8, 0x4_0000);
    DivMulAdd(q / 0x4_0000, 0, 0x4_0000);
    assert q == (q / 0x4_0000) * 0x4_0000;
    DivBracket(r, 0x20_0000);
    DivMulAdd(0, r / 0x20_0000, 0x800);
  }

  // ---------------------------------------------------------------------------
  // Transmit status register CAN_TSR: TME0..TME2 at bits 26..28, CODE[1:0] at 25..24
  // ---------------------------------------------------------------------------

  /** Mailbox `k` (0, 1 or 2) is empty. */
  predicate MailboxEmpty(tsr: nat, k: nat) {
    if k == 0 then (tsr / 0x400_0000) % 2 == 1
    else if k == 1 then (tsr / 0x800_0000) % 2 == 1
    else if k == 2 then (tsr / 0x1000_0000) % 2 == 1
    else false
  }

  /** Some mailbox is empty (`(TSR & CAN_TSR_TME) != 0`). */
  predicate AnyMailboxEmpty(tsr: nat) {
    MailboxEmpty(tsr, 0) || MailboxEmpty(tsr, 1) || MailboxEmpty(tsr, 2)
  }

  /** The CODE field: the mailbox the hardware proposes for the next transmission. */
  function NextMailbox(tsr: nat): nat { (tsr / 0x100_0000) % 4 }

  /** The hardware's promise about CODE: when a mailbox is empty, CODE names one. */
  predicate CodeNamesEmptyMailbox(tsr: nat) {
    AnyMailboxEmpty(tsr) ==> MailboxEmpty(tsr, NextMailbox(tsr))
  }

  // ---------------------------------------------------------------------------
  // Transmission
  // ---------------------------------------------------------------------------

  /** `sendBufferNotFullForIndex`: the queue has room (index 0) or the mailbox is empty
      (index 1 or 2); any other index never has room. */
  function SendBufferNotFullForIndex(d: Driver, index: nat, tsr: nat): (ok: bool)
    requires Valid(d)
    ensures index == 0 ==> (ok <==> |Fifo.Contents(d.tx)| < d.tx.size)
    ensures index == 1 || index == 2 ==> (ok <==> MailboxEmpty(tsr, index))
    ensures index > 2 ==> !ok
  {
    if index == 0 then !Fifo.IsFull(d.tx)
    else if index == 1 then MailboxEmpty(tsr, 1)
    else if index == 2 then MailboxEmpty(tsr, 2)
    else false
  }

  /** Only the transmit queue changed. */
  predicate OnlyTxChanged(d: Driver, e: Driver) {
    e.rx0 == d.rx0 && e.rx1 == d.rx1 && e.callBacks0 == d.callBacks0 && e.callBacks1 == d.callBacks1
  }

  /** `tryToSendReturnStatus`: the frame's index selects the path. Index 0 goes straight
      to mailbox 0 when nothing is queued and the mailbox is empty, and is queued
      otherwise (overflow when the queue is full); index 1 and 2 go to their mailbox when
      it is empty (overflow otherwise); a larger index is refused. A frame is written
      or queued exactly when the status is 0; otherwise nothing changes. */
  function TryToSend(d: Driver, m: Frame, tsr: nat): (r: (Driver, nat, Option<MailboxWrite>))
    requires Valid(d)
    ensures Valid(r.0) && OnlyTxChanged(d, r.0) && r.0.tx.size == d.tx.size
    ensures r.1 == SendOk || r.1 == TransmitBufferIndexTooLarge || r.1 == TransmitBufferOverflow
    ensures r.1 == TransmitBufferIndexTooLarge <==> m.idx > 2
    ensures r.1 != SendOk ==> r.0 == d && r.2 == None
    ensures r.2.Some? ==> r.1 == SendOk && r.0 == d && r.2.value == WriteTxRegisters(m, m.idx)
                          && MailboxEmpty(tsr, m.idx)
    ensures r.1 == SendOk && r.2.None? ==>
      m.idx == 0 && Fifo.Contents(r.0.tx) == Fifo.Contents(d.tx) + [m]
    ensures m.idx == 0 ==> (r.2.Some? <==> Fifo.Contents(d.tx) == [] && MailboxEmpty(tsr, 0))
    ensures m.idx == 0 ==> (r.1 == TransmitBufferOverflow <==>
      !(Fifo.Contents(d.tx) == [] && MailboxEmpty(tsr, 0)) && |Fifo.Contents(d.tx)| == d.tx.size)
    ensures m.idx == 1 || m.idx == 2 ==> (r.1 == SendOk <==> MailboxEmpty(tsr, m.idx))
  {
    if m.idx == 0 then
      if Fifo.IsEmpty(d.tx) && MailboxEmpty(tsr, 0) then
        (d, SendOk, Some(WriteTxRegisters(m, 0)))
      else
        var (q, ok) := Fifo.Append(d.tx, m);
        if ok then (d.(tx := q), SendOk, None) else (d, TransmitBufferOverflow, None)
    else if m.idx == 1 || m.idx == 2 then
      if MailboxEmpty(tsr, m.idx) then (d, SendOk, Some(WriteTxRegisters(m, m.idx)))
      else (d, TransmitBufferOverflow, None)
    else
      (d, TransmitBufferIndexTooLarge, None)
  }

  /** `sendBufferNotFullForIndex` predicts the outcome of sending: for mailboxes 1 and 2
      exactly, and for the queue in one direction (a size-0 queue still lets a frame
      through to an empty mailbox 0). */
  lemma NotFullPredictsSend(d: Driver, m: Frame, tsr: nat)
    requires Valid(d)
    ensures SendBufferNotFullForIndex(d, m.idx, tsr) ==> TryToSend(d, m, tsr).1 == SendOk
    ensures m.idx != 0 ==> (SendBufferNotFullForIndex(d, m.idx, tsr) <==> TryToSend(d, m, tsr).1 == SendOk)
    ensures m.idx == 0 && d.tx.size == 0 && MailboxEmpty(tsr, 0) ==>
      !SendBufferNotFullForIndex(d, m.idx, tsr) && TryToSend(d, m, tsr).1 == SendOk
  {
  }

  /** The transmit interrupt: when a frame is queued and some mailbox is empty, the
      oldest frame is written to the mailbox CODE names; otherwise nothing happens. */
  function TxIsr(d: Driver, tsr: nat): (r: (Driver, Option<MailboxWrite>))
    requires Valid(d)
    ensures Valid(r.0) && OnlyTxChanged(d, r.0)
    ensures r.1.Some? <==> Fifo.Contents(d.tx) != [] && AnyMailboxEmpty(tsr)
    ensures r.1.None? ==> r.0 == d
    ensures r.1.Some? ==>
      && r.1.value == WriteTxRegisters(Fifo.Contents(d.tx)[0], NextMailbox(tsr))
      && Fifo.Contents(r.0.tx) == Fifo.Contents(d.tx)[1..]
  {
    if Fifo.Count(d.tx) > 0 && AnyMailboxEmpty(tsr) then
      var (q, m) := Fifo.Remove(d.tx);
      (d.(tx := q), Some(WriteTxRegisters(m.value, NextMailbox(tsr))))
    else
      (d, None)
  }

  /** With a status register that keeps the hardware's promise, the interrupt only ever
      writes to an empty mailbox among 0, 1 and 2. */
  lemma TxIsrWritesEmptyMailbox(d: Driver, tsr: nat)
    requires Valid(d) && CodeNamesEmptyMailbox(tsr)
    ensures var w := TxIsr(d, tsr).1;
      w.Some? ==> w.value.mailbox <= 2 && MailboxEmpty(tsr, w.value.mailbox)
  {
  }

  /** Frames sent through index 0 while mailbox 0 is busy are transmitted by the
      interrupt in the order they were sent. */
  lemma {:induction false} QueuedFramesLeaveInOrder(d: Driver, a: Frame, b: Frame, busy: nat, free: nat)
    requires Valid(d) && Fifo.Contents(d.tx) == [] && d.tx.size >= 2
    requires a.idx == 0 && b.idx == 0 && !MailboxEmpty(busy, 0)
    requires AnyMailboxEmpty(free)
    ensures var (d1, s1, w1) := TryToSend(d, a, busy);
      var (d2, s2, w2) := TryToSend(d1, b, busy);
      var (d3, x) := TxIsr(d2, free);
      var (d4, y) := TxIsr(d3, free);
      && s1 == SendOk && s2 == SendOk && w1 == None && w2 == None
      && x == Some(WriteTxRegisters(a, NextMailbox(free)))
      && y == Some(WriteTxRegisters(b, NextMailbox(free)))
      && Fifo.Contents(d4.tx) == []
  {
    var (d1, s1, w1) := TryToSend(d, a, busy);
    assert Fifo.Contents(d1.tx) == [a];
    var (d2, s2, w2) := TryToSend(d1, b, busy);
    assert Fifo.Contents(d2.tx) == [a, b];
    var (d3, x) := TxIsr(d2, free);
    assert Fifo.Contents(d3.tx) == [b];
  }

  // ---------------------------------------------------------------------------
  // Reception
  // ---------------------------------------------------------------------------

  /** One receive interrupt for the queue `q`: when the hardware FIFO holds a frame
      (FMP bits of RFxR non-zero) it is decoded and appended, or dropped when `q` is
      full; otherwise nothing happens. */
  function ReceiveIntoQueue(q: Fifo.Queue, rfr: nat, rir: nat, rdtr: nat, rdlr: nat, rdhr: nat)
    : (r: Fifo.Queue)
    requires Fifo.Valid(q) && rdlr < WordLimit && rdhr < WordLimit
    ensures Fifo.Valid(r) && r.size == q.size
    ensures rfr % 4 != 0 && |Fifo.Contents(q)| < q.size ==>
      Fifo.Contents(r) == Fifo.Contents(q) + [DecodeRx(rir, rdtr, rdlr, rdhr)]
    ensures rfr % 4 == 0 || |Fifo.Contents(q)| == q.size ==> r == q
  {
    if rfr % 4 != 0 then Fifo.Append(q, DecodeRx(rir, rdtr, rdlr, rdhr)).0 else q
  }

  /** `message_isr_rx0` / `message_isr_rx1`: the receive interrupt of one hardware FIFO
      touches only the matching driver queue. */
  function RxIsr(d: Driver, fifo: FB.Action, rfr: nat, rir: nat, rdtr: nat, rdlr: nat, rdhr: nat)
    : (r: Driver)
    requires Valid(d) && rdlr < WordLimit && rdhr < WordLimit
    ensures Valid(r)
    ensures r.tx == d.tx && r.callBacks0 == d.callBacks0 && r.callBacks1 == d.callBacks1
    ensures fifo == FB.Fifo0 ==> r.rx1 == d.rx1 && r.rx0 == ReceiveIntoQueue(d.rx0, rfr, rir, rdtr, rdlr, rdhr)
    ensures fifo == FB.Fifo1 ==> r.rx0 == d.rx0 && r.rx1 == ReceiveIntoQueue(d.rx1, rfr, rir, rdtr, rdlr, rdhr)
  {
    match fifo
    case Fifo0 => d.(rx0 := ReceiveIntoQueue(d.rx0, rfr, rir, rdtr, rdlr, rdhr))
    case Fifo1 => d.(rx1 := ReceiveIntoQueue(d.rx1, rfr, rir, rdtr, rdlr, rdhr))
  }

  /** The driver queue fed by a hardware FIFO. */
  function Queue(d: Driver, fifo: FB.Action): Fifo.Queue {
    if fifo == FB.Fifo0 then d.rx0 else d.rx1
  }

  /** `available0` / `available1`. */
  function Available(d: Driver, fifo: FB.Action): (b: bool)
    requires Valid(d)
    ensures b <==> Fifo.Contents(Queue(d, fifo)) != []
  {
    Fifo.Count(Queue(d, fifo)) > 0
  }

  /** `receive0` / `receive1`: the oldest received frame of that queue, if any. */
  function Receive(d: Driver, fifo: FB.Action): (r: (Driver, Option<Frame>))
    requires Valid(d)
    ensures Valid(r.0) && r.0.tx == d.tx && r.0.callBacks0 == d.callBacks0 && r.0.callBacks1 == d.callBacks1
    ensures Queue(r.0, if fifo == FB.Fifo0 then FB.Fifo1 else FB.Fifo0)
         == Queue(d, if fifo == FB.Fifo0 then FB.Fifo1 else FB.Fifo0)
    ensures r.1.Some? <==> Available(d, fifo)
    ensures r.1.None? ==> r.0 == d
    ensures r.1.Some? ==> r.1.value == Fifo.Contents(Queue(d, fifo))[0]
                          && Fifo.Contents(Queue(r.0, fifo)) == Fifo.Contents(Queue(d, fifo))[1..]
  {
    var (q, m) := Fifo.Remove(Queue(d, fifo));
    if fifo == FB.Fifo0 then (d.(rx0 := q), m) else (d.(rx1 := q), m)
  }

  // ---------------------------------------------------------------------------
  // Dispatch
  // ---------------------------------------------------------------------------

  /** `internalDispatchReceivedMessage`: the routine the frame's filter-match index
      selects, when the index is inside the table and the entry is not null. */
  function CallBackFor(cbs: DA.DynamicArray<CallBack>, m: Frame): (h: Option<nat>)
    ensures h.Some? <==> m.idx < |cbs.items| && cbs.items[m.idx] != NullCallBack
    ensures h.Some? ==> cbs.items[m.idx] == Routine(h.value)
  {
    if m.idx < |cbs.items| && cbs.items[m.idx].Routine? then Some(cbs.items[m.idx].handle) else None
  }

  /** The callback table of a FIFO. */
  function CallBacks(d: Driver, fifo: FB.Action): DA.DynamicArray<CallBack> {
    if fifo == FB.Fifo0 then d.callBacks0 else d.callBacks1
  }

  /** `dispatchReceivedMessage0` / `dispatchReceivedMessage1`: take one frame from the
      queue and name the callback it selects. */
  function DispatchFrom(d: Driver, fifo: FB.Action): (r: (Driver, bool, Option<nat>))
    requires Valid(d)
    ensures Valid(r.0)
    ensures r.1 <==> Available(d, fifo)
    ensures !r.1 ==> r.0 == d && r.2 == None
    ensures r.1 ==> r.0 == Receive(d, fifo).0
                    && r.2 == CallBackFor(CallBacks(d, fifo), Fifo.Contents(Queue(d, fifo))[0])
  {
    var (d1, m) := Receive(d, fifo);
    if m.Some? then (d1, true, CallBackFor(CallBacks(d, fifo), m.value)) else (d1, false, None)
  }

  /** `dispatchReceivedMessage`: at most one frame from each queue, FIFO 0 first; true
      when either queue had a frame. */
  function DispatchReceivedMessage(d: Driver): (r: (Driver, bool, Option<nat>, Option<nat>))
    requires Valid(d)
    ensures Valid(r.0) && r.0.tx == d.tx
    ensures r.0.callBacks0 == d.callBacks0 && r.0.callBacks1 == d.callBacks1
    ensures r.0.rx0.size == d.rx0.size && r.0.rx1.size == d.rx1.size
    ensures r.1 <==> Available(d, FB.Fifo0) || Available(d, FB.Fifo1)
    ensures Fifo.Contents(r.0.rx0) == if Available(d, FB.Fifo0) then Fifo.Contents(d.rx0)[1..] else Fifo.Contents(d.rx0)
    ensures Fifo.Contents(r.0.rx1) == if Available(d, FB.Fifo1) then Fifo.Contents(d.rx1)[1..] else Fifo.Contents(d.rx1)
    ensures r.2 == if Available(d, FB.Fifo0) then CallBackFor(d.callBacks0, Fifo.Contents(d.rx0)[0]) else None
    ensures r.3 == if Available(d, FB.Fifo1) then CallBackFor(d.callBacks1, Fifo.Contents(d.rx1)[0]) else None
  {
    var (d1, got0, h0) := DispatchFrom(d, FB.Fifo0);
    var (d2, got1, h1) := DispatchFrom(d1, FB.Fifo1);
    (d2, got0 || got1, h0, h1)
  }

  // ---------------------------------------------------------------------------
  // Scenarios
  // ---------------------------------------------------------------------------

  /** With a transmit queue of two entries and mailbox 0 busy, two index-0 frames are
      queued and a third overflows. */
  lemma TransmitOverflowScenario(d: Driver, m: Frame, tsr: nat)
    requires Valid(d) && Fifo.Contents(d.tx) == [] && d.tx.size == 2
    requires m.idx == 0 && !MailboxEmpty(tsr, 0)
    ensures var (d1, s1, _) := TryToSend(d, m, tsr);
      var (d2, s2, _) := TryToSend(d1, m, tsr);
      var (d3, s3, _) := TryToSend(d2, m, tsr);
      s1 == SendOk && s2 == SendOk && s3 == TransmitBufferOverflow && d3 == d2
  {
  }

  /** With the default settings the FIFO 1 queue has no storage, so after a successful
      `begin` every frame arriving in hardware FIFO 1 is dropped. */
  lemma DefaultSettingsDropFifo1(d: Driver, clock: nat, rate: nat, f: FB.Filters,
                                 rfr: nat, rir: nat, rdtr: nat, rdlr: nat, rdhr: nat)
    requires Valid(d) && FB.Valid(f) && NoWrap(clock, rate)
    requires rdlr < WordLimit && rdhr < WordLimit
    ensures var s := Resolve(clock, rate, DefaultTolerancePPM);
      var (d1, e, _) := Begin(d, s, f);
      e == 0 ==> Fifo.Contents(RxIsr(d1, FB.Fifo1, rfr, rir, rdtr, rdlr, rdhr).rx1) == []
  {
  }

  /** Without filters, every identifier word passes the single bank `begin` activates,
      which routes it to FIFO 0, and a frame announced there right after `begin` is the
      frame `receive0` returns. */
  lemma ReceiveAfterBegin(d: Driver, s: Settings, f: FB.Filters,
                          rfr: nat, rir: nat, rdtr: nat, rdlr: nat, rdhr: nat)
    requires Valid(d) && FB.Valid(f) && FB.Count(f) == 0
    requires s.rx0Size <= Fifo.MaxSize && s.rx1Size <= Fifo.MaxSize && s.txSize <= Fifo.MaxSize
    requires s.rx0Size > 0 && rfr % 4 != 0 && rdlr < WordLimit && rdhr < WordLimit
    ensures var (d1, e, cfg) := Begin(d, s, f);
      e == 0 ==>
        && cfg.Some?
        && var img := cfg.value.filters;
        && Flags(img.fa1r, FB.MaxFilterCount)[0] && !Flags(img.ffa1r, FB.MaxFilterCount)[0]
        && MaskMatch(rir, img.fr1[0], img.fr2[0], 32)
        && Receive(RxIsr(d1, FB.Fifo0, rfr, rir, rdtr, rdlr, rdhr), FB.Fifo0).1
           == Some(DecodeRx(rir, rdtr, rdlr, rdhr))
  {
    DefaultBankAcceptsAll(f, rir);
  }
}
