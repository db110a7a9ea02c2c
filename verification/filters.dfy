/** The acceptance-filter builder. Each successful `add` call fills one filter bank of
    the bxCAN peripheral (RM0008, chapter 24 "Controller area network (bxCAN)",
    section "Identifier filtering"): two 32-bit words FR1/FR2, one bit in each of the
    mode (FM1R: 1 = identifier list), scale (FS1R: 1 = single 32-bit) and FIFO
    assignment (FFA1R: 1 = FIFO 1) registers, and one callback per logical filter,
    appended to the table of the FIFO the bank feeds. */
module FilterBank {
  import opened Bits
  import opened Frames
  import DA = DynArray

  const MaxFilterCount: nat := 14
  const StandardIdentifierMax: nat := 0x7FF
  const ExtendedIdentifierMax: nat := 0x1FFF_FFFF

  datatype Action = Fifo0 | Fifo1
  datatype Format = Data | Remote | DataOrRemote
  datatype Shape = StandardMasks | StandardQuad | ExtendedMask | ExtendedDual

  /** Banks of these shapes are in identifier-list mode (FM1R bit set). */
  predicate ListMode(s: Shape) {
    s == StandardQuad || s == ExtendedDual
  }

  /** Banks of these shapes use one 32-bit filter (FS1R bit set). */
  predicate SingleScale(s: Shape) {
    s == ExtendedMask || s == ExtendedDual
  }

  datatype Filters = Filters(
    fr1: DA.DynamicArray<nat>,
    fr2: DA.DynamicArray<nat>,
    fm1r: nat,
    fs1r: nat,
    ffa1r: nat,
    callBacks0: DA.DynamicArray<CallBack>,
    callBacks1: DA.DynamicArray<CallBack>)

  /** Number of banks in use. */
  function Count(f: Filters): nat {
    |f.fr1.items|
  }

  /** Every filter word is a 32-bit value. */
  predicate Words(ws: seq<nat>) {
    forall i :: 0 <= i < |ws| ==> ws[i] < WordLimit
  }

  /** The builder's invariant: both word arrays have one entry per bank, at most 14
      banks, no register bit set at or above the bank count, at most four callbacks
      per bank. */
  predicate Valid(f: Filters) {
    && DA.Valid(f.fr1) && DA.Valid(f.fr2) && DA.Valid(f.callBacks0) && DA.Valid(f.callBacks1)
    && |f.fr1.items| == |f.fr2.items| <= MaxFilterCount
    && Words(f.fr1.items) && Words(f.fr2.items)
    && f.fm1r < Pow2(Count(f)) && f.fs1r < Pow2(Count(f)) && f.ffa1r < Pow2(Count(f))
    && |f.callBacks0.items| + |f.callBacks1.items| <= 4 * Count(f)
  }

  /** The default constructor: no banks, every accumulator zero. */
  function New(): (f: Filters)
    ensures Valid(f) && Count(f) == 0
    ensures f.fm1r == 0 && f.fs1r == 0 && f.ffa1r == 0
    ensures f.callBacks0.items == [] && f.callBacks1.items == []
  {
    Filters(DA.Empty(), DA.Empty(), 0, 0, 0, DA.Empty(), DA.Empty())
  }

  // ---------------------------------------------------------------------------
  // Filter word layouts and their decoders
  // ---------------------------------------------------------------------------

  /** The bits of `a` are among those of `b` (`(a & b) == a`), for values of `n` bits. */
  predicate Within(a: nat, b: nat, n: nat) {
    n == 0 || ((a % 2 == 1 ==> b % 2 == 1) && Within(a / 2, b / 2, n - 1))
  }

  /** `Within` is bitwise containment: every set bit of `a` among the low `n` is set in
      `b`. */
  lemma {:induction false} WithinFlags(a: nat, b: nat, n: nat)
    ensures Within(a, b, n) <==> forall i :: 0 <= i < n ==> (Flags(a, n)[i] ==> Flags(b, n)[i])
  {
    if n > 0 {
      WithinFlags(a / 2, b / 2, n - 1);
      FlagsTail(a, n);
      FlagsTail(b, n);
      if Within(a, b, n) {
        assert a % 2 == 1 ==> b % 2 == 1;
        assert Within(a / 2, b / 2, n - 1);
        forall i | 0 <= i < n && Flags(a, n)[i] ensures Flags(b, n)[i] {
          if i > 0 {
            assert Flags(a / 2, n - 1)[i - 1];
            assert Flags(b / 2, n - 1)[i - 1];
          }
        }
      } else if a % 2 == 1 && b % 2 != 1 {
        assert Flags(a, n)[0] && !Flags(b, n)[0];
      } else {
        var j :| 0 <= j < n - 1 && Flags(a / 2, n - 1)[j] && !Flags(b / 2, n - 1)[j];
        assert Flags(a, n)[j + 1] && !Flags(b, n)[j + 1];
      }
    }
  }

  /** The flags of `w` are its low bit followed by the flags of `w / 2`. */
  lemma FlagsTail(w: nat, n: nat)
    requires n > 0
    ensures Flags(w, n)[0] == (w % 2 == 1)
    ensures forall i :: 1 <= i < n ==> Flags(w, n)[i] == Flags(w / 2, n - 1)[i - 1]
  {
  }

  /** The upper and lower 16-bit halves of a word. */
  function High(w: nat): nat { (w / 0x1_0000) % 0x1_0000 }
  function Low(w: nat): nat { w % 0x1_0000 }

  /** The word whose halves are `high` and `low`. */
  function Pair(high: nat, low: nat): (w: nat)
    requires high < 0x1_0000 && low < 0x1_0000
    ensures w < WordLimit && High(w) == high && Low(w) == low
  {
    DivMulAdd(high, low, 0x1_0000);
    high * 0x1_0000 + low
  }

  /** A 16-bit filter: STID[10:0] at bits 15..5, RTR at bit 4, IDE at bit 3 and
      EXID[17:15] at bits 2..0. */
  function HalfStid(h: nat): nat { (h / 0x20) % 0x800 }
  predicate HalfRtr(h: nat) { (h / 0x10) % 2 == 1 }
  /** IDE and EXID[17:15] clear: an identifier half that describes a standard frame. */
  predicate HalfStandard(h: nat) { h % 0x10 == 0 }
  /** The same four bits clear in a mask half: IDE and EXID[17:15] are not compared, so
      the filter also passes extended frames whose top 11 identifier bits fit. */
  predicate MaskIgnoresIde(h: nat) { h % 0x10 == 0 }

  /** The 16-bit filter for a standard identifier and an RTR bit. */
  function Half(id: nat, rtr: bool): (h: nat)
    requires id <= StandardIdentifierMax
    ensures h < 0x1_0000
    ensures HalfStid(h) == id && HalfRtr(h) == rtr && HalfStandard(h)
  {
    var r := if rtr then 1 else 0;
    DivMulAdd(id, r * 0x10, 0x20);
    DivMulAdd(id * 2 + r, 0, 0x10);
    id * 0x20 + r * 0x10
  }

  /** One standard mask filter: the mask in the high half, the identifier in the low
      half; the mask's RTR bit (bit 20) asks the hardware to compare the RTR bit, and
      the identifier's RTR bit (bit 4) says which kind is wanted. */
  function StandardMaskWord(base: nat, mask: nat, format: Format): (w: nat)
    requires base <= StandardIdentifierMax && mask <= StandardIdentifierMax
    ensures w < WordLimit
    ensures HalfStid(Low(w)) == base && HalfStid(High(w)) == mask
    ensures HalfStandard(Low(w)) && MaskIgnoresIde(High(w))
    ensures StandardMaskFormat(w) == format
  {
    Pair(Half(mask, format != DataOrRemote), Half(base, format == Remote))
  }

  /** The encoding as the source writes it: bit 20 is set before the format is looked
      at (OR-ing it again for a data filter changes nothing), so a filter asked to
      accept both frame kinds compares the RTR bit. */
  function StandardMaskWordAsWritten(base: nat, mask: nat, format: Format): (w: nat)
    requires base <= StandardIdentifierMax && mask <= StandardIdentifierMax
    ensures w < WordLimit
    ensures HalfStid(Low(w)) == base && HalfStid(High(w)) == mask
    ensures HalfStandard(Low(w)) && MaskIgnoresIde(High(w))
    ensures HalfRtr(High(w)) && StandardMaskFormat(w) == AsWrittenFormat(format)
  {
    Pair(Half(mask, true), Half(base, format == Remote))
  }

  /** The frame kinds the source's encoding makes a standard mask filter accept:
      "data or remote" ends up as "data only". */
  function AsWrittenFormat(format: Format): Format {
    if format == DataOrRemote then Data else format
  }

  /** Reads the frame kinds a standard mask word accepts. */
  function StandardMaskFormat(w: nat): Format {
    if !HalfRtr(High(w)) then DataOrRemote
    else if HalfRtr(Low(w)) then Remote
    else Data
  }

  /** As written, "data or remote" is encoded exactly like "data only", so the bank
      only accepts data frames; for the other two formats the source agrees with the
      corrected encoder. */
  lemma DataOrRemoteEncodedAsData(base: nat, mask: nat)
    requires base <= StandardIdentifierMax && mask <= StandardIdentifierMax
    ensures StandardMaskWordAsWritten(base, mask, DataOrRemote)
         == StandardMaskWordAsWritten(base, mask, Data)
    ensures StandardMaskFormat(StandardMaskWordAsWritten(base, mask, DataOrRemote)) == Data
    ensures StandardMaskWordAsWritten(base, mask, Data) == StandardMaskWord(base, mask, Data)
    ensures StandardMaskWordAsWritten(base, mask, Remote) == StandardMaskWord(base, mask, Remote)
    ensures StandardMaskWordAsWritten(base, mask, DataOrRemote)
         != StandardMaskWord(base, mask, DataOrRemote)
  {
    var w := StandardMaskWordAsWritten(base, mask, DataOrRemote);
    assert HalfRtr(High(w));
    assert !HalfRtr(High(StandardMaskWord(base, mask, DataOrRemote)));
  }

  /** Two standard identifiers with their RTR bits, the first in the low half. */
  function StandardPairWord(idLow: nat, rtrLow: bool, idHigh: nat, rtrHigh: bool): (w: nat)
    requires idLow <= StandardIdentifierMax && idHigh <= StandardIdentifierMax
    ensures w < WordLimit
    ensures HalfStid(Low(w)) == idLow && HalfRtr(Low(w)) == rtrLow
    ensures HalfStid(High(w)) == idHigh && HalfRtr(High(w)) == rtrHigh
    ensures HalfStandard(Low(w)) && HalfStandard(High(w))
  {
    Pair(Half(idHigh, rtrHigh), Half(idLow, rtrLow))
  }

  /** A 32-bit filter: STID/EXID at bits 31..3, IDE at bit 2, RTR at bit 1, bit 0 clear. */
  function ExtId(w: nat): nat { (w / 8) % 0x2000_0000 }
  predicate ExtIde(w: nat) { (w / 4) % 2 == 1 }
  predicate ExtRtr(w: nat) { (w / 2) % 2 == 1 }

  /** The 32-bit filter word for an extended identifier (IDE set) and an RTR bit. */
  function ExtendedWord(id: nat, rtr: bool): (w: nat)
    requires id <= ExtendedIdentifierMax
    ensures w < WordLimit && w % 2 == 0
    ensures ExtId(w) == id && ExtIde(w) && ExtRtr(w) == rtr
  {
    var r := if rtr then 1 else 0;
    DivMulAdd(id, 4 + r * 2, 8);
    DivMulAdd(id * 2 + 1, r * 2, 4);
    DivMulAdd(id * 4 + 2 + r, 0, 2);
    id * 8 + 4 + r * 2
  }

  /** Reads the frame kinds an extended mask bank (identifier word, mask word) accepts. */
  function ExtendedMaskFormat(id: nat, mask: nat): Format {
    if !ExtRtr(mask) then DataOrRemote
    else if ExtRtr(id) then Remote
    else Data
  }

  // ---------------------------------------------------------------------------
  // Bank accumulation
  // ---------------------------------------------------------------------------

  /** `g` is `f` with one more bank of shape `shape` routed by `action`, holding the
      words `w1`, `w2` and binding the callbacks `cbs`: bank `n` of each flag register
      records the shape and route, and the flags of the earlier banks are kept. */
  predicate BankAdded(f: Filters, g: Filters, shape: Shape, action: Action,
                      w1: nat, w2: nat, cbs: seq<CallBack>)
  {
    var n := Count(f);
    && n < MaxFilterCount
    && g.fr1.items == f.fr1.items + [w1]
    && g.fr2.items == f.fr2.items + [w2]
    && Flags(g.fm1r, n + 1) == Flags(f.fm1r, n) + [ListMode(shape)]
    && Flags(g.fs1r, n + 1) == Flags(f.fs1r, n) + [SingleScale(shape)]
    && Flags(g.ffa1r, n + 1) == Flags(f.ffa1r, n) + [action == Fifo1]
    && (action == Fifo0 ==> g.callBacks0.items == f.callBacks0.items + cbs && g.callBacks1 == f.callBacks1)
    && (action == Fifo1 ==> g.callBacks1.items == f.callBacks1.items + cbs && g.callBacks0 == f.callBacks0)
  }

  /** `w |= 1U << n` when `cond` holds, on a word with no bit at or above `n`. */
  function SetFlag(w: nat, n: nat, cond: bool): (r: nat)
    requires w < Pow2(n)
    ensures r < Pow2(n + 1)
    ensures Flags(r, n + 1) == Flags(w, n) + [cond]
  {
    AddFlag(w, n, cond);
    if cond then w + Pow2(n) else w
  }

  /** Appends the callbacks one by one. */
  function AppendAll(a: DA.DynamicArray<CallBack>, cbs: seq<CallBack>): (r: DA.DynamicArray<CallBack>)
    requires DA.Valid(a) && |a.items| + |cbs| <= DA.MaxCount
    ensures DA.Valid(r) && r.items == a.items + cbs
    decreases |cbs|
  {
    if cbs == [] then
      a
    else
      var r := AppendAll(DA.Append(a, cbs[0]), cbs[1..]);
      assert a.items + [cbs[0]] + cbs[1..] == a.items + cbs;
      r
  }

  /** The common tail of every successful `add`: record the bank and its callbacks. */
  function AddBank(f: Filters, shape: Shape, action: Action, w1: nat, w2: nat,
                   cbs: seq<CallBack>): (g: Filters)
    requires Valid(f) && Count(f) < MaxFilterCount && 1 <= |cbs| <= 4
    requires w1 < WordLimit && w2 < WordLimit
    ensures Valid(g) && Count(g) == Count(f) + 1
    ensures BankAdded(f, g, shape, action, w1, w2, cbs)
  {
    var n := Count(f);
    var g := Filters(
      DA.Append(f.fr1, w1),
      DA.Append(f.fr2, w2),
      SetFlag(f.fm1r, n, ListMode(shape)),
      SetFlag(f.fs1r, n, SingleScale(shape)),
      SetFlag(f.ffa1r, n, action == Fifo1),
      if action == Fifo0 then AppendAll(f.callBacks0, cbs) else f.callBacks0,
      if action == Fifo1 then AppendAll(f.callBacks1, cbs) else f.callBacks1);
    assert Count(g) == n + 1;
    g
  }

  // ---------------------------------------------------------------------------
  // The four `add` entry points (the overloads without callbacks pass null ones)
  // ---------------------------------------------------------------------------

  /** An 11-bit mask filter operand pair: both in range and the base inside the mask. */
  predicate StandardMaskOk(base: nat, mask: nat) {
    base <= StandardIdentifierMax && mask <= StandardIdentifierMax && Within(base, mask, 11)
  }

  /** `addStandardMasks`: two standard mask filters in one dual 16-bit mask-mode bank,
      encoded as the source writes them, so a "data or remote" filter accepts data
      frames only. */
  function AddStandardMasks(f: Filters,
                            base1: nat, mask1: nat, format1: Format, cb1: CallBack,
                            base2: nat, mask2: nat, format2: Format, cb2: CallBack,
                            action: Action): (r: (Filters, bool))
    requires Valid(f)
    ensures Valid(r.0)
    ensures r.1 <==> StandardMaskOk(base1, mask1) && StandardMaskOk(base2, mask2)
                     && Count(f) < MaxFilterCount
    ensures !r.1 ==> r.0 == f
    ensures r.1 ==> Count(r.0) == Count(f) + 1
    ensures r.1 ==> var w1 := r.0.fr1.items[Count(f)]; var w2 := r.0.fr2.items[Count(f)];
      && BankAdded(f, r.0, StandardMasks, action, w1, w2, [cb1, cb2])
      && HalfStid(Low(w1)) == base1 && HalfStid(High(w1)) == mask1
      && StandardMaskFormat(w1) == AsWrittenFormat(format1)
      && HalfStandard(Low(w1)) && MaskIgnoresIde(High(w1))
      && HalfStid(Low(w2)) == base2 && HalfStid(High(w2)) == mask2
      && StandardMaskFormat(w2) == AsWrittenFormat(format2)
      && HalfStandard(Low(w2)) && MaskIgnoresIde(High(w2))
  {
    if StandardMaskOk(base1, mask1) && StandardMaskOk(base2, mask2) && Count(f) < MaxFilterCount then
      var w1 := StandardMaskWordAsWritten(base1, mask1, format1);
      var w2 := StandardMaskWordAsWritten(base2, mask2, format2);
      (AddBank(f, StandardMasks, action, w1, w2, [cb1, cb2]), true)
    else
      (f, false)
  }

  /** `addStandardMasks` with the corrected word layout: each filter accepts exactly
      the frame kinds its format names. */
  function AddStandardMasksCorrected(f: Filters,
                                     base1: nat, mask1: nat, format1: Format, cb1: CallBack,
                                     base2: nat, mask2: nat, format2: Format, cb2: CallBack,
                                     action: Action): (r: (Filters, bool))
    requires Valid(f)
    ensures Valid(r.0)
    ensures r.1 <==> StandardMaskOk(base1, mask1) && StandardMaskOk(base2, mask2)
                     && Count(f) < MaxFilterCount
    ensures !r.1 ==> r.0 == f
    ensures r.1 ==> Count(r.0) == Count(f) + 1
    ensures r.1 ==> var w1 := r.0.fr1.items[Count(f)]; var w2 := r.0.fr2.items[Count(f)];
      && BankAdded(f, r.0, StandardMasks, action, w1, w2, [cb1, cb2])
      && HalfStid(Low(w1)) == base1 && HalfStid(High(w1)) == mask1
      && StandardMaskFormat(w1) == format1 && HalfStandard(Low(w1)) && MaskIgnoresIde(High(w1))
      && HalfStid(Low(w2)) == base2 && HalfStid(High(w2)) == mask2
      && StandardMaskFormat(w2) == format2 && HalfStandard(Low(w2)) && MaskIgnoresIde(High(w2))
  {
    if StandardMaskOk(base1, mask1) && StandardMaskOk(base2, mask2) && Count(f) < MaxFilterCount then
      var w1 := StandardMaskWord(base1, mask1, format1);
      var w2 := StandardMaskWord(base2, mask2, format2);
      (AddBank(f, StandardMasks, action, w1, w2, [cb1, cb2]), true)
    else
      (f, false)
  }

  /** The two encodings build the same bank unless a filter asks for "data or remote";
      when one does, the source's bank differs from the corrected one. */
  lemma AddStandardMasksAgreeOffDataOrRemote(f: Filters,
                                             base1: nat, mask1: nat, format1: Format, cb1: CallBack,
                                             base2: nat, mask2: nat, format2: Format, cb2: CallBack,
                                             action: Action)
    requires Valid(f)
    requires StandardMaskOk(base1, mask1) && StandardMaskOk(base2, mask2) && Count(f) < MaxFilterCount
    ensures (format1 != DataOrRemote && format2 != DataOrRemote) <==>
      AddStandardMasks(f, base1, mask1, format1, cb1, base2, mask2, format2, cb2, action)
      == AddStandardMasksCorrected(f, base1, mask1, format1, cb1, base2, mask2, format2, cb2, action)
  {
    DataOrRemoteEncodedAsData(base1, mask1);
    DataOrRemoteEncodedAsData(base2, mask2);
    var a := AddStandardMasks(f, base1, mask1, format1, cb1, base2, mask2, format2, cb2, action);
    var c := AddStandardMasksCorrected(f, base1, mask1, format1, cb1, base2, mask2, format2, cb2, action);
    var n := Count(f);
    if format1 == DataOrRemote {
      assert a.0.fr1.items[n] != c.0.fr1.items[n];
    } else if format2 == DataOrRemote {
      assert a.0.fr2.items[n] != c.0.fr2.items[n];
    }
  }

  /** `addStandardQuad`: four standard identifiers in one dual 16-bit list-mode bank. */
  function AddStandardQuad(f: Filters,
                           id1: nat, rtr1: bool, cb1: CallBack,
                           id2: nat, rtr2: bool, cb2: CallBack,
                           id3: nat, rtr3: bool, cb3: CallBack,
                           id4: nat, rtr4: bool, cb4: CallBack,
                           action: Action): (r: (Filters, bool))
    requires Valid(f)
    ensures Valid(r.0)
    ensures r.1 <==> id1 <= StandardIdentifierMax && id2 <= StandardIdentifierMax
                     && id3 <= StandardIdentifierMax && id4 <= StandardIdentifierMax
                     && Count(f) < MaxFilterCount
    ensures !r.1 ==> r.0 == f
    ensures r.1 ==> Count(r.0) == Count(f) + 1
    ensures r.1 ==> var w1 := r.0.fr1.items[Count(f)]; var w2 := r.0.fr2.items[Count(f)];
      && BankAdded(f, r.0, StandardQuad, action, w1, w2, [cb1, cb2, cb3, cb4])
      && HalfStid(Low(w1)) == id1 && HalfRtr(Low(w1)) == rtr1
      && HalfStid(High(w1)) == id2 && HalfRtr(High(w1)) == rtr2
      && HalfStid(Low(w2)) == id3 && HalfRtr(Low(w2)) == rtr3
      && HalfStid(High(w2)) == id4 && HalfRtr(High(w2)) == rtr4
      && HalfStandard(Low(w1)) && HalfStandard(High(w1))
      && HalfStandard(Low(w2)) && HalfStandard(High(w2))
  {
    if id1 <= StandardIdentifierMax && id2 <= StandardIdentifierMax
       && id3 <= StandardIdentifierMax && id4 <= StandardIdentifierMax
       && Count(f) < MaxFilterCount
    then
      var w1 := StandardPairWord(id1, rtr1, id2, rtr2);
      var w2 := StandardPairWord(id3, rtr3, id4, rtr4);
      (AddBank(f, StandardQuad, action, w1, w2, [cb1, cb2, cb3, cb4]), true)
    else
      (f, false)
  }

  /** A 29-bit mask filter operand pair: both in range and the base inside the mask. */
  predicate ExtendedMaskOk(base: nat, mask: nat) {
    base <= ExtendedIdentifierMax && mask <= ExtendedIdentifierMax && Within(base, mask, 29)
  }

  /** `addExtendedMask`: one extended mask filter in a single 32-bit mask-mode bank. */
  function AddExtendedMask(f: Filters, base: nat, mask: nat, format: Format, cb: CallBack,
                           action: Action): (r: (Filters, bool))
    requires Valid(f)
    ensures Valid(r.0)
    ensures r.1 <==> ExtendedMaskOk(base, mask) && Count(f) < MaxFilterCount
    ensures !r.1 ==> r.0 == f
    ensures r.1 ==> Count(r.0) == Count(f) + 1
    ensures r.1 ==> var w1 := r.0.fr1.items[Count(f)]; var w2 := r.0.fr2.items[Count(f)];
      && BankAdded(f, r.0, ExtendedMask, action, w1, w2, [cb])
      && ExtId(w1) == base && ExtId(w2) == mask && ExtIde(w1) && ExtIde(w2)
      && ExtendedMaskFormat(w1, w2) == format
  {
    if ExtendedMaskOk(base, mask) && Count(f) < MaxFilterCount then
      var w1 := ExtendedWord(base, format == Remote);
      var w2 := ExtendedWord(mask, format != DataOrRemote);
      (AddBank(f, ExtendedMask, action, w1, w2, [cb]), true)
    else
      (f, false)
  }

  /** `addExtendedDual`: two extended identifiers in a single 32-bit list-mode bank. */
  function AddExtendedDual(f: Filters, id1: nat, rtr1: bool, cb1: CallBack,
                           id2: nat, rtr2: bool, cb2: CallBack,
                           action: Action): (r: (Filters, bool))
    requires Valid(f)
    ensures Valid(r.0)
    ensures r.1 <==> id1 <= ExtendedIdentifierMax && id2 <= ExtendedIdentifierMax
                     && Count(f) < MaxFilterCount
    ensures !r.1 ==> r.0 == f
    ensures r.1 ==> Count(r.0) == Count(f) + 1
    ensures r.1 ==> var w1 := r.0.fr1.items[Count(f)]; var w2 := r.0.fr2.items[Count(f)];
      && BankAdded(f, r.0, ExtendedDual, action, w1, w2, [cb1, cb2])
      && ExtId(w1) == id1 && ExtIde(w1) && ExtRtr(w1) == rtr1
      && ExtId(w2) == id2 && ExtIde(w2) && ExtRtr(w2) == rtr2
  {
    if id1 <= ExtendedIdentifierMax && id2 <= ExtendedIdentifierMax && Count(f) < MaxFilterCount then
      var w1 := ExtendedWord(id1, rtr1);
      var w2 := ExtendedWord(id2, rtr2);
      (AddBank(f, ExtendedDual, action, w1, w2, [cb1, cb2]), true)
    else
      (f, false)
  }

  /** A mask filter's base must lie within its mask: the first bank is accepted and the
      second leaves the builder unchanged. */
  lemma MaskContainmentExample(f: Filters)
    requires Valid(f) && Count(f) < MaxFilterCount
    ensures AddStandardMasks(f, 0x010, 0x7F0, Data, NullCallBack, 0x010, 0x7F0, Data, NullCallBack, Fifo0).1
    ensures AddStandardMasks(f, 0x011, 0x7F0, Data, NullCallBack, 0x010, 0x7F0, Data, NullCallBack, Fifo0)
            == (f, false)
  {
  }
}
