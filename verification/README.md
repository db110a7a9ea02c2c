# bxCAN driver core for STM32, modelled in Dafny

This project models the decision logic of the ACAN_STM32 driver for the bxCAN peripheral
of STM32 microcontrollers. It covers five parts.

- **`Fifo`**: the fixed-capacity circular frame queue behind the two receive queues and the
  transmit queue.
- **`BitTiming`**: the bit-timing resolver in the settings constructor. It picks the
  prescaler and the quantum count whose rate error is smallest, then splits the quanta
  into phase segments. This part also covers the settings queries and
  `CANBitSettingConsistency`.
- **`DynArray`**: the driver's private growable array. Its capacity and count are 8-bit
  values.
- **`FilterBank`**: the acceptance-filter builder (`ACAN_STM32::Filters`). Each `add` fills
  one hardware filter bank: two 32-bit words, and one bit in each of the mode, scale and
  FIFO-assignment registers. It also records the callbacks, one per logical filter.
- **`Driver`**: the rest of the driver.
  - the `begin` error gate and the register images `begin` writes: BTR, the filter
    registers, IER and MCR
  - `end`
  - transmit admission through the software queue and the three mailboxes
    (`tryToSendReturnStatus`, `sendBufferNotFullForIndex`)
  - the mailbox write
  - the receive and transmit interrupt handlers
  - receive and dispatch by filter-match index

Register words are naturals below 2^32. A field `x << k` written into bits that are
otherwise clear is `x * 2^k`, and an OR of disjoint fields is their sum. A field is read
back by division and remainder. Register layouts are those of the reference manual RM0008,
chapter 24. Hardware status registers (TSR, RFxR, the receive mailbox words) are
parameters. Every register the driver writes is part of a returned value.

`Frames.Frame` stands for `CANMessage`. Its fields are `id`, `rtr`, `ext`, `len`, the two
32-bit data words and the index `idx`. A callback is either null or an opaque routine
handle. The CANMessage header is not part of this model.

A remark on the consistency check (`PhaseSegment2ZeroNeverAlone`): whenever phase
segment 2 is zero, the jump width is either zero or larger than phase segment 2, so a
second error bit is always set. `Consistency` can therefore never return
`kPhaseSegment2IsZero` on its own.

## Model

| member | source | states |
|---|---|---|
| Fifo.New | src/ACAN_STM32_FIFO.cpp:9-15 | A default queue is valid and empty, with size and peak count zero |
| Fifo.InitWithSize | src/ACAN_STM32_FIFO.cpp:29-36 | After initWithSize the queue is empty and has the requested capacity, with peak count and read index reset |
| Fifo.Slot | src/ACAN_STM32_FIFO.cpp:45-48 | The write index, computed with one conditional subtraction, equals (readIndex + i) mod size and stays inside the buffer |
| Fifo.WriteIndexAsWritten | src/ACAN_STM32_FIFO.cpp:45-48 | The write index computed in 16 bits fits a 16-bit register. For sizes up to 32768 the sum cannot wrap and the index equals (readIndex + count) mod size |
| Fifo.WriteIndexWrapsAboveMaxSize | src/ACAN_STM32_FIFO.cpp:45-48 | With size 65535, read index 65534 and count 10, the 16-bit write index is 8, not the intended 9 |
| Fifo.Append | src/ACAN_STM32_FIFO.cpp:42-56 | Append succeeds iff count < size. On failure nothing changes. On success the abstract contents gain the frame at the back and the peak count becomes the max of old peak and new count |
| Fifo.Remove | src/ACAN_STM32_FIFO.cpp:62-73 | Remove fails iff the queue is empty, changing nothing. On success it returns the oldest frame, drops it from the contents and advances the read index modulo size |
| Fifo.Free | src/ACAN_STM32_FIFO.cpp:79-85 | After free the queue is valid, with size 0, no contents and peak count 0 |
| Fifo.ResetPeakCount | src/ACAN_STM32_FIFO.h:73 | The peak count becomes the current occupancy; the contents are unchanged |
| Fifo.IsEmpty | src/ACAN_STM32_FIFO.h:41 | isEmpty holds iff the abstract contents are empty |
| Fifo.IsFull | src/ACAN_STM32_FIFO.h:42 | isFull holds iff the occupancy equals the size, iff the next append would be refused |
| Fifo.Count | src/ACAN_STM32_FIFO.h:40 | count is the length of the abstract contents and never exceeds size |
| Fifo.AppendAll | src/ACAN_STM32_FIFO.cpp:42-56 | Repeated append succeeds iff all frames fit, and then the contents are the old ones followed by the frames |
| Fifo.RemoveUpTo | src/ACAN_STM32_FIFO.cpp:62-73 | Repeated remove yields min(k, count) frames, which are a prefix of the contents, and leaves the rest |
| Fifo.FillToCapacity | src/ACAN_STM32_FIFO.cpp:42-56 | A fresh queue of size n takes exactly n frames, reaches peak count n, is full, and refuses the next frame |
| Fifo.FifoOrder | src/ACAN_STM32_FIFO.cpp:42-73 | From any empty state, including across read-index wrap-around, frames leave in the order they were appended |
| Fifo.ZeroSizeRefusesAll | src/ACAN_STM32_FIFO.h:41-42 | A queue of size 0 is both empty and full and refuses every frame |
| BitTiming.Resolve | src/ACAN_STM32_Settings.cpp:7-64 | The constructor yields a consistent setting. In it: prescaler 1..1024, 5..25 quanta, PS2 = 1 + 2*tq/7 with PS1 the rest, RJW = min(PS2, 4), and triple sampling iff rate <= 125000 and PS1 > 1. The clock the setting needs is positive and below 2^32, so the constructor's 32-bit product W does not wrap, and closeEnough holds iff that clock is within the tolerance in ppm. Defaults are Normal mode, by-identifier priority and queue sizes 32/0/16 |
| BitTiming.Segments | src/ACAN_STM32_Settings.cpp:43-54 | PS2 is 1 + 2*tq/7. The phase segments and the sync quantum add up to the quantum count, with 2 <= PS1 <= 16 and 2 <= PS2 <= 8 |
| BitTiming.WinnerFits | src/ACAN_STM32_Settings.cpp:10-41 | The pair the search keeps needs a clock below 2^32: a candidate prescaler is at most one above the floor one, and the 1024 x 25 default is kept only when even it needs less than the clock |
| BitTiming.BestChoice | src/ACAN_STM32_Settings.cpp:10-41 | The search result has an error no larger than that of any (quantum count, prescaler) pair the loop examines |
| BitTiming.ResolveIsOptimal | src/ACAN_STM32_Settings.cpp:10-41 | The chosen pair has minimal error among all examined pairs. Among pairs of equal error, it is the first one the loop examines |
| BitTiming.ActualBitRate | src/ACAN_STM32_Settings.cpp:68-71 | actualBitRate is the floor of clock / (brp * quanta), and equals the wished rate whenever the clock equals the clock the setting needs |
| BitTiming.ExactBitRate | src/ACAN_STM32_Settings.cpp:75-78 | The product of prescaler, rate and quanta is taken modulo 2^32. When it does not wrap, exactBitRate holds iff brp * quanta divides the clock with quotient the wished rate. With prescaler 0 it holds iff the clock is 0 |
| BitTiming.ExactBitRateWraps | src/ACAN_STM32_Settings.cpp:75-78 | With a hand-set prescaler 1024, 25 quanta and 1 Mbit/s, the product wraps, so a 4125163520 Hz clock counts as exact although it gives 161139 bit/s |
| BitTiming.PpmFromWishedBitRate | src/ACAN_STM32_Settings.cpp:82-88 | Needs a non-zero 32-bit product W, which the source divides by. The result fits in 32 bits and is 0 for an exact rate. Whenever the quotient fits in 32 bits, it is the distance between clock and W, times 10^6, divided by W and rounded down |
| BitTiming.PpmWithinTolerance | src/ACAN_STM32_Settings.cpp:82-88 | A setting whose needed clock fits in 32 bits and is within the tolerance reports a ppm deviation of at most the tolerance |
| BitTiming.CloseEnoughWithinTolerance | src/ACAN_STM32_Settings.cpp:59-63 | When the constructor reports closeEnough, ppmFromWishedBitRate is within the requested tolerance |
| BitTiming.SamplePointFromBitStart | src/ACAN_STM32_Settings.cpp:92-97 | The sample point is floor(100 * (1 + PS1) / quanta) percent, below 100 when PS2 >= 1 |
| BitTiming.Consistency | src/ACAN_STM32_Settings.cpp:101-130 | The result is 0 iff the setting is consistent. Each of the ten error bits is set iff its own range or relation is violated, and no other bit is ever set |
| BitTiming.ResolvedIsConsistent | src/ACAN_STM32_Settings.cpp:7-64 | Every setting the constructor builds passes the consistency check |
| BitTiming.PhaseSegment2ZeroNeverAlone | src/ACAN_STM32_Settings.cpp:101-130 | With PS2 = 0 the result is never the PS2-is-zero bit alone; an RJW error bit is always set with it |
| DynArray.Empty | src/ACAN_STM32.h:74-76 | A default array is valid and empty |
| DynArray.Append | src/ACAN_STM32.h:25-37 | append keeps the earlier elements, puts the new one last and never shrinks the capacity |
| DynArray.Free | src/ACAN_STM32.h:40-45 | free leaves no element and zero capacity |
| DynArray.SetCapacity | src/ACAN_STM32.h:47-57 | setCapacity keeps the elements and raises the capacity to n only if it was smaller |
| DynArray.AppendEach | src/ACAN_STM32.h:59-68 | Appending a sequence into large enough storage yields old elements followed by the sequence, with the capacity kept |
| DynArray.CopyTo | src/ACAN_STM32.h:59-68 | copyTo leaves the target holding exactly the source's elements, whatever it held before |
| FilterBank.New | src/ACAN_STM32.h:179-185 | A default builder is valid and has no bank, zero mode, scale and FIFO flags and no callback |
| FilterBank.WithinFlags | src/ACAN_STM32.cpp:533-536 | The recursive containment test equals `(a & b) == a`: every set bit of a is set in b |
| FilterBank.Pair | src/ACAN_STM32.cpp:550 | The word built from two 16-bit halves gives back each half |
| FilterBank.Half | src/ACAN_STM32.cpp:550-560 | A 16-bit filter reads back its standard identifier and RTR bit, with IDE and EXID clear |
| FilterBank.StandardMaskWord | src/ACAN_STM32.cpp:550-572 | Corrected encoding of one standard mask filter. It decodes to its identifier and mask, and to exactly the requested frame format, including data-or-remote. The identifier half has IDE and EXID clear. The mask half leaves IDE uncompared, so extended frames whose top 11 bits fit also match |
| FilterBank.StandardMaskWordAsWritten | src/ACAN_STM32.cpp:550-572 | The encoding as written always sets the mask's RTR bit, so it decodes as the requested format with data-or-remote turned into data. Identifier and mask halves decode as in the corrected encoding |
| FilterBank.DataOrRemoteEncodedAsData | src/ACAN_STM32.cpp:550-572 | As written, data-or-remote gives the same word as data and decodes as data. It differs from the corrected word only for that format |
| FilterBank.StandardPairWord | src/ACAN_STM32.cpp:634-648 | Two standard identifiers with their RTR bits, each read back from its own half |
| FilterBank.ExtendedWord | src/ACAN_STM32.cpp:744-752 | A 32-bit filter reads back its 29-bit identifier, IDE set, and its RTR bit |
| FilterBank.SetFlag | src/ACAN_STM32.cpp:618 | Setting bank bit n on a word with no bit at or above n appends one flag and keeps the lower ones |
| FilterBank.AppendAll | src/ACAN_STM32.cpp:539-549 | The callbacks are appended in order after the existing ones |
| FilterBank.AddBank | src/ACAN_STM32.cpp:538-574 | Records one bank. Words are appended, bit n of FM1R, FS1R and FFA1R records shape and FIFO, earlier bits are kept, and the callbacks go to the chosen FIFO's table only |
| FilterBank.AddStandardMasks | src/ACAN_STM32.cpp:521-576 | Succeeds iff both identifier/mask pairs are 11-bit, each base lies within its mask, and fewer than 14 banks exist. On failure nothing changes. On success one dual 16-bit mask bank is added, encoded as written: its words decode to the bases and masks, and to the requested formats with data-or-remote turned into data |
| FilterBank.AddStandardMasksCorrected | src/ACAN_STM32.cpp:521-576 | The same success condition and bank, encoded with the corrected layout, so each filter decodes to exactly its requested format |
| FilterBank.AddStandardMasksAgreeOffDataOrRemote | src/ACAN_STM32.cpp:550-572 | For accepted operands, the as-written and corrected builders give the same result iff neither filter asks for data-or-remote |
| FilterBank.AddStandardQuad | src/ACAN_STM32.cpp:598-652 | Succeeds iff all four identifiers are 11-bit and a bank is free. On failure nothing changes. On success one 16-bit list bank is added holding the four identifiers with their RTR bits, each with IDE and EXID clear, so they match standard frames only |
| FilterBank.AddExtendedMask | src/ACAN_STM32.cpp:665-703 | Succeeds iff base and mask are 29-bit, the base lies within the mask, and a bank is free. On success one 32-bit mask bank decodes to base, mask and format |
| FilterBank.AddExtendedDual | src/ACAN_STM32.cpp:719-756 | Succeeds iff both identifiers are 29-bit and a bank is free. On success one 32-bit list bank holds both identifiers with their RTR bits |
| FilterBank.MaskContainmentExample | src/ACAN_STM32.cpp:531-537 | A base inside its mask is accepted. A base with a bit outside the mask is refused, leaving the builder unchanged |
| Driver.New | src/ACAN_STM32.cpp:15-43 | A constructed driver has queues without storage and empty callback tables |
| Driver.BeginStatus | src/ACAN_STM32.cpp:72-83 | The status is 0 iff the timing is consistent and close enough. Otherwise it is the consistency mask when inconsistent, or the rate-too-far bit when only the rate is off. The two kinds are never combined |
| Driver.BtrWord | src/ACAN_STM32.cpp:138-162 | The BTR fields decode to the prescaler, PS1, PS2 and RJW. LBKM and SILM decode to the module mode |
| Driver.BtrFields | src/ACAN_STM32.cpp:138-146 | The four timing fields and two mode bits, placed at their positions, read back unchanged and fit in 32 bits |
| Driver.ConfigureFilters | src/ACAN_STM32.cpp:166-190 | With no filter, one 32-bit mask bank with zero words, feeding FIFO 0, is active. Otherwise exactly the builder's banks are active, with its words and flags, and no bit is set for unused banks |
| Driver.ZeroFlags | src/ACAN_STM32.cpp:167-171 | A cleared register has every bank flag clear |
| Driver.FlagsPrefix | src/ACAN_STM32.cpp:184-187 | A register with no bit at or above n has only clear flags beyond bank n |
| Driver.ZeroMaskMatchesAll | src/ACAN_STM32.cpp:175-176 | A zero mask accepts every identifier |
| Driver.DefaultBankAcceptsAll | src/ACAN_STM32.cpp:172-177 | Without filters, bank 0 is active, single 32-bit, mask mode and FIFO 0, and accepts every frame |
| Driver.McrWord | src/ACAN_STM32.cpp:208-212 | MCR has ABOM set, and TXFP set iff the transmit priority is by request order |
| Driver.Begin | src/ACAN_STM32.cpp:72-228 | On a non-zero status nothing changes and nothing is configured. On success the three queues are empty with the configured sizes, the callback tables equal the builder's, and BTR, filters, IER and MCR are configured |
| Driver.End | src/ACAN_STM32.cpp:49-62 | All three queues and both callback tables are released |
| Driver.WriteTxRegisters | src/ACAN_STM32.cpp:376-393 | TIR holds the identifier truncated to 11 or 29 bits, IDE, RTR and the transmit request. TDTR holds len mod 16, and TDLR/TDHR hold the data words |
| Driver.DecodeRx | src/ACAN_STM32.cpp:402-417 | rtr is RIR bit 1 and ext is bit 2. The id is RIR bits 31..3 for an extended frame and bits 31..21 for a standard one, so it has 29 or 11 bits. len is the low nibble of RDTR, idx is RDTR bits 15..8, and the data words are RDLR and RDHR |
| Driver.DecodeRxIgnoresBit0 | src/ACAN_STM32.cpp:402-417 | The decoding ignores RIR bit 0, so a received word decodes like the same word with the transmit request set, and the transmit-side round trip applies to it |
| Driver.RxTxRoundTrip | src/ACAN_STM32.cpp:376-417 | A received RIR word with bit 0 clear, and for a standard frame EXID bits clear, is rebuilt by writing the decoded frame, up to the transmit request. The length code and data words come back too |
| Driver.TxRxRoundTrip | src/ACAN_STM32.cpp:376-417 | Decoding what writeTxRegisters wrote gives the frame with its identifier and length cut to register width, and the receiver's index. A frame that fits comes back unchanged apart from the index |
| Driver.SendBufferNotFullForIndex | src/ACAN_STM32.cpp:323-333 | Index 0 has room iff the queue is not full. Index 1 or 2 has room iff that mailbox is empty. Any larger index never has room |
| Driver.TryToSend | src/ACAN_STM32.cpp:337-372 | Index 0 is written to mailbox 0 iff the queue is empty and mailbox 0 is free, and is queued otherwise. Index 1/2 is written iff its mailbox is free. The status is too-large iff the index > 2, and overflow exactly when the frame is neither written nor queued, in which case nothing changes |
| Driver.NotFullPredictsSend | src/ACAN_STM32.cpp:323-372 | Room for the frame's index implies status 0, with equivalence for indices other than 0. A size-0 queue reports no room, yet still lets a frame through to a free mailbox 0 |
| Driver.TxIsr | src/ACAN_STM32.cpp:478-497 | The handler writes iff a frame is queued and some mailbox is empty. It writes the oldest queued frame to the mailbox CODE names and removes that frame. Otherwise nothing changes |
| Driver.TxIsrWritesEmptyMailbox | src/ACAN_STM32.cpp:481-492 | If CODE names an empty mailbox whenever one exists, the handler only writes to an empty mailbox 0..2 |
| Driver.QueuedFramesLeaveInOrder | src/ACAN_STM32.cpp:337-497 | Two index-0 frames sent while mailbox 0 is busy are queued, and two transmit interrupts write them in send order |
| Driver.ReceiveIntoQueue | src/ACAN_STM32.cpp:400-419 | A pending hardware frame is decoded and appended unless the queue is full, in which case it is dropped. With nothing pending nothing changes |
| Driver.RxIsr | src/ACAN_STM32.cpp:399-474 | The FIFO 0 and FIFO 1 handlers each change only their own driver queue |
| Driver.Available | src/ACAN_STM32.cpp:234-257 | available holds iff the queue has a frame |
| Driver.Receive | src/ACAN_STM32.cpp:243-266 | receive returns the oldest frame of that queue iff one exists and removes only it. The other queue, the transmit queue and the callbacks are unchanged |
| Driver.CallBackFor | src/ACAN_STM32.cpp:270-279 | A routine is called iff idx is below the table length and the entry is not null, and it is that entry |
| Driver.DispatchFrom | src/ACAN_STM32.cpp:299-317 | Returns true iff a frame was available. The frame is the oldest one, and the callback is the one its filter index selects |
| Driver.DispatchReceivedMessage | src/ACAN_STM32.cpp:283-295 | Takes at most one frame from each queue, FIFO 0 first, dispatching each through its own table, and returns true iff either queue had a frame. The callback tables, the queue sizes and the transmit queue are unchanged |
| Driver.TransmitOverflowScenario | src/ACAN_STM32.cpp:337-350 | With a 2-entry queue and mailbox 0 busy, three index-0 sends give 0, 0 and overflow, and the third changes nothing |
| Driver.DefaultSettingsDropFifo1 | src/ACAN_STM32_Settings.h:60-61 | With default sizes the FIFO 1 queue has no storage, so after begin every frame arriving in FIFO 1 is dropped |
| Driver.ReceiveAfterBegin | src/ACAN_STM32.cpp:166-190 | Without filters, after a successful begin, the one active bank routes to FIFO 0 and passes every identifier word, and a pending FIFO 0 frame is the frame receive0 returns |

## Left out

- I/O is not modelled: clock enabling, peripheral reset, GPIO setup, NVIC enabling, and the busy-waits on INAK, INRQ and TME0 (ACAN_STM32.cpp:101-134, 213-224).
- Interrupt masking around queue accesses (`noInterrupts`/`interrupts`) is not modelled. Each operation is atomic here.
- The flag clearing in the interrupt handlers (RFOM, FULL, FOVR, RQCP0) is not modelled. It only acknowledges hardware and does not affect the driver's state.
- Calling a callback is not modelled. Dispatch returns the selected routine's handle.
- The CMSIS register-position macros are not part of this model. Bit positions are taken from RM0008 chapter 24.
- Driver.Begin: requires queue sizes of at most 32768, while the source accepts any uint16. Beyond 32768 the 16-bit write index in `append` can wrap (see Findings).
- Fifo.InitWithSize: requires a size of at most 32768, for the same reason.
- DynArray.Append: requires fewer than 192 elements, because at 192 the 8-bit capacity would wrap to zero. A builder never exceeds 14 banks or 56 callbacks.
- BitTiming.Resolve: requires `clock + 25 * rate` to fit in 32 bits and a positive rate, so that the uint32 error arithmetic does not wrap.
- BitTiming.PpmFromWishedBitRate: when the quotient exceeds 32 bits the source returns its truncation. The contract then states only the range.
- BitTiming.ExactBitRate: for hand-set settings whose 32-bit product wraps, the contract states nothing beyond the prescaler-0 case. `ExactBitRateWraps` shows one such setting.
- BitTiming.ActualBitRate: the exactness clause is stated against the unwrapped needed clock, which is what the resolver's settings need (see `Resolve`).
- BitTiming.Consistency: the consistency mask is a 32-bit bit-vector, while register words are naturals with fields as sums of multiples of powers of two.
- Driver.WriteTxRegisters: the order of the register writes is not modelled. In the source, the transmit request is set last.
- Driver.DecodeRx: data words are parameters of 32 bits. Their bytes are not split out.
- The `Filters` overloads without callbacks (cpp:507-517, 580-594, 656-661, 707-715) are the same functions called with null callbacks.
- The driver's accessors for queue sizes and counts (ACAN_STM32.h:229-250) are not modelled separately. They read `Fifo.Count` and the queue size.

## Findings

| source | as written | input that shows it | evidently intended | confidence | as-written member | corrected member |
|---|---|---|---|---|---|---|
| src/ACAN_STM32.cpp:550-572 | `addStandardMasks` ORs the mask's RTR bit (bit 20) into each mask word before looking at the format, so DATA_OR_REMOTE is encoded like DATA | base 0x010, mask 0x7F0, format DATA_OR_REMOTE: the mask word's RTR bit is set, so the bank compares RTR and accepts only data frames | DATA_OR_REMOTE leaves the mask's RTR bit clear, so both frame kinds pass | high, not executed | FilterBank.AddStandardMasks | FilterBank.AddStandardMasksCorrected |
| src/ACAN_STM32_FIFO.cpp:45-48 | `append` adds `mReadIndex + mCount` in a uint16 before subtracting the size once, so the sum can wrap for sizes above 32768 | size 65535, read index 65534, count 10: the sum 65544 wraps to 8, which is below the size, so the frame is stored in slot 8 instead of slot 9 and overwrites a queued frame (lemma `Fifo.WriteIndexWrapsAboveMaxSize`) | the slot (readIndex + count) mod size | low, not executed; such a queue needs over 512 KiB of frames | Fifo.WriteIndexAsWritten | Fifo.Slot |
