/** The optional-value wrapper used for "no frame" and "no callback". */
module Optional {

  datatype Option<+T> = None | Some(value: T)
}

/** The CAN frame value exchanged between the queues, the mailboxes and the application. */
module Frames {

  /** One CAN frame as the driver sees it: identifier (11 or 29 significant bits),
      remote and extended flags, length code, the two 32-bit payload words and the
      filter-match index (set by the receiver, used as a mailbox selector on transmit).
      Unsigned fields are held as naturals; `InRange` states their C widths. */
  datatype Frame = Frame(
    id: nat,
    rtr: bool,
    ext: bool,
    len: nat,
    data0: nat,
    data1: nat,
    idx: nat)

  /** Every field fits its C type: 32-bit identifier and payload words, 8-bit length
      and filter index. */
  predicate InRange(m: Frame) {
    m.id < 0x1_0000_0000 && m.len < 0x100 && m.data0 < 0x1_0000_0000
    && m.data1 < 0x1_0000_0000 && m.idx < 0x100
  }

  /** The value a default-constructed message holds (standard data frame, id 0, no payload). */
  const BlankFrame: Frame := Frame(0, false, false, 0, 0, 0, 0)

  /** A callback binding: the null routine or an opaque routine handle. */
  datatype CallBack = NullCallBack | Routine(handle: nat)
}
