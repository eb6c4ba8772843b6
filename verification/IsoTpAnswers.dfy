/** What every single call of the transport answers, by the numbers of ISO 15765-2:
    for each byte that may come where the protocol control information stands, and
    for each phase. `IsoTpTimeouts` says when the clock answers instead, and
    `IsoTpFilter` whose frames are not looked at. */
module IsoTpAnswers {
  import opened Clock
  import opened Bytes
  import opened Numbers
  import opened IsoTp
  import opened IsoTpFilter

  /** Nothing is waited for, or not for too long yet. */
  predicate RxInTime(rx: Rx, now: Time) { rx.phase.RxIdle? || !AtOrAfter(now, rx.deadline) }

  predicate TxInTime(tx: Tx, now: Time) { tx.phase.TxIdle? || tx.phase.TxCf? || !AtOrAfter(now, tx.deadline) }

  /** Bytes taken by an extended address. */
  function Skip(c: Config): (a: nat) { if c.extended then 1 else 0 }

  // ---- Receiver ----

  /** A single frame of `n` bytes. */
  ghost predicate SingleAnswer(rx: Rx, f: Frame, n: nat, o: RxFeedOut)
    requires n <= 7
  {
    var a := Skip(rx.config);
    if n == 0 || a + 1 + n > f.dlc then o == RxFeedOut(rx, Ignored, Segment([], 0, 0, false, false, false, false))
    else if n > rx.capacity then
      && o.rc == ErrOverflow && o.rx.phase.RxIdle?
      && o.segment == Segment([], 0, 0, false, false, !rx.phase.RxIdle?, false)
    else
      && o.rc == Complete && o.rx.phase.RxIdle? && a + 1 + n <= 8
      && o.segment == Segment(f.data[a + 1..a + 1 + n], 0, n, true, true, !rx.phase.RxIdle?, f.dlc < 8)
  }

  /** A first frame that announces `n` bytes. */
  ghost predicate FirstAnswer(rx: Rx, f: Frame, n: nat, o: RxFeedOut) {
    var a := Skip(rx.config);
    if rx.config.functional || f.dlc != 8 || n <= 7 - a
    then o == RxFeedOut(rx, Ignored, Segment([], 0, 0, false, false, false, false))
    else if n > rx.capacity then
      && o.rc == ErrOverflow && o.rx.phase.FcReady? && o.rx.flowStatus == 2
      && o.segment == Segment([], 0, 0, false, false, !rx.phase.RxIdle?, false)
    else
      && o.rc == Handled && o.rx.phase.FcReady? && o.rx.flowStatus == 0
      && o.rx.total == n && o.rx.offset == 6 - a && o.rx.sequence == 1 && o.rx.blockCount == 0 && !o.rx.paddingError
      && o.segment == Segment(f.data[a + 2..8], 0, n, true, false, !rx.phase.RxIdle?, false)
  }

  /** A consecutive frame with number `n`. */
  ghost predicate ConsecutiveAnswer(rx: Rx, f: Frame, n: nat, o: RxFeedOut)
    requires rx.offset <= rx.total
  {
    var a := Skip(rx.config);
    var size := Min(rx.total - rx.offset, 7 - a);
    var short := rx.paddingError || f.dlc < 8;
    var done := rx.offset + size == rx.total;
    if !rx.phase.RxCf? || f.dlc < a + 1 + size
    then o == RxFeedOut(rx, Ignored, Segment([], 0, 0, false, false, false, false))
    else if n != rx.sequence
    then o == RxFeedOut(rx.(phase := RxIdle), ErrSequence, Segment([], 0, 0, false, false, false, false))
    else
      && a + 1 + size <= 8
      && o.segment == Segment(f.data[a + 1..a + 1 + size], rx.offset, rx.total, false, done, false, short)
      && o.rx.offset == rx.offset + size && o.rx.sequence == (if n == 15 then 0 else n + 1) && o.rx.total == rx.total
      && o.rx.paddingError == short
      && o.rc == (if done then Complete else Handled)
      && if done then o.rx.phase.RxIdle?
         else if rx.config.blockSize > 0 && rx.blockCount + 1 == rx.config.blockSize
         then o.rx.phase.FcReady? && o.rx.blockCount == 0
         else o.rx.phase.RxCf? && o.rx.blockCount == rx.blockCount + if rx.config.blockSize > 0 then 1 else 0
  }

  /** A frame that is looked at, by the byte behind its address: 0x00 to 0x0F a
      single frame, 0x10 to 0x1F a first and 0x20 to 0x2F a consecutive one;
      anything else is ignored. */
  lemma {:induction false} FeedExactly(rx: Rx, f: Frame, now: Time)
    requires RxValid(rx) && RxInTime(rx, now) && !Stranger(rx.config, f)
    ensures Skip(rx.config) <= 1 && (rx.phase.RxCf? ==> rx.offset <= rx.total)
    ensures var o := RxFeed(rx, f, now);
            var a: nat := Skip(rx.config);
            var pci: nat := f.data[a];
            if pci < 0x10 then pci <= 7 ==> SingleAnswer(rx, f, pci, o)
            else if pci < 0x20 then FirstAnswer(rx, f, (pci - 0x10) * 256 + f.data[a + 1], o)
            else if pci < 0x30 && rx.phase.RxCf? then ConsecutiveAnswer(rx, f, pci - 0x20, o)
            else o == RxFeedOut(rx, Ignored, Segment([], 0, 0, false, false, false, false))
    ensures 8 <= f.data[Skip(rx.config)] < 0x10 ==>
      RxFeed(rx, f, now) == RxFeedOut(rx, Ignored, Segment([], 0, 0, false, false, false, false))
  {
    hide Stranger, AtOrAfter, Later, ValidConfig, ValidId, Overlay, AgreeOn;
    ListensExactly(rx.config, f);
    var pci: nat := f.data[Skip(rx.config)];
    if pci < 0x20 {
      OpeningAnswers(rx, f, now);
    } else if pci < 0x30 && rx.phase.RxCf? {
      ConsecutiveAnswers(rx, f, now);
    }
  }

  lemma {:induction false} OpeningAnswers(rx: Rx, f: Frame, now: Time)
    requires RxValid(rx) && RxInTime(rx, now) && Matches(rx.config, f) && f.data[Skip(rx.config)] < 0x20
    ensures var o := RxFeed(rx, f, now);
            var a: nat := Skip(rx.config);
            var pci: nat := f.data[a];
            if pci < 0x10 then
              if pci <= 7 then SingleAnswer(rx, f, pci, o)
              else o == RxFeedOut(rx, Ignored, Segment([], 0, 0, false, false, false, false))
            else FirstAnswer(rx, f, (pci - 0x10) * 256 + f.data[a + 1], o)
  {
    hide AtOrAfter, Later, ValidConfig, ValidId, Overlay, AgreeOn;
    assert RxFeed(rx, f, now) == FeedOpening(rx, f, now);
    var a := Skip(rx.config);
    assert f.data[a + 2..] == f.data[a + 2..8];
  }

  lemma {:induction false} ConsecutiveAnswers(rx: Rx, f: Frame, now: Time)
    requires RxValid(rx) && RxInTime(rx, now) && Matches(rx.config, f) && rx.phase.RxCf?
    requires 0x20 <= f.data[Skip(rx.config)] < 0x30
    ensures var pci: nat := f.data[Skip(rx.config)]; ConsecutiveAnswer(rx, f, pci - 0x20, RxFeed(rx, f, now))
  {
    hide AtOrAfter, Later, ValidConfig, ValidId, Overlay, AgreeOn;
    assert RxFeed(rx, f, now) == FeedConsecutive(rx, f, now);
  }

  /** The frame carries these three bytes behind its address, the padding byte
      everywhere else, and is padded to 8 bytes or ends behind them. */
  ghost predicate ControlFrame(c: Config, f: Frame, x: Byte, y: Byte, z: Byte) {
    var a := Skip(c);
    && f.id == c.txId && f.dlc == (if c.pad then 8 else a + 3)
    && (c.extended ==> f.data[0] == c.txAddress)
    && f.data[a] == x && f.data[a + 1] == y && f.data[a + 2] == z
    && forall i :: a + 3 <= i < 8 ==> f.data[i] == c.padValue
  }

  /** A flow control is handed out if one is due, with the receiver's block size
      and separation: 0x30 to go on, or 0x32 for an overflow. */
  lemma {:induction false} FlowControlExactly(rx: Rx, now: Time)
    requires RxValid(rx) && RxInTime(rx, now)
    ensures var o := RxFlowControl(rx, now);
            if !rx.phase.FcReady? then o == RxFrameOut(rx, Ignored, [])
            else
              && o.rc == Handled && o.rx.phase.FcConfirm? && |o.frames| == 1
              && o.rx == rx.(phase := FcConfirm, deadline := o.rx.deadline)
              && ControlFrame(rx.config, o.frames[0], 0x30 + rx.flowStatus, rx.config.blockSize, rx.config.stmin)
  {
    hide AtOrAfter, Later, ValidConfig, ControlFrame, FlowControlFrame;
    ControlFrameIs(rx.config, rx.flowStatus);
  }

  lemma {:induction false} ControlFrameIs(c: Config, flowStatus: nat)
    requires flowStatus < 16
    ensures ControlFrame(c, FlowControlFrame(c, flowStatus), 0x30 + flowStatus, c.blockSize, c.stmin)
  {
  }

  /** Once it is sent, the receiver waits for consecutive frames; after an overflow
      or a failure it does not. */
  lemma {:induction false} ConfirmExactly(rx: Rx, success: bool, now: Time)
    requires RxValid(rx) && RxInTime(rx, now)
    ensures var o := RxConfirm(rx, success, now);
            if !rx.phase.FcConfirm? then o == RxOut(rx, ErrArgument)
            else if !success then o == RxOut(rx.(phase := RxIdle), ErrSend)
            else if rx.flowStatus == 2 then o == RxOut(rx.(phase := RxIdle), Ignored)
            else o.rc == Ignored && o.rx == rx.(phase := RxCf, deadline := o.rx.deadline)
  {
    hide AtOrAfter, Later, ValidConfig;
  }

  // ---- Sender ----

  /** A message of 1 to 4095 bytes is taken by an idle sender, functionally only
      one that fits a single frame. */
  lemma {:induction false} StartExactly(tx: Tx, data: seq<Byte>, now: Time)
    ensures var o := TxStart(tx, data, now);
            && (o.rc == ErrArgument <==>
                  |data| == 0 || |data| > 4095 || (tx.config.functional && |data| > 7 - Skip(tx.config)))
            && (o.rc != ErrArgument ==> (o.rc == ErrBusy <==> !tx.phase.TxIdle?))
            && (o.rc == ErrArgument || o.rc == ErrBusy ==> o.tx == tx)
            && (o.rc != ErrArgument && o.rc != ErrBusy ==>
                  && o.rc == Ignored && o.tx.phase.TxReady? && o.tx.payload == data && o.tx.offset == 0
                  && o.tx.sequence == 1 && o.tx.waitCount == 0 && o.tx.blockCount == 0 && !o.tx.sentCf
                  && !o.tx.reservedStmin && !o.tx.paddingError)
  {
  }

  /** Flow control, while one is awaited: 0x30 lets the sender go on, with the
      block size and separation that follow it; 0x31 makes it wait, at most as
      often as is configured; 0x32 says that the receiver has no room; 0x33 to
      0x3F say nothing known. All else is ignored. */
  lemma {:induction false} FlowExactly(tx: Tx, f: Frame, now: Time)
    requires TxValid(tx) && TxInTime(tx, now)
    ensures var o := TxFlowControl(tx, f, now);
            var a: nat := Skip(tx.config);
            var pci: nat := f.data[a];
            var short := tx.paddingError || f.dlc < 8;
            if !tx.phase.TxFc? || Stranger(tx.config, f) || f.dlc < a + 3 || pci < 0x30 || pci > 0x3F
            then o == TxOut(tx, Ignored)
            else
              && o.tx.paddingError == short && o.tx.payload == tx.payload && o.tx.offset == tx.offset
              && if pci == 0x30 then
                   && o.rc == Handled && o.tx.phase.TxCf? && o.tx.blockSize == f.data[a + 1]
                   && o.tx.blockCount == 0 && o.tx.waitCount == 0
                   && o.tx.reservedStmin == (tx.reservedStmin || Unknown(f.data[a + 2]))
                   && o.tx.separation == (if o.tx.reservedStmin then 127000 else StminUs(f.data[a + 2]))
                   && o.tx.nextUs == GoOnFrom(tx, o.tx.separation, now)
                 else if pci == 0x31 then
                   && o.tx.waitCount == tx.waitCount + 1
                   && if tx.waitCount < tx.config.waitLimit then o.rc == Handled && o.tx.phase.TxFc?
                      else o.rc == ErrWaitLimit && o.tx.phase.TxIdle?
                 else o.rc == (if pci == 0x32 then ErrOverflow else ErrFlowStatus) && o.tx.phase.TxIdle?
  {
    ListensExactly(tx.config, f);
    var o := TxFlowControl(tx, f, now);
    Expired(now, tx.lastCf, o.tx.separation);
    hide Stranger, AtOrAfter, Later, ValidConfig, ValidId, AgreeOn, SignedDiff, Reading;
  }

  lemma {:induction false} Expired(now: Time, base: Time, delay: nat)
    ensures Later(base, delay) == Reading(base + delay)
    ensures AtOrAfter(now, Later(base, delay)) <==> !(SignedDiff(now, Reading(base + delay)) < 0)
  {
  }

  /** The next frame goes out at once, unless one was sent less than the separation
      ago. */
  function GoOnFrom(tx: Tx, separation: nat, now: Time): (t: Time) {
    if tx.sentCf && SignedDiff(now, Reading(tx.lastCf + separation)) < 0 then Reading(tx.lastCf + separation) else now
  }

  /** The separations that the standard does not define. */
  predicate Unknown(stmin: nat) { 0x80 <= stmin <= 0xF0 || 0xFA <= stmin }

  /** A frame is handed out to start with, or when the separation is over; whatever
      its kind, the bytes behind its payload are padding. */
  lemma {:induction false} NextExactly(tx: Tx, now: Time)
    requires TxValid(tx) && TxInTime(tx, now)
    ensures var o := TxNext(tx, now);
            if tx.phase.TxReady? || (tx.phase.TxCf? && AtOrAfter(now, tx.nextUs)) then
              && o.rc == Handled && |o.frames| == 1 && o.tx.phase.TxConfirming?
              && Padded(tx.config, |tx.payload|, tx.offset, o.frames[0])
              && o.tx.offset > tx.offset && o.tx.pendingCf == (tx.offset > 0)
            else o == TxFrameOut(tx, Ignored, [])
  {
    hide AtOrAfter, Later, ValidConfig;
    if tx.phase.TxReady? || tx.phase.TxCf? {
      FrameFills(tx.config, tx.payload, tx.offset, tx.sequence);
    }
  }

  /** A frame of a message of `n` bytes, from `offset` on: 2 bytes of header in a
      first frame and else 1, as many bytes as fit, and padding. */
  ghost predicate Padded(c: Config, n: nat, offset: nat, f: Frame)
    requires offset <= n
  {
    var a := Skip(c);
    var header := if offset == 0 && n > 7 - a then 2 else 1;
    var end := a + header + Min(n - offset, 8 - a - header);
    && f.id == c.txId && f.dlc == (if c.pad then 8 else end)
    && forall i :: end <= i < 8 ==> f.data[i] == c.padValue
  }

  lemma {:induction false} FrameFills(c: Config, payload: seq<Byte>, offset: nat, sequence: nat)
    requires offset < |payload| <= MAX_PAYLOAD && sequence < 16
    ensures Padded(c, |payload|, offset, DataFrame(c, payload, offset, sequence))
  {
  }

  /** Once it is sent: the message is complete behind its last frame; behind the
      first, and at the end of a block, the sender waits for flow control; and else
      it goes on. */
  lemma {:induction false} SentExactly(tx: Tx, success: bool, now: Time)
    requires TxValid(tx) && TxInTime(tx, now)
    ensures var o := TxConfirm(tx, success, now);
            var sent: nat := (tx.blockCount + 1) % 256;
            if !tx.phase.TxConfirming? then o == TxOut(tx, ErrArgument)
            else if !success then o == TxOut(tx.(phase := TxIdle), ErrSend)
            else if tx.offset == |tx.payload| then o == TxOut(tx.(phase := TxIdle), Complete)
            else
              && o.rc == Ignored && o.tx.payload == tx.payload && o.tx.offset == tx.offset
              && o.tx.phase == (if !tx.pendingCf || (tx.blockSize > 0 && sent == tx.blockSize) then TxFc else TxCf)
              && o.tx.blockCount == (if tx.pendingCf then sent else tx.blockCount)
              && o.tx.sentCf == (tx.pendingCf || tx.sentCf)
              && o.tx.lastCf == (if tx.pendingCf then now else tx.lastCf)
              && (o.tx.phase.TxCf? ==> o.tx.nextUs == Reading(now + tx.separation))
  {
    hide AtOrAfter, ValidConfig;
  }
}
