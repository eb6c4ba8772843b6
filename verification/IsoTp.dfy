/** The values of the ISO 15765-2 transport and, as pure functions, what one
    call of each entry point does to them. `IsoTpMachine` holds the objects that
    are updated in place and proves them equal to these functions. */
module IsoTp {
  import opened Clock
  import opened Bytes
  import opened Numbers

  const MAX_PAYLOAD := 4095
  const RESERVED_STMIN_US := 127000

  // ---- CAN frames and identifiers ----

  datatype CanFrame = CanFrame(id: Time, dlc: Byte, data: seq<Byte>)
  type Frame = f: CanFrame | |f.data| == 8
    witness CanFrame(0, 0, [0, 0, 0, 0, 0, 0, 0, 0])

  const EFF_FLAG := 0x8000_0000
  const EFF_LIMIT := 0x2000_0000
  const SFF_LIMIT := 0x800

  /** No bit above the 29 or 11 that the identifier's own flag allows. */
  predicate ValidId(id: Time) {
    if id >= EFF_FLAG then id - EFF_FLAG < EFF_LIMIT else id < SFF_LIMIT
  }

  /** `((x ^ y) & mask) == 0`. */
  predicate AgreeOn(x: nat, y: nat, mask: nat)
  {
    mask == 0 || ((mask % 2 == 1 ==> x % 2 == y % 2) && AgreeOn(x / 2, y / 2, mask / 2))
  }

  /** Same identifier as far as the mask asks, and always the same width. */
  predicate IdMatches(id: Time, wanted: Time, mask: Time) {
    AgreeOn(id, wanted, mask) && (id >= EFF_FLAG <==> wanted >= EFF_FLAG)
  }

  // ---- Configuration ----

  datatype Config = Config(
    txId: Time, rxId: Time, rxMask: Time,
    extended: bool, txAddress: Byte, rxAddress: Byte,
    functional: bool, pad: bool, padValue: Byte,
    blockSize: Byte, stmin: Byte, waitLimit: Byte,
    timeoutA: Time, timeoutBs: Time, timeoutCr: Time)

  /** Bytes that extended addressing takes from the front of every frame. */
  function Addr(c: Config): (a: nat)
    ensures a <= 1
  {
    if c.extended then 1 else 0
  }

  predicate Reserved(stmin: Byte) {
    stmin > 0x7f && (stmin < 0xf1 || stmin > 0xf9)
  }

  predicate ValidConfig(c: Config) {
    ValidId(c.txId) && ValidId(c.rxId) && !Reserved(c.stmin)
    && 0 < c.timeoutA < HALF && 0 < c.timeoutBs < HALF && 0 < c.timeoutCr < HALF
  }

  predicate Matches(c: Config, f: Frame) {
    && ValidId(f.id) && f.dlc <= 8 && f.dlc > Addr(c)
    && IdMatches(f.id, c.rxId, c.rxMask)
    && (c.extended ==> f.data[0] == c.rxAddress)
  }

  /** Section 9.6.5.5 of ISO 15765-2:2016: milliseconds, hundreds of
      microseconds, or reserved. */
  function StminUs(value: Byte): (us: nat)
    ensures us <= RESERVED_STMIN_US
    ensures Reserved(value) ==> us == RESERVED_STMIN_US
    ensures value <= 0x7f ==> us == 1000 * value
    ensures 0xf1 <= value <= 0xf9 ==> us == 100 * (value - 0xf0)
  {
    if value <= 0x7f then value * 1000
    else if 0xf1 <= value <= 0xf9 then (value - 0xf0) * 100
    else RESERVED_STMIN_US
  }

  /** A zeroed frame holding the padding byte everywhere, and the address. */
  function Prepared(c: Config): (d: seq<Byte>)
    ensures |d| == 8
  {
    var b := c.padValue;
    var p := [b, b, b, b, b, b, b, b];
    if c.extended then p[0 := c.txAddress] else p
  }

  /** `memcpy(base + start, bytes, |bytes|)`. */
  function Overlay(base: seq<Byte>, start: nat, bytes: seq<Byte>): (r: seq<Byte>)
    requires start + |bytes| <= |base|
    ensures |r| == |base|
  {
    base[..start] + bytes + base[start + |bytes|..]
  }

  function High(b: Byte): (h: nat) ensures h < 16 { b / 16 }
  function Low(b: Byte): (l: nat) ensures l < 16 { b % 16 }

  // ---- Results ----

  datatype Rc = Ignored | Handled | Complete
              | ErrArgument | ErrBusy | ErrSequence | ErrOverflow
              | ErrTimeoutA | ErrTimeoutBs | ErrTimeoutCr
              | ErrFlowStatus | ErrWaitLimit | ErrSend
  {
    predicate Negative() { !(Ignored? || Handled? || Complete?) }
  }

  datatype Segment = Segment(data: seq<Byte>, offset: nat, total: nat, started: bool,
                             complete: bool, replaced: bool, paddingError: bool)

  const NO_SEGMENT := Segment([], 0, 0, false, false, false, false)

  // ---- Receiver ----

  datatype RxPhase = RxIdle | FcReady | FcConfirm | RxCf

  datatype Store = NoStore | Store(bytes: seq<Byte>)

  /** `store` is the caller's buffer, or `NoStore` when it streams. */
  datatype Rx = Rx(
    config: Config, store: Store, capacity: nat, phase: RxPhase, deadline: Time,
    total: nat, offset: nat, sequence: nat, blockCount: nat, flowStatus: nat,
    paddingError: bool)

  /** The buffer is as large as the caller said, and a transfer in progress
      lies inside it. */
  ghost predicate RxValid(rx: Rx) {
    && ValidConfig(rx.config)
    && (rx.store.Store? ==> |rx.store.bytes| == rx.capacity)
    && rx.sequence < 16 && (rx.flowStatus == 0 || rx.flowStatus == 2)
    && (rx.config.blockSize > 0 ==> rx.blockCount < rx.config.blockSize)
    && (rx.phase.RxCf? ==> rx.flowStatus == 0)
    && (!rx.phase.RxIdle? && rx.flowStatus == 0 ==> 0 < rx.offset < rx.total <= rx.capacity)
  }

  function RxInit(config: Config, store: Store, capacity: nat): (rx: Rx)
  {
    Rx(config, store, capacity, RxIdle, 0, 0, 0, 0, 0, 0, false)
  }

  datatype RxOut = RxOut(rx: Rx, rc: Rc)

  function RxCheckTimeout(rx: Rx, now: Time): (o: RxOut)
    ensures RxValid(rx) ==> RxValid(o.rx)
  {
    if rx.phase.RxIdle? || !AtOrAfter(now, rx.deadline) then RxOut(rx, Ignored)
    else RxOut(rx.(phase := RxIdle), if rx.phase.RxCf? then ErrTimeoutCr else ErrTimeoutA)
  }

  function Stored(s: Store, offset: nat, data: seq<Byte>): (r: Store)
    requires s.Store? ==> offset + |data| <= |s.bytes|
  {
    if s.Store? then Store(Overlay(s.bytes, offset, data)) else s
  }

  datatype RxFeedOut = RxFeedOut(rx: Rx, rc: Rc, segment: Segment)

  /** Message length announced by a single (0) or first (1) frame, or 0 when
      the frame is not one that the receiver takes. */
  function Announced(c: Config, f: Frame): (size: nat)
    requires Matches(c, f)
    requires High(f.data[Addr(c)]) <= 1
    ensures size > 0 && High(f.data[Addr(c)]) == 0 ==> size <= f.dlc - Addr(c) - 1
    ensures size > 0 && High(f.data[Addr(c)]) == 1 ==> 7 - Addr(c) < size <= MAX_PAYLOAD
  {
    var a := Addr(c);
    if High(f.data[a]) == 0 then
      var size := Low(f.data[a]);
      if size > f.dlc - a - 1 then 0 else size
    else if c.functional || f.dlc != 8 then 0
    else
      var size := Low(f.data[a]) * 256 + f.data[a + 1];
      if size <= 7 - a then 0 else size
  }

  function Opened(rx: Rx, size: nat, short: bool): (r: Rx)
  {
    rx.(phase := RxIdle, offset := 0, total := size, paddingError := short)
  }

  function FeedOpening(rx: Rx, f: Frame, now: Time): (o: RxFeedOut)
    requires RxValid(rx) && Matches(rx.config, f)
    requires High(f.data[Addr(rx.config)]) <= 1
    ensures RxValid(o.rx)
  {
    var a := Addr(rx.config);
    var first := High(f.data[a]) == 1;
    var size := Announced(rx.config, f);
    if size == 0 then RxFeedOut(rx, Ignored, NO_SEGMENT)
    else
      var replaced := !rx.phase.RxIdle?;
      var begun := Opened(rx, size, f.dlc < 8);
      if size > rx.capacity then
        RxFeedOut(
          if first then
            begun.(flowStatus := 2, phase := FcReady, deadline := Later(now, rx.config.timeoutA))
          else begun,
          ErrOverflow, NO_SEGMENT.(replaced := replaced))
      else if first then
        var data := f.data[a + 2..];
        RxFeedOut(
          begun.(sequence := 1, blockCount := 0, flowStatus := 0, phase := FcReady,
                  deadline := Later(now, rx.config.timeoutA),
                  store := Stored(rx.store, 0, data), offset := 6 - a),
          Handled, Segment(data, 0, size, true, false, replaced, f.dlc < 8))
      else
        var data := f.data[a + 1..a + 1 + size];
        RxFeedOut(begun.(store := Stored(rx.store, 0, data), offset := size),
                  Complete, Segment(data, 0, size, true, true, replaced, f.dlc < 8))
  }

  /** The next frame is awaited, or a flow control is due at the end of a block. */
  function BlockCounted(rx: Rx, now: Time): (r: Rx)
  {
    if rx.config.blockSize == 0 then rx.(deadline := Later(now, rx.config.timeoutCr))
    else if (rx.blockCount + 1) % 256 == rx.config.blockSize then
      rx.(blockCount := 0, phase := FcReady, deadline := Later(now, rx.config.timeoutA))
    else
      rx.(blockCount := (rx.blockCount + 1) % 256, deadline := Later(now, rx.config.timeoutCr))
  }

  function FeedConsecutive(rx: Rx, f: Frame, now: Time): (o: RxFeedOut)
    requires RxValid(rx) && rx.phase.RxCf? && Matches(rx.config, f)
    ensures RxValid(o.rx)
  {
    var a := Addr(rx.config);
    var size := Min(rx.total - rx.offset, 7 - a);
    if f.dlc < a + 1 + size then RxFeedOut(rx, Ignored, NO_SEGMENT)
    else if Low(f.data[a]) != rx.sequence then
      RxFeedOut(rx.(phase := RxIdle), ErrSequence, NO_SEGMENT)
    else
      var short := rx.paddingError || f.dlc < 8;
      var data := f.data[a + 1..a + 1 + size];
      var complete := rx.offset + size == rx.total;
      var segment := Segment(data, rx.offset, rx.total, false, complete, false, short);
      var next := rx.(paddingError := short, store := Stored(rx.store, rx.offset, data),
                      offset := rx.offset + size, sequence := (rx.sequence + 1) % 16);
      if complete then RxFeedOut(next.(phase := RxIdle), Complete, segment)
      else RxFeedOut(BlockCounted(next, now), Handled, segment)
  }

  function RxFeed(rx: Rx, f: Frame, now: Time): (o: RxFeedOut)
    requires RxValid(rx)
    ensures RxValid(o.rx)
  {
    var timed := RxCheckTimeout(rx, now);
    if timed.rc.Negative() then RxFeedOut(timed.rx, timed.rc, NO_SEGMENT)
    else if !Matches(rx.config, f) then RxFeedOut(rx, Ignored, NO_SEGMENT)
    else
      var kind := High(f.data[Addr(rx.config)]);
      if kind <= 1 then FeedOpening(rx, f, now)
      else if kind != 2 || !rx.phase.RxCf? then RxFeedOut(rx, Ignored, NO_SEGMENT)
      else FeedConsecutive(rx, f, now)
  }

  /** The flow control frame the receiver would send. */
  function FlowControlFrame(c: Config, flowStatus: nat): (f: Frame)
    requires flowStatus < 16
  {
    var a := Addr(c);
    CanFrame(c.txId, if c.pad then 8 else a + 3,
             Overlay(Prepared(c), a, [0x30 + flowStatus, c.blockSize, c.stmin]))
  }

  datatype RxFrameOut = RxFrameOut(rx: Rx, rc: Rc, frames: seq<Frame>)

  function RxFlowControl(rx: Rx, now: Time): (o: RxFrameOut)
    requires RxValid(rx)
    ensures RxValid(o.rx)
  {
    var timed := RxCheckTimeout(rx, now);
    if timed.rc.Negative() || !rx.phase.FcReady? then RxFrameOut(timed.rx, timed.rc, [])
    else RxFrameOut(rx.(phase := FcConfirm, deadline := Later(now, rx.config.timeoutA)),
                    Handled, [FlowControlFrame(rx.config, rx.flowStatus)])
  }

  function RxConfirm(rx: Rx, success: bool, now: Time): (o: RxOut)
    ensures RxValid(rx) ==> RxValid(o.rx)
  {
    if !rx.phase.FcConfirm? then RxOut(rx, ErrArgument)
    else
      var timed := RxCheckTimeout(rx, now);
      if timed.rc.Negative() then timed
      else if !success || rx.flowStatus == 2 then
        RxOut(rx.(phase := RxIdle), if success then Ignored else ErrSend)
      else RxOut(rx.(phase := RxCf, deadline := Later(now, rx.config.timeoutCr)), Ignored)
  }

  // ---- Sender ----

  datatype TxPhase = TxIdle | TxReady | TxConfirming | TxFc | TxCf

  datatype Tx = Tx(
    config: Config, payload: seq<Byte>, phase: TxPhase, deadline: Time, nextUs: Time,
    lastCf: Time, separation: nat, offset: nat, waitCount: nat, sequence: nat,
    blockSize: nat, blockCount: nat, sentCf: bool, pendingCf: bool,
    reservedStmin: bool, paddingError: bool)

  ghost predicate TxValid(tx: Tx) {
    && ValidConfig(tx.config)
    && |tx.payload| <= MAX_PAYLOAD
    && (tx.config.functional ==> |tx.payload| <= 7 - Addr(tx.config))
    && tx.offset <= |tx.payload|
    && tx.sequence < 16 && tx.separation <= RESERVED_STMIN_US
    && tx.blockSize < 256 && tx.blockCount < 256
    && tx.waitCount <= tx.config.waitLimit + 1
    && (!tx.phase.TxIdle? ==> tx.waitCount <= tx.config.waitLimit)
    && (tx.phase.TxReady? ==> tx.offset == 0 < |tx.payload|)
    && (tx.phase.TxFc? || tx.phase.TxCf? ==>
          0 < tx.offset < |tx.payload|)
    && (tx.phase.TxConfirming? ==>
          0 < tx.offset
          && (tx.offset < |tx.payload| ==> 7 - Addr(tx.config) < |tx.payload|))
  }

  function TxInit(config: Config): (tx: Tx)
  {
    Tx(config, [], TxIdle, 0, 0, 0, 0, 0, 0, 0, 0, 0, false, false, false, false)
  }

  datatype TxOut = TxOut(tx: Tx, rc: Rc)

  predicate Acceptable(c: Config, data: seq<Byte>) {
    0 < |data| <= MAX_PAYLOAD && (c.functional ==> |data| <= 7 - Addr(c))
  }

  function TxStart(tx: Tx, data: seq<Byte>, now: Time): (o: TxOut)
  {
    if !Acceptable(tx.config, data) then TxOut(tx, ErrArgument)
    else if !tx.phase.TxIdle? then TxOut(tx, ErrBusy)
    else
      TxOut(tx.(payload := data, offset := 0, sequence := 1, waitCount := 0, blockCount := 0,
                sentCf := false, reservedStmin := false, paddingError := false,
                phase := TxReady, deadline := Later(now, tx.config.timeoutA)), Ignored)
  }

  function TxCheckTimeout(tx: Tx, now: Time): (o: TxOut)
  {
    if tx.phase.TxIdle? || tx.phase.TxCf? || !AtOrAfter(now, tx.deadline) then TxOut(tx, Ignored)
    else TxOut(tx.(phase := TxIdle), if tx.phase.TxFc? then ErrTimeoutBs else ErrTimeoutA)
  }

  predicate IsFlowControl(c: Config, f: Frame) {
    Matches(c, f) && f.dlc >= Addr(c) + 3 && High(f.data[Addr(c)]) == 3
  }

  function ContinueToSend(tx: Tx, blockSize: Byte, stmin: Byte, now: Time): (r: Tx)
  {
    var reserved := tx.reservedStmin || Reserved(stmin);
    var separation := if reserved then RESERVED_STMIN_US else StminUs(stmin);
    var paced := Later(tx.lastCf, separation);
    tx.(blockSize := blockSize, reservedStmin := reserved, separation := separation,
        blockCount := 0, waitCount := 0, phase := TxCf,
        nextUs := if tx.sentCf && !AtOrAfter(now, paced) then paced else now)
  }

  /** What the awaited flow control makes of the sender. */
  function Obeyed(tx: Tx, f: Frame, now: Time): (o: TxOut)
  {
    var a := Addr(tx.config);
    var status := Low(f.data[a]);
    var noted := tx.(paddingError := tx.paddingError || f.dlc < 8);
    if status == 0 then TxOut(ContinueToSend(noted, f.data[a + 1], f.data[a + 2], now), Handled)
    else if status == 1 then
      if tx.waitCount + 1 <= tx.config.waitLimit then
        TxOut(noted.(waitCount := tx.waitCount + 1,
                     deadline := Later(now, tx.config.timeoutBs)), Handled)
      else
        TxOut(noted.(waitCount := tx.waitCount + 1, phase := TxIdle), ErrWaitLimit)
    else TxOut(noted.(phase := TxIdle), if status == 2 then ErrOverflow else ErrFlowStatus)
  }

  function TxFlowControl(tx: Tx, f: Frame, now: Time): (o: TxOut)
  {
    var timed := TxCheckTimeout(tx, now);
    if timed.rc.Negative() then timed
    else if !tx.phase.TxFc? || !IsFlowControl(tx.config, f) then TxOut(tx, Ignored)
    else Obeyed(tx, f, now)
  }

  /** Header bytes and payload bytes of the frame that starts at `offset`. */
  function HeaderAt(c: Config, total: nat, offset: nat, sequence: nat): (h: seq<Byte>)
    requires total <= MAX_PAYLOAD && sequence < 16
    ensures 1 <= |h| <= 2
    ensures |h| == 2 <==> offset == 0 && total > 7 - Addr(c)
  {
    if offset > 0 then [0x20 + sequence]
    else if total <= 7 - Addr(c) then [total]
    else [0x10 + total / 256, total % 256]
  }

  function SizeAt(c: Config, total: nat, offset: nat): (size: nat)
    requires offset <= total
    ensures offset + size <= total
    ensures offset < total ==> size > 0
  {
    if offset > 0 then Min(total - offset, 7 - Addr(c))
    else if total <= 7 - Addr(c) then total
    else 6 - Addr(c)
  }

  /** The frame carrying the payload from `offset` on. */
  function DataFrame(c: Config, payload: seq<Byte>, offset: nat, sequence: nat): (f: Frame)
    requires offset <= |payload| <= MAX_PAYLOAD && sequence < 16
  {
    var header := HeaderAt(c, |payload|, offset, sequence);
    var body := payload[offset..offset + SizeAt(c, |payload|, offset)];
    CanFrame(c.txId, if c.pad then 8 else Addr(c) + |header| + |body|,
             Overlay(Prepared(c), Addr(c), header + body))
  }

  datatype TxFrameOut = TxFrameOut(tx: Tx, rc: Rc, frames: seq<Frame>)

  /** The phase and the clock let the sender emit a frame. */
  predicate MayEmit(tx: Tx, now: Time) {
    tx.phase.TxReady? || (tx.phase.TxCf? && AtOrAfter(now, tx.nextUs))
  }

  /** The sender once the frame at its offset has been handed out. */
  function Emitted(tx: Tx, now: Time): (r: Tx)
    requires tx.offset <= |tx.payload|
  {
    tx.(pendingCf := tx.offset > 0,
        offset := tx.offset + SizeAt(tx.config, |tx.payload|, tx.offset),
        sequence := if tx.offset > 0 then (tx.sequence + 1) % 16 else tx.sequence,
        phase := TxConfirming, deadline := Later(now, tx.config.timeoutA))
  }

  function TxNext(tx: Tx, now: Time): (o: TxFrameOut)
    requires TxValid(tx)
  {
    var timed := TxCheckTimeout(tx, now);
    if timed.rc.Negative() then TxFrameOut(timed.tx, timed.rc, [])
    else if !MayEmit(tx, now) then TxFrameOut(tx, Ignored, [])
    else
      TxFrameOut(Emitted(tx, now), Handled,
                 [DataFrame(tx.config, tx.payload, tx.offset, tx.sequence)])
  }

  /** Book-keeping of a confirmed consecutive frame. */
  function Counted(tx: Tx, now: Time): (r: Tx)
  {
    if tx.pendingCf
    then tx.(sentCf := true, lastCf := now, blockCount := (tx.blockCount + 1) % 256)
    else tx
  }

  function TxConfirm(tx: Tx, success: bool, now: Time): (o: TxOut)
  {
    if !tx.phase.TxConfirming? then TxOut(tx, ErrArgument)
    else
      var timed := TxCheckTimeout(tx, now);
      if timed.rc.Negative() then timed
      else if !success then TxOut(tx.(phase := TxIdle), ErrSend)
      else if tx.offset == |tx.payload| then TxOut(tx.(phase := TxIdle), Complete)
      else
        var counted := Counted(tx, now);
        if !tx.pendingCf || (tx.blockSize > 0 && counted.blockCount == tx.blockSize)
        then TxOut(counted.(phase := TxFc, deadline := Later(now, tx.config.timeoutBs)), Ignored)
        else TxOut(counted.(phase := TxCf, nextUs := Later(now, tx.separation)), Ignored)
  }
}
