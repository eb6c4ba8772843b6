/** A sender and a receiver joined by two first-in first-out links: every run in
    which no timer expires delivers the payload. */
module IsoTpEndToEnd {
  import opened Clock
  import opened Bytes
  import opened IsoTp
  import opened IsoTpSegmentation
  import opened IsoTpReceiver
  import Out = IsoTpSender

  /** `wire` holds the sender's frames in flight and `back` the receiver's;
      `sent` and `taken` count those emitted and accepted. */
  datatype Sys = Sys(tx: Tx, rx: Rx, wire: seq<Frame>, back: seq<Frame>,
                     sent: nat, taken: nat, seen: Observed, txDone: bool, rxDone: bool)

  datatype SysEvent =
    | Emit(now: Time)      // isotp_tx_next
    | Confirm(now: Time)   // isotp_tx_confirm
    | Carry(now: Time)     // the oldest data frame reaches isotp_rx_feed
    | Answer(now: Time)    // isotp_rx_flow_control
    | Answered(now: Time)  // isotp_rx_confirm
    | Return(now: Time)    // the oldest flow control reaches isotp_tx_flow_control

  /** No timer has run out, there is a frame to carry, and it is not handed to
      a side before that side has been told its own last frame went out. */
  ghost predicate Admissible(s: Sys, e: SysEvent) {
    && TxCheckTimeout(s.tx, e.now).rc == Ignored
    && RxCheckTimeout(s.rx, e.now).rc == Ignored
    && (e.Carry? ==> s.wire != [] && !s.rx.phase.FcConfirm?)
    && (e.Return? ==> s.back != [] && !s.tx.phase.TxConfirming?)
  }

  /** The sender has moved on and put its frames on the wire. */
  ghost function WithOutput(s: Sys, o: TxFrameOut): (r: Sys) {
    s.(tx := o.tx, wire := s.wire + o.frames, sent := s.sent + |o.frames|)
  }

  ghost function Next(s: Sys, e: SysEvent): (r: Sys)
    requires TxValid(s.tx) && RxValid(s.rx) && Admissible(s, e)
  {
    match e
    case Emit(now) =>
      WithOutput(s, TxNext(s.tx, now))
    case Confirm(now) =>
      var o := TxConfirm(s.tx, true, now);
      s.(tx := o.tx, txDone := s.txDone || o.rc == Complete)
    case Carry(now) =>
      var o := RxFeed(s.rx, s.wire[0], now);
      s.(rx := o.rx, wire := s.wire[1..], seen := Observe(s.seen, o.segment),
         taken := s.taken + (if |o.segment.data| > 0 then 1 else 0),
         rxDone := s.rxDone || o.rc == Complete)
    case Answer(now) =>
      var o := RxFlowControl(s.rx, now);
      s.(rx := o.rx, back := s.back + o.frames)
    case Answered(now) =>
      s.(rx := RxConfirm(s.rx, true, now).rx)
    case Return(now) =>
      s.(tx := TxFlowControl(s.tx, s.back[0], now).tx, back := s.back[1..])
  }

  // ---- Blocks ----

  /** Position of frame `j` in its block when every block has `bs` frames. */
  function InBlock(bs: nat, j: nat): (n: nat)
    ensures bs > 0 ==> n < bs
  {
    if j == 0 then 0
    else
      var n := InBlock(bs, j - 1) + 1;
      if n == bs then 0 else n
  }

  /** A flow control is due after frame `j`. */
  predicate Boundary(bs: nat, j: nat) {
    j == 0 || (bs > 0 && InBlock(bs, j) == 0)
  }

  lemma {:induction false} BoundaryIsMultiple(bs: nat, j: nat)
    requires bs > 0
    ensures exists blocks: nat {:trigger blocks * bs} :: j == blocks * bs + InBlock(bs, j)
    ensures Boundary(bs, j) <==> exists blocks: nat {:trigger blocks * bs} :: j == blocks * bs
  {
    InBlockCounts(bs, j);
    var blocks: nat :| j == blocks * bs + InBlock(bs, j);
    if exists n: nat {:trigger n * bs} :: j == n * bs {
      var n: nat :| j == n * bs;
      Remainder(n, blocks, bs, InBlock(bs, j));
    }
  }

  lemma {:induction false} Remainder(n: nat, m: nat, bs: nat, r: nat)
    requires n * bs == m * bs + r && r < bs
    ensures r == 0
  {
    if n > 0 && m > 0 {
      assert (n - 1) * bs == n * bs - bs && (m - 1) * bs == m * bs - bs;
      Remainder(n - 1, m - 1, bs, r);
    } else if n > 0 {
      assert n * bs == (n - 1) * bs + bs;
    }
  }

  lemma {:induction false} InBlockCounts(bs: nat, j: nat)
    requires bs > 0
    ensures exists blocks: nat {:trigger blocks * bs} :: j == blocks * bs + InBlock(bs, j)
  {
    if j == 0 {
      assert 0 == 0 * bs;
    } else {
      InBlockCounts(bs, j - 1);
      var blocks: nat :| j - 1 == blocks * bs + InBlock(bs, j - 1);
      if InBlock(bs, j - 1) + 1 == bs {
        assert j == (blocks + 1) * bs;
      } else {
        assert j == blocks * bs + InBlock(bs, j);
      }
    }
  }

  // ---- Control: phases and counts only ----

  /** `sent` of `n` frames are out, `taken` are in, `flows` flow controls are on
      their way back. */
  datatype Control = Control(out: TxPhase, inp: RxPhase, n: nat, bs: nat, sent: nat, taken: nat, flows: nat)

  /** The sender is held at a block boundary. */
  predicate Held(k: Control) {
    (k.out.TxFc? || k.out.TxConfirming?) && 0 < k.sent < k.n && Boundary(k.bs, k.sent - 1)
  }

  /** Nothing was sent past an unanswered boundary; and a held sender whose
      frames have all been taken waits for exactly the one flow control that
      the receiver is about to send or that is on its way. */
  ghost predicate InStep(k: Control) {
    && k.taken <= k.sent <= k.n && k.n > 0 && k.flows <= 1
    && (k.out.TxReady? <==> k.sent == 0)
    && (k.out.TxIdle? ==> k.sent == k.n)
    && (k.out.TxFc? ==> Held(k))
    && (k.out.TxCf? ==> 0 < k.sent < k.n && (Boundary(k.bs, k.sent - 1) ==> k.sent == k.taken))
    && (k.inp.RxIdle? <==> k.taken == 0 || k.taken == k.n)
    && (k.inp.FcReady? || k.inp.FcConfirm? ==> k.taken > 0 && Boundary(k.bs, k.taken - 1))
    && (forall b :: k.taken <= b < k.sent - 1 ==> !Boundary(k.bs, b))
    && (k.inp.FcReady? ==> k.flows == 0 && k.sent == k.taken && Held(k))
    && (k.flows > 0 ==> k.sent == k.taken && Held(k) && (k.inp.FcConfirm? || k.inp.RxCf?))
    && (Held(k) && k.sent == k.taken ==> k.inp.FcReady? || k.flows > 0)
  }

  function AfterEmit(k: Control): (r: Control) { k.(out := TxConfirming, sent := k.sent + 1) }

  function AfterConfirm(k: Control): (r: Control)
    requires k.sent > 0
  {
    k.(out := if k.sent == k.n then TxIdle else if Boundary(k.bs, k.sent - 1) then TxFc else TxCf)
  }

  function AfterCarry(k: Control): (r: Control) {
    k.(taken := k.taken + 1,
       inp := if k.taken + 1 == k.n then RxIdle
              else if Boundary(k.bs, k.taken) then FcReady else RxCf)
  }

  function AfterAnswer(k: Control): (r: Control) { k.(inp := FcConfirm, flows := k.flows + 1) }

  function AfterReturn(k: Control): (r: Control)
    requires k.flows > 0
  {
    k.(out := TxCf, flows := k.flows - 1)
  }

  /** The control skeleton's own account of a step. */
  function AfterStep(k: Control, e: SysEvent): (r: Control) {
    match e
    case Emit(_) => AfterEmit(k)
    case Confirm(_) => if k.sent > 0 then AfterConfirm(k) else k
    case Carry(_) => AfterCarry(k)
    case Answer(_) => AfterAnswer(k)
    case Answered(_) => k.(inp := RxCf)
    case Return(_) => if k.flows > 0 then AfterReturn(k) else k
  }

  lemma {:induction false} ControlKept(k: Control)
    requires InStep(k)
    ensures k.out.TxReady? || k.out.TxCf? ==> InStep(AfterEmit(k))
    ensures k.out.TxConfirming? ==> InStep(AfterConfirm(k))
    ensures k.taken < k.sent && !k.inp.FcConfirm? ==> InStep(AfterCarry(k))
    ensures k.inp.FcReady? ==> InStep(AfterAnswer(k))
    ensures k.inp.FcConfirm? ==> InStep(k.(inp := RxCf))
    ensures k.flows > 0 && !k.out.TxConfirming? ==> InStep(AfterReturn(k))
  {
    SendingKept(k);
    TakingKept(k);
    AnsweringKept(k);
    hide InStep;
  }

  lemma {:induction false} SendingKept(k: Control)
    requires InStep(k)
    ensures k.out.TxReady? || k.out.TxCf? ==> InStep(AfterEmit(k))
    ensures k.out.TxConfirming? ==> InStep(AfterConfirm(k))
  {
  }

  lemma {:induction false} TakingKept(k: Control)
    requires InStep(k)
    ensures k.taken < k.sent && !k.inp.FcConfirm? ==> InStep(AfterCarry(k))
    ensures k.inp.FcReady? ==> InStep(AfterAnswer(k))
  {
  }

  lemma {:induction false} AnsweringKept(k: Control)
    requires InStep(k)
    ensures k.inp.FcConfirm? ==> InStep(k.(inp := RxCf))
    ensures k.flows > 0 && !k.out.TxConfirming? ==> InStep(AfterReturn(k))
  {
  }

  /** What is still to happen: every frame is emitted, confirmed and carried,
      and every flow control emitted, confirmed and returned. */
  ghost function Left(k: Control): (m: int) {
    2 * (k.n - k.sent) + (if k.out.TxConfirming? then 1 else 0)
    + 5 * (k.n - k.taken) + k.flows
    + match k.inp { case RxIdle => 0 case RxCf => 0 case FcConfirm => 1 case FcReady => 3 }
  }

  lemma {:induction false} ControlProgress(k: Control)
    requires InStep(k)
    ensures 0 <= Left(k) <= 7 * k.n
    ensures k.out.TxReady? || k.out.TxCf? ==> Left(AfterEmit(k)) < Left(k)
    ensures k.out.TxConfirming? ==> Left(AfterConfirm(k)) < Left(k)
    ensures k.taken < k.sent && !k.inp.FcConfirm? ==> Left(AfterCarry(k)) < Left(k)
    ensures k.inp.FcReady? ==> Left(AfterAnswer(k)) < Left(k)
    ensures k.inp.FcConfirm? ==> Left(k.(inp := RxCf)) < Left(k)
    ensures k.flows > 0 && !k.out.TxConfirming? ==> Left(AfterReturn(k)) < Left(k)
  {
  }

  /** Unless both sides have finished, one of the six steps is open. */
  lemma {:induction false} ControlLive(k: Control)
    requires InStep(k)
    ensures || (k.out.TxIdle? && k.taken == k.n && k.flows == 0)
            || k.out.TxReady? || k.out.TxCf? || k.out.TxConfirming?
            || k.inp.FcReady? || k.inp.FcConfirm?
            || (k.taken < k.sent && !k.inp.FcConfirm?)
            || (k.flows > 0 && !k.out.TxConfirming?)
  {
  }

  // ---- The sender's steps ----

  /** The sender after `sent` frames, as far as it is not control. */
  ghost predicate SenderAt(tx: Tx, bs: nat, sent: nat) {
    && TxValid(tx) && |tx.payload| > 0
    && tx.offset == OffsetOf(tx.config, |tx.payload|, sent)
    && tx.sequence == (if sent == 0 then 1 else sent % 16)
    && (tx.phase.TxConfirming? ==> sent > 0 && (tx.pendingCf <==> sent > 1))
    && (sent > 1 || tx.phase.TxCf? ==> tx.blockSize == bs)
    && (bs > 0 && sent > 1 && tx.phase.TxConfirming? ==> tx.blockCount == InBlock(bs, sent - 2))
    && (bs > 0 && sent > 0 && tx.phase.TxCf? ==> tx.blockCount == InBlock(bs, sent - 1))
  }

  lemma {:induction false} EmitSender(tx: Tx, bs: nat, sent: nat, now: Time)
    requires SenderAt(tx, bs, sent) && MayEmit(tx, now) && TxCheckTimeout(tx, now).rc == Ignored
    ensures var o := TxNext(tx, now);
            && SenderAt(o.tx, bs, sent + 1) && o.tx.phase.TxConfirming?
            && o.tx.config == tx.config && o.tx.payload == tx.payload
            && Out.IsNth(tx.config, tx.payload, sent, o.frames)
  {
    hide DataFrame, ValidConfig, Later, AtOrAfter, InBlock, Out.IsNth;
    Out.NextOffset(tx, sent);
    Out.NextSequence(sent);
    Out.EmittedCloser(tx, now);
    Out.SameFrame(tx.config, tx.payload, sent, tx.sequence);
  }

  /** Counting a confirmed consecutive frame reaches the block size exactly at
      a boundary. */
  lemma {:induction false} CountedBlock(tx: Tx, bs: nat, sent: nat, now: Time)
    requires SenderAt(tx, bs, sent) && tx.phase.TxConfirming? && bs < 256
    ensures !tx.pendingCf || (tx.blockSize > 0 && Counted(tx, now).blockCount == tx.blockSize)
        <==> Boundary(bs, sent - 1)
    ensures bs > 0 && !Boundary(bs, sent - 1) ==> Counted(tx, now).blockCount == InBlock(bs, sent - 1)
  {
    if sent > 1 && bs > 0 {
      var b := InBlock(bs, sent - 2);
      assert tx.blockCount == b && b + 1 <= 255;
      assert InBlock(bs, sent - 1) == if b + 1 == bs then 0 else b + 1;
    }
  }

  lemma {:induction false} ConfirmSender(tx: Tx, bs: nat, sent: nat, now: Time)
    requires SenderAt(tx, bs, sent) && tx.phase.TxConfirming? && TxCheckTimeout(tx, now).rc == Ignored
    requires bs < 256
    ensures var o := TxConfirm(tx, true, now);
            && SenderAt(o.tx, bs, sent) && o.tx.config == tx.config && o.tx.payload == tx.payload
            && (o.rc == Complete <==> sent >= FrameCount(tx.config, |tx.payload|))
            && o.tx.phase == (if o.rc == Complete then TxIdle
                              else if Boundary(bs, sent - 1) then TxFc else TxCf)
  {
    OffsetBounds(tx.config, |tx.payload|, sent);
    CountedBlock(tx, bs, sent, now);
    Out.SentProgress(tx, true, now);
  }

  lemma {:induction false} FlowControlReads(c: Config)
    ensures var f := FlowControlFrame(c, 0);
            var a := Addr(c);
            && f.id == c.txId && a + 3 <= f.dlc <= 8 && (c.extended ==> f.data[0] == c.txAddress)
            && f.data[a] == 0x30 && f.data[a + 1] == c.blockSize && f.data[a + 2] == c.stmin
  {
  }

  lemma {:induction false} ReturnSender(tx: Tx, receiver: Config, sent: nat, f: Frame, now: Time)
    requires SenderAt(tx, receiver.blockSize, sent) && tx.phase.TxFc? && sent > 0
    requires TxCheckTimeout(tx, now).rc == Ignored
    requires Boundary(receiver.blockSize, sent - 1) && Linked(receiver, tx.config)
    requires f == FlowControlFrame(receiver, 0)
    ensures var o := TxFlowControl(tx, f, now);
            SenderAt(o.tx, receiver.blockSize, sent) && o.tx.phase.TxCf?
            && o.tx.config == tx.config && o.tx.payload == tx.payload
  {
    FlowControlReads(receiver);
    LinkedMatches(receiver, tx.config, f);
    GoAhead(tx, receiver, sent, f, now);
  }

  lemma {:induction false} GoAhead(tx: Tx, receiver: Config, sent: nat, f: Frame, now: Time)
    requires SenderAt(tx, receiver.blockSize, sent) && tx.phase.TxFc? && sent > 0
    requires TxCheckTimeout(tx, now).rc == Ignored
    requires Boundary(receiver.blockSize, sent - 1) && receiver.extended == tx.config.extended
    requires Matches(tx.config, f) && Addr(receiver) + 3 <= f.dlc
    requires f.data[Addr(receiver)] == 0x30 && f.data[Addr(receiver) + 1] == receiver.blockSize
    ensures var o := TxFlowControl(tx, f, now);
            SenderAt(o.tx, receiver.blockSize, sent) && o.tx.phase.TxCf?
            && o.tx.config == tx.config && o.tx.payload == tx.payload
  {
    Out.FlowProgress(tx, f, now);
  }

  // ---- The receiver's steps ----

  /** The receiver after `taken` frames of `p`, as far as it is not control. */
  ghost predicate ReceiverAt(c: Config, p: seq<Byte>, rx: Rx, seen: Observed, taken: nat) {
    var n := FrameCount(c, |p|);
    && Sound(rx, seen) && 0 < |p| <= MAX_PAYLOAD && |p| <= rx.capacity
    && rx.config.extended == c.extended && !rx.config.functional
    && (0 < taken ==> seen.cfs == taken - 1 && seen.bytes == p[..OffsetOf(c, |p|, taken)])
    && (taken >= n && rx.store.Store? ==> rx.store.bytes[..|p|] == p)
    && (0 < taken < n ==>
          && rx.flowStatus == 0 && rx.total == |p|
          && (rx.config.blockSize > 0 ==> rx.blockCount == InBlock(rx.config.blockSize, taken - 1)))
  }

  lemma {:induction false} CarryFirst(c: Config, p: seq<Byte>, rx: Rx, seen: Observed, f: Frame, now: Time)
    requires ReceiverAt(c, p, rx, seen, 0) && rx.phase.RxIdle?
    requires Carries(c, p, 0, f) && Matches(rx.config, f)
    ensures var o := RxFeed(rx, f, now);
            && Kept(rx, seen, Arrive(f, now), o)
            && ReceiverAt(c, p, o.rx, Observe(seen, o.segment), 1)
            && |o.segment.data| > 0
            && (o.rc == Complete <==> FrameCount(c, |p|) == 1)
            && o.rx.phase == (if o.rc == Complete then RxIdle else FcReady)
  {
    ArriveSound(rx, seen, f, now);
    var o := RxFeed(rx, f, now);
    assert o == FeedOpening(rx, f, now);
    assert Announced(rx.config, f) == |p|;
    var a := Addr(c);
    assert f.data[a + 2..] == f.data[a + 2..8];
    assert o.segment.data == p[..SizeAt(c, |p|, 0)];
    OffsetStep(c, |p|, 0);
    if o.rc == Complete {
      assert o.segment.data == p;
    }
  }

  lemma {:induction false} CarryConsecutive(c: Config, p: seq<Byte>, rx: Rx, seen: Observed, taken: nat, f: Frame,
                                            now: Time)
    requires ReceiverAt(c, p, rx, seen, taken) && rx.phase.RxCf? && RxCheckTimeout(rx, now).rc == Ignored
    requires 0 < taken < FrameCount(c, |p|) && Carries(c, p, taken, f) && Matches(rx.config, f)
    ensures var o := RxFeed(rx, f, now);
            && Kept(rx, seen, Arrive(f, now), o)
            && ReceiverAt(c, p, o.rx, Observe(seen, o.segment), taken + 1)
            && |o.segment.data| > 0
            && (o.rc == Complete <==> FrameCount(c, |p|) == taken + 1)
            && o.rx.phase == (if o.rc == Complete then RxIdle
                              else if Boundary(rx.config.blockSize, taken) then FcReady else RxCf)
  {
    ArriveSound(rx, seen, f, now);
    TakesConsecutive(c, p, rx, taken, f, now);
    GrownAt(c, p, rx, seen, taken, Arrive(f, now), RxFeed(rx, f, now));
  }

  /** The wanted consecutive frame is taken, and the block counter turns over
      exactly at a boundary. */
  lemma {:induction false} TakesConsecutive(c: Config, p: seq<Byte>, rx: Rx, taken: nat, f: Frame, now: Time)
    requires RxValid(rx) && rx.phase.RxCf? && RxCheckTimeout(rx, now).rc == Ignored
    requires 0 < |p| <= MAX_PAYLOAD && 0 < taken < FrameCount(c, |p|) && c.extended == rx.config.extended
    requires Carries(c, p, taken, f) && Matches(rx.config, f)
    requires rx.sequence == taken % 16 && rx.total == |p| && rx.offset == OffsetOf(c, |p|, taken)
    requires rx.config.blockSize > 0 ==> rx.blockCount == InBlock(rx.config.blockSize, taken - 1)
    ensures var o := RxFeed(rx, f, now);
            var size := SizeAt(c, |p|, rx.offset);
            && o.rx.config == rx.config && o.rx.total == rx.total && o.rx.flowStatus == rx.flowStatus
            && o.segment.data == p[rx.offset..rx.offset + size] && size > 0
            && !o.segment.started
            && (o.rc == Complete <==> rx.offset + size == |p|)
            && o.rx.phase == (if o.rc == Complete then RxIdle
                              else if Boundary(rx.config.blockSize, taken) then FcReady else RxCf)
            && (o.rc != Complete && rx.config.blockSize > 0 ==>
                  o.rx.blockCount == InBlock(rx.config.blockSize, taken))
  {
    hide Overlay, AgreeOn, ValidId, ValidConfig, Later, AtOrAfter, Stored, FrameCount, OffsetOf, High, Low;
    var o := RxFeed(rx, f, now);
    assert o == FeedConsecutive(rx, f, now);
    assert rx.config.blockSize > 0 ==>
      InBlock(rx.config.blockSize, taken) ==
        if rx.blockCount + 1 == rx.config.blockSize then 0 else rx.blockCount + 1;
  }

  lemma {:induction false} GrownAt(c: Config, p: seq<Byte>, rx: Rx, seen: Observed, taken: nat, e: RxEvent,
                                   o: RxFeedOut)
    requires ReceiverAt(c, p, rx, seen, taken) && rx.phase.RxCf? && 0 < taken < FrameCount(c, |p|)
    requires Kept(rx, seen, e, o)
    requires o.rx.total == rx.total && o.rx.flowStatus == rx.flowStatus && !o.segment.started
    requires o.segment.data == p[rx.offset..rx.offset + SizeAt(c, |p|, rx.offset)] != []
    requires o.rc == Complete <==> rx.offset + |o.segment.data| == |p|
    requires o.rc != Complete && rx.config.blockSize > 0 ==>
      o.rx.blockCount == InBlock(rx.config.blockSize, taken)
    ensures ReceiverAt(c, p, o.rx, Observe(seen, o.segment), taken + 1)
    ensures o.rc == Complete <==> FrameCount(c, |p|) == taken + 1
  {
    OffsetStep(c, |p|, taken);
    OffsetBounds(c, |p|, taken + 1);
    var offset := rx.offset;
    var size := |o.segment.data|;
    PrefixGrows(p, offset, size);
    assert p[..|p|] == p;
  }

  // ---- Both sides and the links ----

  /** Frames `i` up to `j` of the transfer of `p`. */
  ghost function Frames(c: Config, p: seq<Byte>, i: nat, j: nat): (fs: seq<Frame>)
    requires i <= j && |p| <= MAX_PAYLOAD
    ensures |fs| == j - i
  {
    if i == j then [] else Frames(c, p, i, j - 1) + [NthFrame(c, p, j - 1)]
  }

  lemma {:induction false} FramesHead(c: Config, p: seq<Byte>, i: nat, j: nat)
    requires i < j && |p| <= MAX_PAYLOAD
    ensures Frames(c, p, i, j)[0] == NthFrame(c, p, i)
    ensures Frames(c, p, i, j)[1..] == Frames(c, p, i + 1, j)
  {
    hide NthFrame;
    HeadOfExtended(Frames(c, p, i, j - 1), NthFrame(c, p, j - 1));
    if i + 1 < j {
      FramesHead(c, p, i, j - 1);
    }
  }

  lemma {:induction false} HeadOfExtended(fs: seq<Frame>, f: Frame)
    ensures (fs + [f])[0] == if fs == [] then f else fs[0]
    ensures (fs + [f])[1..] == if fs == [] then [] else fs[1..] + [f]
  {
  }

  ghost function ControlOf(s: Sys): (k: Control) {
    Control(s.tx.phase, s.rx.phase, FrameCount(s.tx.config, |s.tx.payload|), s.rx.config.blockSize,
            s.sent, s.taken, |s.back|)
  }

  ghost predicate Inv(s: Sys) {
    && Linked(s.tx.config, s.rx.config) && Linked(s.rx.config, s.tx.config)
    && SenderAt(s.tx, s.rx.config.blockSize, s.sent)
    && ReceiverAt(s.tx.config, s.tx.payload, s.rx, s.seen, s.taken)
    && InStep(ControlOf(s))
    && s.wire == Frames(s.tx.config, s.tx.payload, s.taken, s.sent)
    && (s.back != [] ==> s.back == [FlowControlFrame(s.rx.config, 0)])
    && (s.txDone <==> s.tx.phase.TxIdle?)
    && (s.rxDone <==> s.taken == ControlOf(s).n)
  }

  /** The step is open to the two machines, timers aside. */
  ghost predicate Open(s: Sys, e: SysEvent) {
    match e
    case Emit(now) => MayEmit(s.tx, now)
    case Confirm(_) => s.tx.phase.TxConfirming?
    case Carry(_) => s.wire != [] && !s.rx.phase.FcConfirm?
    case Answer(_) => s.rx.phase.FcReady?
    case Answered(_) => s.rx.phase.FcConfirm?
    case Return(_) => s.back != [] && !s.tx.phase.TxConfirming?
  }

  /** The invariant still holds and there is less left to do. */
  ghost predicate Moved(s: Sys, e: SysEvent, s': Sys) {
    && Inv(s') && ControlOf(s') == AfterStep(ControlOf(s), e)
    && s'.tx.config == s.tx.config && s'.tx.payload == s.tx.payload && s'.rx.config == s.rx.config
    && Left(ControlOf(s')) < Left(ControlOf(s))
  }

  /** An open step moves on; any other changes nothing. */
  ghost predicate StepOk(s: Sys, e: SysEvent)
    requires Inv(s) && Admissible(s, e)
  {
    if Open(s, e) then Moved(s, e, Next(s, e)) else Next(s, e) == s
  }

  lemma {:induction false} EmitOk(s: Sys, now: Time)
    requires Inv(s) && Admissible(s, Emit(now))
    ensures StepOk(s, Emit(now))
  {
    hide ReceiverAt, InStep, Frames, Linked, Moved, DataFrame, Emitted, AtOrAfter, OffsetOf;
    if MayEmit(s.tx, now) {
      EmitSender(s.tx, s.rx.config.blockSize, s.sent, now);
      EmittedMoved(s, now, TxNext(s.tx, now));
    } else {
      assert s.wire + [] == s.wire;
    }
  }

  lemma {:induction false} EmittedMoved(s: Sys, now: Time, o: TxFrameOut)
    requires Inv(s) && (s.tx.phase.TxReady? || s.tx.phase.TxCf?)
    requires o.tx.config == s.tx.config && o.tx.payload == s.tx.payload && o.tx.phase.TxConfirming?
    requires SenderAt(o.tx, s.rx.config.blockSize, s.sent + 1)
    requires Out.IsNth(s.tx.config, s.tx.payload, s.sent, o.frames)
    ensures Moved(s, Emit(now), WithOutput(s, o))
  {
    hide Linked, ReceiverAt, SenderAt, FrameCount, OffsetOf, NthFrame, FlowControlFrame;
    ControlKept(ControlOf(s));
    ControlProgress(ControlOf(s));
    assert ControlOf(WithOutput(s, o)) == AfterEmit(ControlOf(s));
    hide InStep, Left;
  }

  lemma {:induction false} ConfirmOk(s: Sys, now: Time)
    requires Inv(s) && Admissible(s, Confirm(now))
    ensures StepOk(s, Confirm(now))
  {
    if s.tx.phase.TxConfirming? {
      ConfirmSender(s.tx, s.rx.config.blockSize, s.sent, now);
      var o := TxConfirm(s.tx, true, now);
      ConfirmedMoved(s, now, o.tx, o.rc == Complete);
    }
  }

  lemma {:induction false} ConfirmedMoved(s: Sys, now: Time, tx': Tx, complete: bool)
    requires Inv(s) && s.tx.phase.TxConfirming?
    requires tx'.config == s.tx.config && tx'.payload == s.tx.payload
    requires SenderAt(tx', s.rx.config.blockSize, s.sent)
    requires complete <==> s.sent == ControlOf(s).n
    requires tx'.phase == AfterConfirm(ControlOf(s)).out
    ensures Moved(s, Confirm(now), s.(tx := tx', txDone := s.txDone || complete))
  {
    ControlKept(ControlOf(s));
    ControlProgress(ControlOf(s));
    assert ControlOf(s.(tx := tx', txDone := s.txDone || complete)) == AfterConfirm(ControlOf(s));
  }

  lemma {:induction false} ReturnOk(s: Sys, now: Time)
    requires Inv(s) && Admissible(s, Return(now))
    ensures StepOk(s, Return(now))
  {
    ReturnSender(s.tx, s.rx.config, s.sent, s.back[0], now);
    ControlKept(ControlOf(s));
    ControlProgress(ControlOf(s));
    assert ControlOf(Next(s, Return(now))) == AfterReturn(ControlOf(s));
  }

  lemma {:induction false} CarryOk(s: Sys, now: Time)
    requires Inv(s) && Admissible(s, Carry(now))
    ensures StepOk(s, Carry(now))
  {
    var c, p := s.tx.config, s.tx.payload;
    FramesHead(c, p, s.taken, s.sent);
    NthFrameCarries(c, s.rx.config, p, s.taken);
    CarryFrameOk(s, s.wire[0], now);
  }

  lemma {:induction false} CarryFrameOk(s: Sys, f: Frame, now: Time)
    requires Inv(s) && Admissible(s, Carry(now)) && s.wire[0] == f
    requires Carries(s.tx.config, s.tx.payload, s.taken, f) && Matches(s.rx.config, f)
    requires s.wire[1..] == Frames(s.tx.config, s.tx.payload, s.taken + 1, s.sent)
    ensures StepOk(s, Carry(now))
  {
    hide SenderAt, Frames, Linked, Moved, Carries, Matches, Taken, RxFeed, Boundary, FrameCount;
    TakenOk(s.tx.config, s.tx.payload, s.rx, s.seen, s.taken, f, now);
    CarriedMoved(s, now, RxFeed(s.rx, f, now));
  }

  /** The frame is taken, and ends the message, a block or neither. */
  ghost predicate Taken(c: Config, p: seq<Byte>, rx: Rx, seen: Observed, taken: nat, o: RxFeedOut) {
    && o.rx.config == rx.config
    && ReceiverAt(c, p, o.rx, Observe(seen, o.segment), taken + 1)
    && |o.segment.data| > 0
    && (o.rc == Complete <==> FrameCount(c, |p|) == taken + 1)
    && o.rx.phase == (if o.rc == Complete then RxIdle
                      else if Boundary(rx.config.blockSize, taken) then FcReady else RxCf)
  }

  lemma {:induction false} TakenOk(c: Config, p: seq<Byte>, rx: Rx, seen: Observed, taken: nat, f: Frame, now: Time)
    requires ReceiverAt(c, p, rx, seen, taken) && RxCheckTimeout(rx, now).rc == Ignored
    requires if taken == 0 then rx.phase.RxIdle? else rx.phase.RxCf?
    requires taken < FrameCount(c, |p|) && Carries(c, p, taken, f) && Matches(rx.config, f)
    ensures Taken(c, p, rx, seen, taken, RxFeed(rx, f, now))
  {
    if taken == 0 {
      CarryFirst(c, p, rx, seen, f, now);
    } else {
      CarryConsecutive(c, p, rx, seen, taken, f, now);
    }
  }

  lemma {:induction false} NotAllTaken(s: Sys)
    requires Inv(s) && s.wire != []
    ensures s.taken < s.sent && s.taken < ControlOf(s).n
  {
    hide SenderAt, Linked, ReceiverAt, Boundary, FlowControlFrame;
  }

  lemma {:induction false} CarriedMoved(s: Sys, now: Time, o: RxFeedOut)
    requires Inv(s) && s.wire != [] && !s.rx.phase.FcConfirm?
    requires Taken(s.tx.config, s.tx.payload, s.rx, s.seen, s.taken, o)
    requires s.wire[1..] == Frames(s.tx.config, s.tx.payload, s.taken + 1, s.sent)
    ensures Moved(s, Carry(now), s.(rx := o.rx, wire := s.wire[1..], seen := Observe(s.seen, o.segment),
                                    taken := s.taken + (if |o.segment.data| > 0 then 1 else 0),
                                    rxDone := s.rxDone || o.rc == Complete))
  {
    hide SenderAt, Linked, ReceiverAt, Frames, Observe, Left, InStep, FrameCount, InBlock, Boundary, FlowControlFrame;
    NotAllTaken(s);
    var s' := s.(rx := o.rx, wire := s.wire[1..], seen := Observe(s.seen, o.segment),
                 taken := s.taken + 1, rxDone := s.rxDone || o.rc == Complete);
    ControlKept(ControlOf(s));
    ControlProgress(ControlOf(s));
    assert ControlOf(s') == AfterCarry(ControlOf(s));
  }

  lemma {:induction false} AnswerOk(s: Sys, now: Time)
    requires Inv(s) && Admissible(s, Answer(now))
    ensures StepOk(s, Answer(now))
  {
    if s.rx.phase.FcReady? {
      var rx' := RxFlowControl(s.rx, now).rx;
      LocalSound(s.rx, s.seen, TakeFc(now));
      AnsweringMoved(s, Answer(now), rx', s.back + [FlowControlFrame(s.rx.config, 0)]);
    } else {
      assert s.back + [] == s.back;
    }
  }

  lemma {:induction false} NoFlowYet(k: Control)
    requires InStep(k)
    ensures k.inp.FcReady? ==> k.flows == 0
  {
  }

  /** The receiver sends its flow control, or learns that it went out. */
  lemma {:induction false} AnsweringMoved(s: Sys, e: SysEvent, rx': Rx, back': seq<Frame>)
    requires Inv(s) && Sound(rx', s.seen)
    requires rx' == s.rx.(phase := rx'.phase, deadline := rx'.deadline)
    requires || (e.Answer? && s.rx.phase.FcReady? && rx'.phase.FcConfirm?
                 && back' == s.back + [FlowControlFrame(s.rx.config, 0)])
             || (e.Answered? && s.rx.phase.FcConfirm? && rx'.phase.RxCf? && back' == s.back)
    ensures Moved(s, e, s.(rx := rx', back := back'))
  {
    hide SenderAt, Frames, Linked, InStep, Left, OffsetOf, FrameCount, InBlock, FlowControlFrame;
    NoFlowYet(ControlOf(s));
    ControlKept(ControlOf(s));
    ControlProgress(ControlOf(s));
    assert ControlOf(s.(rx := rx', back := back'))
        == if s.rx.phase.FcReady? then AfterAnswer(ControlOf(s)) else ControlOf(s).(inp := RxCf);
  }

  lemma {:induction false} AnsweredOk(s: Sys, now: Time)
    requires Inv(s) && Admissible(s, Answered(now))
    ensures StepOk(s, Answered(now))
  {
    if s.rx.phase.FcConfirm? {
      LocalSound(s.rx, s.seen, FcSent(true, now));
      AnsweringMoved(s, Answered(now), RxConfirm(s.rx, true, now).rx, s.back);
    }
  }

  lemma {:induction false} NextOk(s: Sys, e: SysEvent)
    requires Inv(s) && Admissible(s, e)
    ensures StepOk(s, e)
  {
    match e
    case Emit(now) => EmitOk(s, now);
    case Confirm(now) => ConfirmOk(s, now);
    case Carry(now) => CarryOk(s, now);
    case Answer(now) => AnswerOk(s, now);
    case Answered(now) => AnsweredOk(s, now);
    case Return(now) => ReturnOk(s, now);
  }

  // ---- Whole runs ----

  /** Every event is admissible when its turn comes. */
  ghost predicate Run(s: Sys, es: seq<SysEvent>)
    requires Inv(s)
    decreases |es|
  {
    es != [] ==>
      && Admissible(s, es[0])
      && (NextOk(s, es[0]); Run(Next(s, es[0]), es[1..]))
  }

  ghost function End(s: Sys, es: seq<SysEvent>): (r: Sys)
    requires Inv(s) && Run(s, es)
    ensures Inv(r)
    ensures r.tx.config == s.tx.config && r.tx.payload == s.tx.payload && r.rx.config == s.rx.config
    decreases |es|
  {
    if es == [] then s else (NextOk(s, es[0]); End(Next(s, es[0]), es[1..]))
  }

  /** How many events of the run were open to the machines. */
  ghost function Steps(s: Sys, es: seq<SysEvent>): (n: nat)
    requires Inv(s) && Run(s, es)
    decreases |es|
  {
    if es == [] then 0
    else NextOk(s, es[0]); (if Open(s, es[0]) then 1 else 0) + Steps(Next(s, es[0]), es[1..])
  }

  lemma {:induction false} StepsBounded(s: Sys, es: seq<SysEvent>)
    requires Inv(s) && Run(s, es)
    ensures Steps(s, es) + Left(ControlOf(End(s, es))) <= Left(ControlOf(s))
    decreases |es|
  {
    if es != [] {
      NextOk(s, es[0]);
      StepsBounded(Next(s, es[0]), es[1..]);
    }
  }

  /** The payload has arrived, both sides are idle and the links are empty. */
  ghost predicate Delivered(s: Sys) {
    && s.txDone && s.rxDone && s.tx.phase.TxIdle? && s.rx.phase.RxIdle?
    && s.wire == [] && s.back == []
    && s.seen.bytes == s.tx.payload
    && (s.rx.store.Store? ==> |s.tx.payload| <= |s.rx.store.bytes|
                              && s.rx.store.bytes[..|s.tx.payload|] == s.tx.payload)
    && s.sent == s.taken == FrameCount(s.tx.config, |s.tx.payload|)
  }

  /** Nothing is left to do exactly when everything has been delivered. */
  lemma {:induction false} StuckIsDelivered(s: Sys)
    requires Inv(s)
    ensures Delivered(s) <==> forall e :: !Open(s, e)
  {
    var k := ControlOf(s);
    ControlLive(k);
    var n := FrameCount(s.tx.config, |s.tx.payload|);
    OffsetBounds(s.tx.config, |s.tx.payload|, n);
    if forall e :: !Open(s, e) {
      assert !Open(s, Emit(s.tx.nextUs)) && !Open(s, Confirm(0)) && !Open(s, Carry(0));
      assert !Open(s, Answer(0)) && !Open(s, Answered(0)) && !Open(s, Return(0));
      assert s.tx.payload[..|s.tx.payload|] == s.tx.payload;
    }
  }

  /** A sender about to send `p` to an idle receiver that can hold it. */
  ghost predicate CanTransfer(tx: Tx, rx: Rx, p: seq<Byte>) {
    && TxValid(tx) && tx.phase.TxIdle? && Acceptable(tx.config, p)
    && RxValid(rx) && rx.phase.RxIdle? && !rx.config.functional && |p| <= rx.capacity
    && Linked(tx.config, rx.config) && Linked(rx.config, tx.config)
  }

  ghost function Begin(tx: Tx, rx: Rx, p: seq<Byte>, now: Time): (s: Sys)
    requires CanTransfer(tx, rx, p)
    ensures Inv(s) && s.tx.payload == p && s.tx.config == tx.config && s.rx == rx
  {
    var s := Sys(TxStart(tx, p, now).tx, rx, [], [], 0, 0, Observed([], 0), false, false);
    assert Frames(tx.config, p, 0, 0) == [];
    s
  }

  /** ISO-TP end to end. For every payload, block size, separation time,
      padding and addressing width, and for every run in which no timer
      expires: the run has at most 7 effective steps per frame; the sender
      stands waiting with nothing in flight exactly while the receiver owes it
      a flow control; and when neither side can move any more, the receiver
      has reported exactly the payload, in the computed number of frames, and
      both sides are idle. */
  lemma {:induction false} EndToEnd(tx: Tx, rx: Rx, p: seq<Byte>, now: Time, es: seq<SysEvent>)
    requires CanTransfer(tx, rx, p)
    requires Run(Begin(tx, rx, p, now), es)
    ensures var start := Begin(tx, rx, p, now);
            var end := End(start, es);
            && Steps(start, es) <= 7 * FrameCount(tx.config, |p|)
            && (end.tx.phase.TxFc? && end.wire == [] ==> end.rx.phase.FcReady? || end.back != [])
            && (end.rx.phase.FcReady? || end.back != [] ==> Held(ControlOf(end)) && end.wire == [])
            && (Delivered(end) <==> forall e :: !Open(end, e))
            && (Delivered(end) ==> end.seen.bytes == p && end.sent == FrameCount(tx.config, |p|))
            && (end.rxDone ==> end.seen.bytes == p)
  {
    var start := Begin(tx, rx, p, now);
    var end := End(start, es);
    StepsBounded(start, es);
    ControlProgress(ControlOf(start));
    ControlProgress(ControlOf(end));
    StuckIsDelivered(end);
    OffsetBounds(tx.config, |p|, FrameCount(tx.config, |p|));
    assert p[..|p|] == p;
  }
}
