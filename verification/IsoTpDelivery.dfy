/** There is such a run: with a separation time shorter than the receiver's
    patience, both sides can be served so that no timer ever expires and the
    payload arrives. */
module IsoTpDelivery {
  import opened Clock
  import opened Bytes
  import opened IsoTp
  import opened IsoTpSegmentation
  import opened IsoTpEndToEnd

  /** What the receiver asks of the sender. */
  function Gap(c: Config): (us: nat) { StminUs(c.stmin) }

  /** Both sides have served each other and the next frame is due, at true time
      `t` or a separation time later. */
  ghost predicate Level(s: Sys, t: int) {
    && Inv(s) && s.back == [] && s.sent == s.taken < FrameCount(s.tx.config, |s.tx.payload|)
    && !s.tx.reservedStmin
    && if s.sent == 0 then
         s.tx.phase.TxReady? && s.tx.deadline == Later(Reading(t), s.tx.config.timeoutA) && !s.tx.sentCf
       else
         && s.tx.phase.TxCf? && s.rx.phase.RxCf? && s.rx.deadline == Later(Reading(t), s.rx.config.timeoutCr)
         && s.tx.separation == Gap(s.rx.config)
         && (s.tx.nextUs == Reading(t) || s.tx.nextUs == Reading(t + Gap(s.rx.config)))
  }

  /** When the next frame goes out. */
  ghost function Turn(s: Sys, t: int): (u: int) { if s.sent == 0 then t else t + Gap(s.rx.config) }

  // ---- One call at a time ----

  lemma {:induction false} RxPatient(rx: Rx, t: int, u: int)
    requires 0 <= u - t < rx.config.timeoutCr < HALF
    requires rx.phase.RxIdle? || rx.deadline == Later(Reading(t), rx.config.timeoutCr)
    ensures RxCheckTimeout(rx, Reading(u)).rc == Ignored
  {
    LaterReads(t, rx.config.timeoutCr);
    ReadingsCompare(u, t + rx.config.timeoutCr);
  }

  /** A timer just set is not out. */
  lemma {:induction false} JustSet(u: int, delay: Time)
    requires 0 < delay < HALF
    ensures !AtOrAfter(Reading(u), Later(Reading(u), delay))
  {
    NotYet(Reading(u), delay);
  }

  lemma {:induction false} MayEmitNow(s: Sys, t: int)
    requires Level(s, t) && Gap(s.rx.config) < s.rx.config.timeoutCr < HALF
    requires 0 < s.tx.config.timeoutA < HALF
    ensures MayEmit(s.tx, Reading(Turn(s, t))) && TxCheckTimeout(s.tx, Reading(Turn(s, t))).rc == Ignored
  {
    hide Inv;
    var gap := Gap(s.rx.config);
    if s.sent == 0 {
      JustSet(t, s.tx.config.timeoutA);
    } else {
      ReadingsCompare(t + gap, t);
      ReadingsCompare(t + gap, t + gap);
    }
  }

  /** The sender between its frame and the next: idle, told to wait for flow
      control, or told when to go on. */
  ghost predicate Told(tx: Tx, first: bool, u: int) {
    && (tx.phase.TxFc? ==> tx.deadline == Later(Reading(u), tx.config.timeoutBs))
    && (tx.phase.TxCf? ==> !first && tx.nextUs == Later(Reading(u), tx.separation))
    && (if first then !tx.sentCf else tx.sentCf && tx.lastCf == Reading(u))
  }

  lemma {:induction false} EmitThenConfirm(tx: Tx, u: int)
    requires TxValid(tx) && MayEmit(tx, Reading(u)) && TxCheckTimeout(tx, Reading(u)).rc == Ignored
    requires tx.offset == 0 ==> !tx.sentCf
    ensures var e := TxNext(tx, Reading(u)).tx;
            && e.phase.TxConfirming? && e.reservedStmin == tx.reservedStmin
            && TxCheckTimeout(e, Reading(u)).rc == Ignored
            && var o := TxConfirm(e, true, Reading(u));
            && o.tx.reservedStmin == tx.reservedStmin && o.tx.separation == tx.separation
            && (!o.tx.phase.TxIdle? ==> Told(o.tx, tx.offset == 0, u))
  {
    hide DataFrame, SizeAt, Reading;
    JustSet(u, tx.config.timeoutA);
  }

  /** A frame has been taken: flow control is due, or the next frame awaited. */
  lemma {:induction false} FedDeadline(rx: Rx, f: Frame, u: int)
    requires RxValid(rx) && |RxFeed(rx, f, Reading(u)).segment.data| > 0
    ensures var o := RxFeed(rx, f, Reading(u));
            && (o.rx.phase.FcReady? ==> o.rx.deadline == Later(Reading(u), rx.config.timeoutA))
            && (o.rx.phase.RxCf? ==> o.rx.deadline == Later(Reading(u), rx.config.timeoutCr))
  {
    hide AgreeOn, ValidId, ValidConfig, Overlay, Later, Reading, AtOrAfter, Announced;
  }

  lemma {:induction false} ReturnFields(tx: Tx, receiver: Config, f: Frame, u: int)
    requires TxValid(tx) && tx.phase.TxFc? && TxCheckTimeout(tx, Reading(u)).rc == Ignored && !tx.reservedStmin
    requires ValidConfig(receiver) && Linked(receiver, tx.config) && f == FlowControlFrame(receiver, 0)
    requires tx.sentCf ==> tx.lastCf == Reading(u)
    ensures var o := TxFlowControl(tx, f, Reading(u)).tx;
            && o.phase.TxCf? && !o.reservedStmin && o.separation == Gap(receiver)
            && (o.nextUs == Reading(u) || o.nextUs == Reading(u + Gap(receiver)))
  {
    FlowControlReads(receiver);
    LinkedMatches(receiver, tx.config, f);
    LaterReads(u, Gap(receiver));
    hide FlowControlFrame, Matches, AtOrAfter, Later, Reading;
  }

  // ---- One frame ----

  /** The frame is out and confirmed. */
  ghost predicate Sent(s: Sys, s2: Sys, u: int) {
    && Inv(s2) && s2.rx == s.rx && s2.back == [] && s2.tx.config == s.tx.config && s2.tx.payload == s.tx.payload
    && ControlOf(s2) == AfterConfirm(AfterEmit(ControlOf(s)))
    && !s2.tx.reservedStmin && s2.tx.separation == s.tx.separation
    && (!s2.tx.phase.TxIdle? ==> Told(s2.tx, s.sent == 0, u))
  }

  lemma {:induction false} SendOne(s: Sys, t: int) returns (s1: Sys, s2: Sys)
    requires Level(s, t) && Gap(s.rx.config) < s.rx.config.timeoutCr
    ensures var u := Turn(s, t);
            && Admissible(s, Emit(Reading(u))) && s1 == Next(s, Emit(Reading(u))) && Inv(s1)
            && Admissible(s1, Confirm(Reading(u))) && s2 == Next(s1, Confirm(Reading(u)))
            && Sent(s, s2, u) && RxCheckTimeout(s.rx, Reading(u)).rc == Ignored
  {
    var u := Turn(s, t);
    LevelValid(s, t);
    MayEmitNow(s, t);
    RxPatient(s.rx, t, u);
    EmitThenConfirm(s.tx, u);
    hide Inv, TxValid, RxValid, TxNext, TxConfirm, TxCheckTimeout, RxCheckTimeout, Told, Reading, MayEmit;
    NextOk(s, Emit(Reading(u)));
    s1 := Next(s, Emit(Reading(u)));
    InvValid(s1);
    NextOk(s1, Confirm(Reading(u)));
    s2 := Next(s1, Confirm(Reading(u)));
  }

  lemma {:induction false} InvValid(s: Sys)
    requires Inv(s)
    ensures TxValid(s.tx) && RxValid(s.rx) && ValidConfig(s.tx.config) && ValidConfig(s.rx.config)
    ensures Linked(s.rx.config, s.tx.config)
    ensures s.wire != [] <==> s.taken < s.sent
    ensures s.tx.offset == 0 <==> s.sent == 0
    ensures s.sent == s.taken == FrameCount(s.tx.config, |s.tx.payload|) ==> s.rx.phase.RxIdle?
    ensures s.sent == 0 ==> s.rx.phase.RxIdle?
  {
    hide Linked, Frames;
    if s.sent > 0 {
      OffsetStep(s.tx.config, |s.tx.payload|, s.sent - 1);
      OffsetBounds(s.tx.config, |s.tx.payload|, s.sent);
    }
  }

  lemma {:induction false} LevelValid(s: Sys, t: int)
    requires Level(s, t)
    ensures TxValid(s.tx) && RxValid(s.rx) && 0 < s.tx.config.timeoutA < HALF && s.rx.config.timeoutCr < HALF
    ensures s.rx.phase.RxIdle? || s.rx.deadline == Later(Reading(t), s.rx.config.timeoutCr)
    ensures s.tx.offset == 0 <==> s.sent == 0
  {
    InvValid(s);
    hide Inv;
  }

  lemma {:induction false} ToldWaits(tx: Tx, first: bool, u: int)
    requires ValidConfig(tx.config) && (tx.phase.TxIdle? || (Told(tx, first, u) && (tx.phase.TxFc? || tx.phase.TxCf?)))
    ensures TxCheckTimeout(tx, Reading(u)).rc == Ignored
  {
    JustSet(u, tx.config.timeoutBs);
  }

  /** The frame has been carried, and the receiver's timer is fresh. */
  ghost predicate Carried(s: Sys, s3: Sys, u: int) {
    && Inv(s3) && s3.tx.config == s.tx.config && s3.tx.payload == s.tx.payload && s3.rx.config == s.rx.config
    && s3.back == [] && ControlOf(s3) == AfterCarry(AfterConfirm(AfterEmit(ControlOf(s))))
    && !s3.tx.reservedStmin && s3.tx.separation == s.tx.separation
    && (!s3.tx.phase.TxIdle? ==> Told(s3.tx, s.sent == 0, u))
    && (s3.rx.phase.FcReady? ==> s3.rx.deadline == Later(Reading(u), s3.rx.config.timeoutA))
    && (s3.rx.phase.RxCf? ==> s3.rx.deadline == Later(Reading(u), s3.rx.config.timeoutCr))
  }

  lemma {:induction false} CarryOne(s: Sys, t: int, s2: Sys) returns (s3: Sys)
    requires Level(s, t) && Sent(s, s2, Turn(s, t)) && RxCheckTimeout(s.rx, Reading(Turn(s, t))).rc == Ignored
    ensures var u := Turn(s, t);
            Admissible(s2, Carry(Reading(u))) && s3 == Next(s2, Carry(Reading(u))) && Carried(s, s3, u)
  {
    var u := Turn(s, t);
    LevelValid(s, t);
    InvValid(s2);
    hide Inv, RxFeed, TxValid, RxValid, ValidConfig, RxCheckTimeout, TxCheckTimeout, Told, Reading, Linked, Boundary;
    ToldWaits(s2.tx, s.sent == 0, u);
    assert s2.wire != [] && !s2.rx.phase.FcConfirm?;
    NextOk(s2, Carry(Reading(u)));
    s3 := Next(s2, Carry(Reading(u)));
    assert s3.taken == s2.taken + 1;
    FedDeadline(s2.rx, s2.wire[0], u);
  }

  // ---- The flow control ----

  /** Same payload, same configurations. */
  ghost predicate SameTransfer(s: Sys, s': Sys) {
    s'.tx.config == s.tx.config && s'.tx.payload == s.tx.payload && s'.rx.config == s.rx.config
  }

  /** Held at a boundary with everything taken, and what each side waits for. */
  ghost predicate AtBoundary(s: Sys, u: int) {
    && Inv(s) && s.tx.phase.TxFc? && s.sent == s.taken && !s.tx.reservedStmin
    && s.tx.deadline == Later(Reading(u), s.tx.config.timeoutBs)
    && (s.tx.sentCf ==> s.tx.lastCf == Reading(u))
  }

  lemma {:induction false} AnswerOne(s: Sys, u: int) returns (s4: Sys)
    requires AtBoundary(s, u) && s.back == []
    requires s.rx.phase.FcReady? && s.rx.deadline == Later(Reading(u), s.rx.config.timeoutA)
    ensures Admissible(s, Answer(Reading(u))) && s4 == Next(s, Answer(Reading(u)))
    ensures AtBoundary(s4, u) && SameTransfer(s, s4) && s4.sent == s.sent && |s4.back| == 1
    ensures s4.rx.phase.FcConfirm? && s4.rx.deadline == Later(Reading(u), s4.rx.config.timeoutA)
  {
    InvValid(s);
    JustSet(u, s.rx.config.timeoutA);
    JustSet(u, s.tx.config.timeoutBs);
    hide Inv, Reading, AtOrAfter, Later, FlowControlFrame, ValidConfig, Linked, TxValid, RxValid;
    NextOk(s, Answer(Reading(u)));
    s4 := Next(s, Answer(Reading(u)));
  }

  lemma {:induction false} AnsweredOne(s: Sys, u: int) returns (s5: Sys)
    requires AtBoundary(s, u) && |s.back| == 1
    requires s.rx.phase.FcConfirm? && s.rx.deadline == Later(Reading(u), s.rx.config.timeoutA)
    ensures Admissible(s, Answered(Reading(u))) && s5 == Next(s, Answered(Reading(u)))
    ensures AtBoundary(s5, u) && SameTransfer(s, s5) && s5.sent == s.sent && |s5.back| == 1
    ensures s5.rx.phase.RxCf? && s5.rx.deadline == Later(Reading(u), s5.rx.config.timeoutCr)
  {
    InvValid(s);
    JustSet(u, s.rx.config.timeoutA);
    JustSet(u, s.tx.config.timeoutBs);
    NoRefusal(s);
    hide Inv, Reading, AtOrAfter, Later, ValidConfig, Linked, TxValid, RxValid;
    NextOk(s, Answered(Reading(u)));
    s5 := Next(s, Answered(Reading(u)));
  }

  lemma {:induction false} NoRefusal(s: Sys)
    requires Inv(s) && s.rx.phase.FcConfirm?
    ensures s.rx.flowStatus == 0
  {
    hide Frames, Linked;
  }

  lemma {:induction false} ReturnOne(s: Sys, u: int) returns (s6: Sys)
    requires AtBoundary(s, u) && |s.back| == 1
    requires s.rx.phase.RxCf? && s.rx.deadline == Later(Reading(u), s.rx.config.timeoutCr)
    ensures Admissible(s, Return(Reading(u))) && s6 == Next(s, Return(Reading(u)))
    ensures Level(s6, u) && SameTransfer(s, s6) && s6.sent == s.sent
  {
    InvValid(s);
    JustSet(u, s.rx.config.timeoutCr);
    JustSet(u, s.tx.config.timeoutBs);
    HeldShort(s);
    ReturnFields(s.tx, s.rx.config, s.back[0], u);
    hide Inv, Reading, AtOrAfter, Later, FlowControlFrame, ValidConfig, Linked, TxValid, RxValid, TxFlowControl, Gap,
         FrameCount, Boundary, Left;
    NextOk(s, Return(Reading(u)));
    s6 := Next(s, Return(Reading(u)));
  }

  lemma {:induction false} HeldShort(s: Sys)
    requires Inv(s) && s.tx.phase.TxFc? && |s.back| == 1
    ensures s.back == [FlowControlFrame(s.rx.config, 0)] && 0 < s.sent < FrameCount(s.tx.config, |s.tx.payload|)
  {
    hide Frames, Linked, FlowControlFrame, SenderAt, ReceiverAt;
  }

  // ---- The whole run ----

  lemma {:induction false} RunCons(s: Sys, e: SysEvent, es: seq<SysEvent>)
    requires Inv(s) && Admissible(s, e) && Inv(Next(s, e)) && Run(Next(s, e), es)
    ensures Run(s, [e] + es) && End(s, [e] + es) == End(Next(s, e), es)
  {
    hide Inv, Admissible, Next;
    assert ([e] + es)[0] == e && ([e] + es)[1..] == es;
  }

  /** After the carry: done, level again, or held for a flow control. */
  lemma {:induction false} AfterCarried(s: Sys, t: int, s3: Sys)
    requires Level(s, t) && Carried(s, s3, Turn(s, t))
    ensures s3.sent == s.sent + 1 && SameTransfer(s, s3)
    ensures s3.rx.phase.FcReady? ==> AtBoundary(s3, Turn(s, t))
    ensures s3.rx.phase.RxCf? ==> Level(s3, Turn(s, t))
    ensures s3.rx.phase.RxIdle? || s3.rx.phase.FcReady? || s3.rx.phase.RxCf?
    ensures s3.rx.phase.RxIdle? ==> Delivered(s3)
  {
    hide Inv, Boundary, Reading, Linked, TxValid, RxValid, ValidConfig, Later, StminUs, FrameCount;
    LaterReads(Turn(s, t), s3.tx.separation);
    InvValid(s3);
    if s3.rx.phase.RxIdle? {
      DoneIsDelivered(s3);
    }
  }

  lemma {:induction false} DoneIsDelivered(s: Sys)
    requires Inv(s) && s.sent == s.taken == FrameCount(s.tx.config, |s.tx.payload|) && s.tx.phase.TxIdle?
    requires s.back == []
    ensures Delivered(s)
  {
    hide Linked;
    OffsetBounds(s.tx.config, |s.tx.payload|, s.sent);
    assert s.tx.payload[..|s.tx.payload|] == s.tx.payload;
  }

  /** From any level state the transfer can be brought to its end. */
  lemma {:induction false} Finishes(s: Sys, t: int) returns (es: seq<SysEvent>)
    requires Level(s, t) && Gap(s.rx.config) < s.rx.config.timeoutCr
    ensures Inv(s) && Run(s, es) && Delivered(End(s, es))
    decreases FrameCount(s.tx.config, |s.tx.payload|) - s.sent
  {
    hide Inv, Admissible, Next, Run, End, Delivered, Level, Sent, Carried, AtBoundary, Turn, Gap, FrameCount;
    var u := Turn(s, t);
    LevelInv(s, t);
    var s1, s2 := SendOne(s, t);
    var s3 := CarryOne(s, t, s2);
    AfterCarried(s, t, s3);
    SentInv(s, s2, u);
    CarriedInv(s, s3, u);
    if s3.rx.phase.RxIdle? {
      es := [];
      NothingMore(s3);
    } else if s3.rx.phase.RxCf? {
      LevelInv(s3, u);
      es := Finishes(s3, u);
    } else {
      es := FinishesFlow(s, t, s3);
    }
    RunCons(s2, Carry(Reading(u)), es);
    es := [Carry(Reading(u))] + es;
    RunCons(s1, Confirm(Reading(u)), es);
    es := [Confirm(Reading(u))] + es;
    RunCons(s, Emit(Reading(u)), es);
    es := [Emit(Reading(u))] + es;
  }

  lemma {:induction false} FinishesFlow(s: Sys, t: int, s3: Sys) returns (es: seq<SysEvent>)
    requires Level(s, t) && Carried(s, s3, Turn(s, t)) && s3.rx.phase.FcReady?
    requires Gap(s.rx.config) < s.rx.config.timeoutCr
    ensures Inv(s3) && Run(s3, es) && Delivered(End(s3, es))
    decreases FrameCount(s.tx.config, |s.tx.payload|) - s.sent, 0
  {
    var u := Turn(s, t);
    AfterCarried(s, t, s3);
    LevelInv(s, t);
    hide Inv, Admissible, Next, Run, End, Delivered, Level, Sent, AtBoundary, Turn, Gap, FrameCount, Boundary;
    CarriedInv(s, s3, u);
    var s4 := AnswerOne(s3, u);
    var s5 := AnsweredOne(s4, u);
    var s6 := ReturnOne(s5, u);
    BoundaryInv(s4, u);
    BoundaryInv(s5, u);
    LevelInv(s6, u);
    es := Finishes(s6, u);
    RunCons(s5, Return(Reading(u)), es);
    es := [Return(Reading(u))] + es;
    RunCons(s4, Answered(Reading(u)), es);
    es := [Answered(Reading(u))] + es;
    RunCons(s3, Answer(Reading(u)), es);
    es := [Answer(Reading(u))] + es;
  }

  lemma {:induction false} LevelInv(s: Sys, t: int)
    requires Level(s, t)
    ensures Inv(s) && s.sent < FrameCount(s.tx.config, |s.tx.payload|)
  {
  }

  lemma {:induction false} SentInv(s: Sys, s2: Sys, u: int)
    requires Sent(s, s2, u)
    ensures Inv(s2)
  {
  }

  lemma {:induction false} CarriedInv(s: Sys, s3: Sys, u: int)
    requires Carried(s, s3, u)
    ensures Inv(s3)
  {
  }

  lemma {:induction false} BoundaryInv(s: Sys, u: int)
    requires AtBoundary(s, u)
    ensures Inv(s)
  {
  }

  lemma {:induction false} NothingMore(s: Sys)
    requires Inv(s)
    ensures Run(s, []) && End(s, []) == s
  {
    hide Inv;
  }

  /** For every transfer that the receiver can hold, whenever the separation it
      asks for is shorter than the time it waits for the next frame, there is a
      run in which no timer expires and the payload is delivered. */
  lemma {:induction false} SomeRunDelivers(tx: Tx, rx: Rx, p: seq<Byte>, t: int) returns (es: seq<SysEvent>)
    requires CanTransfer(tx, rx, p) && Gap(rx.config) < rx.config.timeoutCr
    ensures var start := Begin(tx, rx, p, Reading(t)); Run(start, es) && Delivered(End(start, es))
  {
    var start := Begin(tx, rx, p, Reading(t));
    es := Finishes(start, t);
  }
}
