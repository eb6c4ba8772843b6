/** When the transport gives up waiting, on true time: exactly when the phase has
    lasted as long as is configured for it. */
module IsoTpTimeouts {
  import opened Clock
  import opened Bytes
  import opened IsoTp
  import opened IsoTpReceiver
  import opened IsoTpSender

  // ---- Receiver ----

  /** A flow control is due or on its way, or a consecutive frame is awaited. */
  function RxWait(c: Config, p: RxPhase): (us: nat) { if p.RxCf? then c.timeoutCr else c.timeoutA }

  function RxExpiry(p: RxPhase): (rc: Rc) { if p.RxCf? then ErrTimeoutCr else ErrTimeoutA }

  /** The call began a wait, as its answer tells: a frame was taken or refused
      for its size, a flow control handed out, or its sending accepted. */
  predicate RxBegins(e: RxEvent, rc: Rc) {
    rc == Handled || rc == ErrOverflow || (e.FcSent? && rc == Ignored)
  }

  ghost predicate Stamped(es: seq<RxEvent>, ats: seq<int>) {
    |es| == |ats| && forall i :: 0 <= i < |es| ==> es[i].now == Reading(ats[i])
  }

  /** The true time of the last call that began a wait. */
  ghost function RxSince(start: RxRun, es: seq<RxEvent>, ats: seq<int>): (w: When)
    requires Sound(start.rx, start.seen) && |ats| == |es|
  {
    if es == [] then Never
    else
      var n := |es| - 1;
      if RxBegins(es[n], RxApply(After(start, es[..n]).rx, es[n]).rc) then Once(ats[n])
      else RxSince(start, es[..n], ats[..n])
  }

  ghost predicate RxWaiting(rx: Rx, w: When) {
    !rx.phase.RxIdle? ==> w.Once? && rx.deadline == Reading(w.at + RxWait(rx.config, rx.phase))
  }

  lemma {:induction false} RxArriveWaits(rx: Rx, f: Frame, now: Time, w: When, at: int)
    requires RxValid(rx) && RxWaiting(rx, w) && now == Reading(at)
    ensures var o := RxFeed(rx, f, now); RxWaiting(o.rx, if RxBegins(Arrive(f, now), o.rc) then Once(at) else w)
  {
    LaterReads(at, rx.config.timeoutCr);
    LaterReads(at, rx.config.timeoutA);
    hide Reading, AtOrAfter, AgreeOn, ValidId, ValidConfig, Overlay, Stored, Announced;
  }

  lemma {:induction false} RxWaitStep(rx: Rx, e: RxEvent, w: When, at: int)
    requires RxValid(rx) && RxWaiting(rx, w) && e.now == Reading(at)
    ensures var o := RxApply(rx, e); RxWaiting(o.rx, if RxBegins(e, o.rc) then Once(at) else w)
  {
    LaterReads(at, rx.config.timeoutCr);
    LaterReads(at, rx.config.timeoutA);
    hide Reading, AtOrAfter, ValidConfig, RxFeed;
    if e.Arrive? {
      RxArriveWaits(rx, e.frame, e.now, w, at);
    }
  }

  lemma {:induction false} RxWaitKept(start: RxRun, es: seq<RxEvent>, ats: seq<int>)
    requires Sound(start.rx, start.seen) && start.rx.phase.RxIdle? && Stamped(es, ats)
    ensures RxWaiting(After(start, es).rx, RxSince(start, es, ats))
  {
    if es != [] {
      hide RxApply, RxWaiting;
      var n := |es| - 1;
      RxWaitKept(start, es[..n], ats[..n]);
      RxWaitStep(After(start, es[..n]).rx, es[n], RxSince(start, es[..n], ats[..n]), ats[n]);
    } else {
      assert After(start, es).rx.phase.RxIdle?;
    }
  }

  /** The call looks at the clock: every one does, but the report of a frame that
      was not handed out. */
  predicate RxLooks(p: RxPhase, e: RxEvent) { e.FcSent? ==> p.FcConfirm? }

  /** A call at true time `at` that looks at the clock, less than half a wrap after
      the wait has lasted as long as it may, ends it with the error of its own
      phase if and only if it has; and nothing else is ever called a time-out. */
  ghost predicate RxExpiresRight(rx: Rx, w: When, e: RxEvent, at: int)
    requires RxValid(rx)
  {
    var o := RxApply(rx, e);
    var timedOut := o == RxFeedOut(rx.(phase := RxIdle), RxExpiry(rx.phase), NO_SEGMENT);
    && (o.rc == ErrTimeoutA || o.rc == ErrTimeoutCr ==> timedOut && !rx.phase.RxIdle? && RxLooks(rx.phase, e))
    && (!rx.phase.RxIdle? ==> w.Once?)
    && (!rx.phase.RxIdle? && RxLooks(rx.phase, e) && w.at <= at < w.at + RxWait(rx.config, rx.phase) + HALF ==>
          (timedOut <==> at >= w.at + RxWait(rx.config, rx.phase)))
  }

  lemma {:induction false} RxExpires(rx: Rx, w: When, e: RxEvent, at: int)
    requires RxValid(rx) && RxWaiting(rx, w) && e.now == Reading(at)
    ensures RxExpiresRight(rx, w, e, at)
  {
    OnlyTimeouts(rx, e);
    WaitsBelowHalf(rx.config, rx.phase);
    hide RxApply, Reading, AtOrAfter, RxWait, RxExpiry;
    if !rx.phase.RxIdle? {
      Expires(rx.deadline, w.at, RxWait(rx.config, rx.phase), at);
    }
  }

  /** So it is in every run of the receiver. */
  lemma {:induction false} ReceiverTimesOut(start: RxRun, es: seq<RxEvent>, ats: seq<int>, e: RxEvent, at: int)
    requires Sound(start.rx, start.seen) && start.rx.phase.RxIdle? && Stamped(es, ats) && e.now == Reading(at)
    ensures RxExpiresRight(After(start, es).rx, RxSince(start, es, ats), e, at)
  {
    hide RxExpiresRight, RxWaiting, RxSince, RxApply;
    RxWaitKept(start, es, ats);
    RxExpires(After(start, es).rx, RxSince(start, es, ats), e, at);
  }

  lemma {:induction false} WaitsBelowHalf(c: Config, p: RxPhase)
    requires ValidConfig(c)
    ensures 0 < RxWait(c, p) < HALF
  {
  }

  /** The deadline is met exactly when the wait has been as long as it may. */
  lemma {:induction false} Expires(deadline: Time, since: int, wait: nat, at: int)
    requires deadline == Reading(since + wait) && wait < HALF
    ensures since <= at < since + wait + HALF ==> (AtOrAfter(Reading(at), deadline) <==> at >= since + wait)
  {
    if since <= at < since + wait + HALF {
      ReadingsCompare(at, since + wait);
    }
  }

  lemma {:induction false} OnlyTimeouts(rx: Rx, e: RxEvent)
    requires RxValid(rx)
    ensures var o := RxApply(rx, e);
            var expired := !rx.phase.RxIdle? && RxLooks(rx.phase, e) && AtOrAfter(e.now, rx.deadline);
            if expired then o == RxFeedOut(rx.(phase := RxIdle), RxExpiry(rx.phase), NO_SEGMENT)
            else o.rc != ErrTimeoutA && o.rc != ErrTimeoutCr
  {
    hide Overlay, AgreeOn, ValidId, Later, AtOrAfter, ValidConfig;
  }

  // ---- Sender ----

  /** A frame is to be handed out, or its confirmation awaited, or a flow control. */
  function TxWait(c: Config, p: TxPhase): (us: nat) { if p.TxFc? then c.timeoutBs else c.timeoutA }

  function TxExpiry(p: TxPhase): (rc: Rc) { if p.TxFc? then ErrTimeoutBs else ErrTimeoutA }

  predicate TxWaits(p: TxPhase) { p.TxReady? || p.TxConfirming? || p.TxFc? }

  /** A frame was handed out, its sending confirmed, or a flow control obeyed. */
  predicate TxBegins(e: TxEvent, rc: Rc) { rc == Handled || (e.Sent? && rc == Ignored) }

  /** The true time of the start, or of the last call that began a wait. */
  ghost function TxSince(start: TxRun, es: seq<(TxEvent, int)>): (t: int)
    requires Good(start) && Chronological(start.t, es)
  {
    if es == [] then start.t
    else
      var n := |es| - 1;
      var (e, t) := es[n];
      if TxBegins(e, TxApply(TxAfter(start, es[..n]).tx, e, Reading(t)).rc) then t else TxSince(start, es[..n])
  }

  ghost predicate TxWaiting(tx: Tx, since: int, t: int) {
    since <= t && (TxWaits(tx.phase) ==> tx.deadline == Reading(since + TxWait(tx.config, tx.phase)))
  }

  lemma {:induction false} TxFlowWaits(tx: Tx, f: Frame, since: int, was: int, t: int)
    requires TxValid(tx) && TxWaiting(tx, since, was) && was <= t
    ensures var o := TxFlowControl(tx, f, Reading(t));
            TxWaiting(o.tx, if TxBegins(FlowFrame(f), o.rc) then t else since, t)
  {
    LaterReads(t, tx.config.timeoutBs);
    hide Reading, AtOrAfter, AgreeOn, ValidId, ValidConfig, StminUs;
  }

  lemma {:induction false} TxSendWaits(tx: Tx, since: int, was: int, t: int)
    requires TxValid(tx) && TxWaiting(tx, since, was) && was <= t
    ensures var o := TxNext(tx, Reading(t)); TxWaiting(o.tx, if TxBegins(Send, o.rc) then t else since, t)
  {
    LaterReads(t, tx.config.timeoutA);
    hide Reading, AtOrAfter, ValidConfig, DataFrame, SizeAt;
  }

  lemma {:induction false} TxWaitStep(tx: Tx, e: TxEvent, since: int, was: int, t: int)
    requires TxValid(tx) && TxWaiting(tx, since, was) && was <= t
    ensures var o := TxApply(tx, e, Reading(t)); TxWaiting(o.tx, if TxBegins(e, o.rc) then t else since, t)
  {
    LaterReads(t, tx.config.timeoutBs);
    hide Reading, AtOrAfter, ValidConfig, TxNext, TxFlowControl;
    match e
    case Send => TxSendWaits(tx, since, was, t);
    case FlowFrame(f) => TxFlowWaits(tx, f, since, was, t);
    case Sent(_) =>
    case PollTx =>
  }

  lemma {:induction false} TxWaitKept(start: TxRun, es: seq<(TxEvent, int)>)
    requires Good(start) && Chronological(start.t, es) && TxWaiting(start.tx, start.t, start.t)
    ensures TxWaiting(TxAfter(start, es).tx, TxSince(start, es), TxAfter(start, es).t)
  {
    hide TxApply, TxWaiting;
    if es != [] {
      var n := |es| - 1;
      TxWaitKept(start, es[..n]);
      var before := TxAfter(start, es[..n]);
      TxWaitStep(before.tx, es[n].0, TxSince(start, es[..n]), before.t, es[n].1);
    }
  }

  /** All but the report of a frame that was not handed out. */
  predicate TxLooks(p: TxPhase, e: TxEvent) { e.Sent? ==> p.TxConfirming? }

  lemma {:induction false} OnlyTxTimeouts(tx: Tx, e: TxEvent, now: Time)
    requires TxValid(tx)
    ensures var o := TxApply(tx, e, now);
            var expired := TxWaits(tx.phase) && TxLooks(tx.phase, e) && AtOrAfter(now, tx.deadline);
            if expired then o == TxFrameOut(tx.(phase := TxIdle), TxExpiry(tx.phase), [])
            else o.rc != ErrTimeoutA && o.rc != ErrTimeoutBs
  {
    hide AgreeOn, ValidId, Later, AtOrAfter, ValidConfig, DataFrame, SizeAt;
  }

  /** A call that looks at the clock while the sender waits to hand out a frame, for
      its confirmation or for a flow control, less than half a wrap after the wait
      has lasted as long as it may, ends the transfer with the error of that wait if
      and only if it has; and nothing else is ever called a time-out. */
  ghost predicate TxExpiresRight(tx: Tx, since: int, e: TxEvent, t: int)
    requires TxValid(tx)
  {
    var due := since + TxWait(tx.config, tx.phase);
    var o := TxApply(tx, e, Reading(t));
    var timedOut := o == TxFrameOut(tx.(phase := TxIdle), TxExpiry(tx.phase), []);
    && (o.rc == ErrTimeoutA || o.rc == ErrTimeoutBs ==> timedOut && TxWaits(tx.phase) && TxLooks(tx.phase, e))
    && (TxWaits(tx.phase) && TxLooks(tx.phase, e) && since <= t < due + HALF ==> (timedOut <==> t >= due))
  }

  lemma {:induction false} TxExpires(tx: Tx, since: int, was: int, e: TxEvent, t: int)
    requires TxValid(tx) && TxWaiting(tx, since, was) && was <= t
    ensures TxExpiresRight(tx, since, e, t)
  {
    OnlyTxTimeouts(tx, e, Reading(t));
    TxWaitsBelowHalf(tx.config, tx.phase);
    hide TxApply, Reading, AtOrAfter, TxWait, TxExpiry, TxLooks;
    if TxWaits(tx.phase) {
      Expires(tx.deadline, since, TxWait(tx.config, tx.phase), t);
    }
  }

  /** So it is in every transfer. */
  lemma {:induction false} SenderTimesOut(tx: Tx, data: seq<Byte>, t0: int, es: seq<(TxEvent, int)>, e: TxEvent, t: int)
    requires TxValid(tx) && tx.phase.TxIdle? && Acceptable(tx.config, data)
    requires Chronological(t0, es) && (if es == [] then t0 else es[|es| - 1].1) <= t
    ensures var begun := TxRun(TxStart(tx, data, Reading(t0)).tx, FRESH, t0);
            && Good(begun) && TxValid(TxAfter(begun, es).tx)
            && TxSince(begun, es) <= t && TxExpiresRight(TxAfter(begun, es).tx, TxSince(begun, es), e, t)
  {
    StartTracks(tx, data, t0);
    StartWaits(tx, data, t0);
    var begun := TxRun(TxStart(tx, data, Reading(t0)).tx, FRESH, t0);
    hide TxApply, TxStart, Reading, TxSince, TxExpiresRight, FRESH;
    TxWaitKept(begun, es);
    var was := TxAfter(begun, es);
    GoodIsValid(was);
    TxExpires(was.tx, TxSince(begun, es), was.t, e, t);
  }

  lemma {:induction false} StartWaits(tx: Tx, data: seq<Byte>, t0: int)
    requires TxValid(tx) && tx.phase.TxIdle? && Acceptable(tx.config, data)
    ensures TxWaiting(TxStart(tx, data, Reading(t0)).tx, t0, t0)
  {
    LaterReads(t0, tx.config.timeoutA);
  }

  lemma {:induction false} GoodIsValid(r: TxRun)
    requires Good(r)
    ensures TxValid(r.tx) && ValidConfig(r.tx.config)
  {
  }

  lemma {:induction false} TxWaitsBelowHalf(c: Config, p: TxPhase)
    requires ValidConfig(c)
    ensures 0 < TxWait(c, p) < HALF
  {
  }
}
