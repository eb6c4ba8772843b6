/** What the sender guarantees for every sequence of calls: which frames it
    emits, that it stops, and how far apart its consecutive frames are. */
module IsoTpSender {
  import opened Clock
  import opened Bytes
  import opened IsoTp
  import opened IsoTpSegmentation

  datatype TxEvent = Send | FlowFrame(frame: Frame) | Sent(success: bool) | PollTx

  function TxApply(tx: Tx, e: TxEvent, now: Time): (o: TxFrameOut)
    requires TxValid(tx)
  {
    match e
    case Send => TxNext(tx, now)
    case FlowFrame(f) => var o := TxFlowControl(tx, f, now); TxFrameOut(o.tx, o.rc, [])
    case Sent(success) => var o := TxConfirm(tx, success, now); TxFrameOut(o.tx, o.rc, [])
    case PollTx => var o := TxCheckTimeout(tx, now); TxFrameOut(o.tx, o.rc, [])
  }

  // ---- Termination ----

  function Rank(p: TxPhase): (r: nat) {
    match p
    case TxIdle => 0
    case TxCf => 1
    case TxFc => 2
    case TxReady => 2
    case TxConfirming => 3
  }

  /** (bytes left, phase, WAITs left), flattened in that order. */
  ghost function Measure(tx: Tx): (m: nat)
    requires TxValid(tx)
  {
    if tx.phase.TxIdle? then 0
    else ((|tx.payload| - tx.offset) * 4 + Rank(tx.phase)) * 256
         + (tx.config.waitLimit - tx.waitCount)
  }

  /** The call changed nothing or brought the sender strictly closer to idle. */
  ghost predicate Closer(tx: Tx, tx': Tx, rc: Rc)
    requires TxValid(tx)
  {
    && TxValid(tx') && tx'.config == tx.config && tx'.payload == tx.payload
    && (tx' == tx || Measure(tx') < Measure(tx))
    && (tx.phase.TxIdle? ==> tx' == tx)
    && (rc.Negative() ==> tx'.phase.TxIdle? || tx' == tx)
  }

  lemma {:induction false} EmittedCloser(tx: Tx, now: Time)
    requires TxValid(tx) && (tx.phase.TxReady? || tx.phase.TxCf?)
    ensures Closer(tx, Emitted(tx, now), Handled)
  {
  }

  lemma {:induction false} SendProgress(tx: Tx, now: Time)
    requires TxValid(tx)
    ensures var o := TxNext(tx, now); Closer(tx, o.tx, o.rc) && (o.rc == Ignored ==> o.tx == tx)
  {
    hide ValidConfig, AtOrAfter, Later, DataFrame, SizeAt;
    if MayEmit(tx, now) {
      EmittedCloser(tx, now);
    }
  }

  lemma {:induction false} FlowProgress(tx: Tx, f: Frame, now: Time)
    requires TxValid(tx)
    ensures var o := TxFlowControl(tx, f, now); Closer(tx, o.tx, o.rc) && (o.rc == Ignored ==> o.tx == tx)
  {
    hide IsFlowControl, Obeyed, AtOrAfter, ValidConfig;
    if tx.phase.TxFc? {
      ObeyedCloser(tx, f, now);
    }
  }

  lemma {:induction false} ObeyedCloser(tx: Tx, f: Frame, now: Time)
    requires TxValid(tx) && tx.phase.TxFc?
    ensures var o := Obeyed(tx, f, now); Closer(tx, o.tx, o.rc) && o.rc != Ignored
  {
    hide ValidConfig, AtOrAfter, Later, StminUs, Low;
  }

  lemma {:induction false} SentProgress(tx: Tx, success: bool, now: Time)
    requires TxValid(tx)
    ensures var o := TxConfirm(tx, success, now); Closer(tx, o.tx, o.rc)
  {
    hide ValidConfig, AtOrAfter, Later;
  }

  /** Every call keeps the sender well formed, and either changes nothing or
      brings it strictly closer to idle. A frame request or a flow control that
      is answered "ignored" changes nothing. */
  lemma {:induction false} EffectiveCallsProgress(tx: Tx, e: TxEvent, now: Time)
    requires TxValid(tx)
    ensures var o := TxApply(tx, e, now);
            Closer(tx, o.tx, o.rc) && (o.rc == Ignored && !e.Sent? ==> o.tx == tx)
  {
    match e
    case Send => SendProgress(tx, now);
    case FlowFrame(f) => FlowProgress(tx, f, now);
    case Sent(success) => SentProgress(tx, success, now);
    case PollTx =>
  }

  /** How many of the calls changed the sender. */
  ghost function Effective(tx: Tx, es: seq<(TxEvent, Time)>): (n: nat)
    requires TxValid(tx)
    decreases |es|
  {
    if es == [] then 0
    else
      var o := TxApply(tx, es[0].0, es[0].1);
      EffectiveCallsProgress(tx, es[0].0, es[0].1);
      (if o.tx == tx then 0 else 1) + Effective(o.tx, es[1..])
  }

  /** A transfer ends: whatever happens after the start, the calls that do
      anything at all are at most this many. */
  lemma {:induction false} SenderTerminates(tx: Tx, es: seq<(TxEvent, Time)>)
    requires TxValid(tx)
    ensures Effective(tx, es) <= Measure(tx)
    ensures Measure(tx) <= (4 * |tx.payload| + 3) * 256 + 255
    decreases |es|
  {
    if es != [] {
      EffectiveCallsProgress(tx, es[0].0, es[0].1);
      SenderTerminates(TxApply(tx, es[0].0, es[0].1).tx, es[1..]);
    }
    if !tx.phase.TxIdle? {
      assert (|tx.payload| - tx.offset) * 4 + Rank(tx.phase) <= 4 * |tx.payload| + 3;
    }
  }

  // ---- Whole runs against true time ----

  /** What an onlooker, seeing calls and answers and holding a true clock, has
      noted of the current transfer: frames emitted, WAITs since the last
      go-ahead, when the last consecutive frame was confirmed, and what
      separation the peer has asked for. */
  datatype Log = Log(frames: nat, waits: nat, lastCf: When, asked: nat, reserved: bool)

  function Separation(log: Log): (us: nat) {
    if log.reserved then RESERVED_STMIN_US else log.asked
  }

  function Note(log: Log, c: Config, e: TxEvent, t: int, rc: Rc): (r: Log) {
    match e
    case Send => if rc == Handled then log.(frames := log.frames + 1) else log
    case Sent(_) => if rc == Ignored && log.frames > 1 then log.(lastCf := Once(t)) else log
    case PollTx => log
    case FlowFrame(f) =>
      if rc != Handled then log
      else if Low(f.data[Addr(c)]) == 1 then log.(waits := log.waits + 1)
      else
        var stmin := f.data[Addr(c) + 2];
        log.(waits := 0, asked := StminUs(stmin), reserved := log.reserved || Reserved(stmin))
  }

  /** The next emission, if any, is far enough from the last confirmed one. */
  ghost predicate Paced(tx: Tx, log: Log, t: int) {
    log.lastCf.Once? ==>
      || tx.nextUs == Reading(log.lastCf.at + tx.separation)
      || t - log.lastCf.at >= tx.separation
  }

  /** The sender's fields say what the onlooker noted up to true time `t`. */
  ghost predicate Tracks(tx: Tx, log: Log, t: int) {
    && TxValid(tx)
    && (!tx.phase.TxIdle? ==>
          && tx.offset == OffsetOf(tx.config, |tx.payload|, log.frames)
          && log.frames <= FrameCount(tx.config, |tx.payload|)
          && (tx.phase.TxReady? <==> log.frames == 0)
          && tx.sequence == (if log.frames == 0 then 1 else log.frames % 16)
          && (tx.phase.TxConfirming? ==> (tx.pendingCf <==> log.frames > 1))
          && tx.waitCount == log.waits
          && (tx.sentCf <==> log.lastCf.Once?) && (tx.phase.TxReady? ==> !tx.sentCf)
          && (tx.sentCf ==> tx.lastCf == Reading(log.lastCf.at) && log.lastCf.at <= t)
          && tx.reservedStmin == log.reserved
          && (log.frames > 1 || tx.phase.TxCf? ==> tx.separation == Separation(log))
          && (tx.phase.TxCf? ==> Paced(tx, log, t)))
  }

  const FRESH := Log(0, 0, Never, 0, false)

  lemma {:induction false} StartTracks(tx: Tx, data: seq<Byte>, t: int)
    requires TxValid(tx) && tx.phase.TxIdle? && Acceptable(tx.config, data)
    ensures var o := TxStart(tx, data, Reading(t));
            o.rc == Ignored && o.tx.payload == data && Tracks(o.tx, FRESH, t)
  {
  }

  /** `frames` is just frame `k` of the reference segmentation. */
  ghost predicate IsNth(c: Config, payload: seq<Byte>, k: nat, frames: seq<Frame>)
    requires |payload| <= MAX_PAYLOAD
  {
    k < FrameCount(c, |payload|) && frames == [NthFrame(c, payload, k)]
  }

  /** The promises of one call made at true time `t`. */
  ghost predicate TxPromise(tx: Tx, log: Log, e: TxEvent, t: int, o: TxFrameOut)
    requires TxValid(tx)
  {
    && o.tx.config == tx.config && o.tx.payload == tx.payload
    && (o.frames != [] <==> e == Send && o.rc == Handled)
    // the frame emitted is the next one of the reference segmentation
    && (o.frames != [] ==> IsNth(tx.config, tx.payload, log.frames, o.frames))
    // and a consecutive one keeps the separation in force
    && (o.frames != [] && log.lastCf.Once? ==> t - log.lastCf.at >= Separation(log))
    // completion means that all frames were emitted
    && (o.rc == Complete ==> log.frames == FrameCount(tx.config, |tx.payload|))
    // WAITs are tolerated exactly up to the limit
    && Note(log, tx.config, e, t, o.rc).waits <= tx.config.waitLimit
    && (o.rc == ErrWaitLimit ==> log.waits == tx.config.waitLimit)
  }

  /** The call keeps the fields in step with the log and the promises. */
  ghost predicate CallOk(tx: Tx, log: Log, e: TxEvent, t: int)
    requires TxValid(tx)
  {
    var o := TxApply(tx, e, Reading(t));
    Tracks(o.tx, Note(log, tx.config, e, t, o.rc), t) && TxPromise(tx, log, e, t, o)
  }

  lemma {:induction false} EmissionPaced(tx: Tx, log: Log, was: int, t: int)
    requires Tracks(tx, log, was) && was <= t && tx.phase.TxCf?
    requires AtOrAfter(Reading(t), tx.nextUs) && log.lastCf.Once?
    ensures t - log.lastCf.at >= tx.separation
  {
    var due := log.lastCf.at + tx.separation;
    if t < due {
      ReadingsCompare(t, due);
    }
  }

  lemma {:induction false} NextSequence(k: nat)
    ensures (k % 16 + 1) % 16 == (k + 1) % 16
  {
  }

  lemma {:induction false} NextOffset(tx: Tx, frames: nat)
    requires 0 < |tx.payload| && tx.offset < |tx.payload|
    requires tx.offset == OffsetOf(tx.config, |tx.payload|, frames)
    ensures frames < FrameCount(tx.config, |tx.payload|)
    ensures frames > 0 <==> tx.offset > 0
    ensures tx.offset + SizeAt(tx.config, |tx.payload|, tx.offset)
         == OffsetOf(tx.config, |tx.payload|, frames + 1)
  {
    OffsetBounds(tx.config, |tx.payload|, frames);
    OffsetStep(tx.config, |tx.payload|, frames);
  }

  lemma {:induction false} EmittedTracks(tx: Tx, log: Log, was: int, t: int)
    requires Tracks(tx, log, was) && was <= t && MayEmit(tx, Reading(t))
    ensures Tracks(Emitted(tx, Reading(t)), log.(frames := log.frames + 1), t)
    ensures log.frames < FrameCount(tx.config, |tx.payload|)
    ensures log.lastCf.Once? ==> t - log.lastCf.at >= Separation(log)
  {
    if log.lastCf.Once? {
      EmissionPaced(tx, log, was, t);
    }
    EmittedCloser(tx, Reading(t));
    NextOffset(tx, log.frames);
    NextSequence(log.frames);
  }

  lemma {:induction false} StillPaced(tx: Tx, log: Log, was: int, t: int)
    requires was <= t
    ensures Paced(tx, log, was) ==> Paced(tx, log, t)
  {
  }

  lemma {:induction false} SendTracks(tx: Tx, log: Log, was: int, t: int)
    requires Tracks(tx, log, was) && was <= t && log.waits <= tx.config.waitLimit
    ensures CallOk(tx, log, Send, t)
  {
    if TxNext(tx, Reading(t)).rc == Handled {
      FrameSentTracks(tx, log, was, t);
    } else {
      NothingSentTracks(tx, log, was, t);
    }
  }

  lemma {:induction false} FrameSentTracks(tx: Tx, log: Log, was: int, t: int)
    requires Tracks(tx, log, was) && was <= t && log.waits <= tx.config.waitLimit
    requires TxNext(tx, Reading(t)).rc == Handled
    ensures CallOk(tx, log, Send, t)
  {
    hide DataFrame, OffsetOf, FrameCount, Separation, ValidConfig, IsNth, Paced, AtOrAfter, Later, Reading, Emitted;
    EmittedTracks(tx, log, was, t);
    EmittedSame(tx, Reading(t));
    SameFrame(tx.config, tx.payload, log.frames, tx.sequence);
  }

  lemma {:induction false} EmittedSame(tx: Tx, now: Time)
    requires TxValid(tx)
    ensures Emitted(tx, now).config == tx.config && Emitted(tx, now).payload == tx.payload
  {
  }

  lemma {:induction false} NothingSentTracks(tx: Tx, log: Log, was: int, t: int)
    requires Tracks(tx, log, was) && was <= t && log.waits <= tx.config.waitLimit
    requires TxNext(tx, Reading(t)).rc != Handled
    ensures CallOk(tx, log, Send, t)
  {
    hide DataFrame, OffsetOf, FrameCount, Separation, ValidConfig, IsNth, Paced, AtOrAfter, Later, Reading;
    StillPaced(tx, log, was, t);
  }

  /** The sequence number is only written into consecutive frames. */
  lemma {:induction false} SameFrame(c: Config, payload: seq<Byte>, k: nat, sequence: nat)
    requires |payload| <= MAX_PAYLOAD && sequence < 16 && k < FrameCount(c, |payload|)
    requires k == 0 || sequence == k % 16
    ensures IsNth(c, payload, k, [DataFrame(c, payload, OffsetOf(c, |payload|, k), sequence)])
  {
    hide Overlay, Prepared, FrameCount, SizeAt;
    assert k == 0 ==> HeaderAt(c, |payload|, 0, sequence) == HeaderAt(c, |payload|, 0, k % 16);
  }

  lemma {:induction false} SentTracks(tx: Tx, log: Log, was: int, success: bool, t: int)
    requires Tracks(tx, log, was) && was <= t && log.waits <= tx.config.waitLimit
    ensures CallOk(tx, log, Sent(success), t)
  {
    EffectiveCallsProgress(tx, Sent(success), Reading(t));
    LaterReads(t, tx.separation);
    if tx.phase.TxConfirming? {
      OffsetBounds(tx.config, |tx.payload|, log.frames);
    }
  }

  lemma {:induction false} FlowTracks(tx: Tx, log: Log, was: int, f: Frame, t: int)
    requires Tracks(tx, log, was) && was <= t && log.waits <= tx.config.waitLimit
    ensures CallOk(tx, log, FlowFrame(f), t)
  {
    var now := Reading(t);
    EffectiveCallsProgress(tx, FlowFrame(f), now);
    var o := TxFlowControl(tx, f, now);
    if o.rc == Handled && Low(f.data[Addr(tx.config)]) == 0 && tx.sentCf {
      LaterReads(log.lastCf.at, o.tx.separation);
      if t < log.lastCf.at + o.tx.separation {
        ReadingsCompare(t, log.lastCf.at + o.tx.separation);
      }
    }
  }

  lemma {:induction false} PollTracks(tx: Tx, log: Log, was: int, t: int)
    requires Tracks(tx, log, was) && was <= t && log.waits <= tx.config.waitLimit
    ensures CallOk(tx, log, PollTx, t)
  {
    hide OffsetOf, FrameCount, Separation, ValidConfig, Paced, AtOrAfter, Reading;
    StillPaced(tx, log, was, t);
  }

  lemma {:induction false} CallTracks(tx: Tx, log: Log, was: int, e: TxEvent, t: int)
    requires Tracks(tx, log, was) && was <= t && log.waits <= tx.config.waitLimit
    ensures CallOk(tx, log, e, t)
  {
    match e
    case Send => SendTracks(tx, log, was, t);
    case Sent(success) => SentTracks(tx, log, was, success, t);
    case FlowFrame(f) => FlowTracks(tx, log, was, f, t);
    case PollTx => PollTracks(tx, log, was, t);
  }

  datatype TxRun = TxRun(tx: Tx, log: Log, t: int)

  ghost predicate Good(r: TxRun) {
    Tracks(r.tx, r.log, r.t) && r.log.waits <= r.tx.config.waitLimit
  }

  /** Calls in the order of their true times. */
  ghost predicate Chronological(from: int, es: seq<(TxEvent, int)>) {
    && (es != [] ==> from <= es[0].1)
    && forall i :: 0 < i < |es| ==> es[i - 1].1 <= es[i].1
  }

  ghost function TxAfter(start: TxRun, es: seq<(TxEvent, int)>): (r: TxRun)
    requires Good(start) && Chronological(start.t, es)
    ensures Good(r) && r.tx.config == start.tx.config && r.tx.payload == start.tx.payload
    ensures r.t == (if es == [] then start.t else es[|es| - 1].1)
  {
    if es == [] then start
    else
      var before := TxAfter(start, es[..|es| - 1]);
      var (e, t) := es[|es| - 1];
      var o := TxApply(before.tx, e, Reading(t));
      CallTracks(before.tx, before.log, before.t, e, t);
      TxRun(o.tx, Note(before.log, before.tx.config, e, t, o.rc), t)
  }

  /** Sender promises over whole transfers: whatever is acknowledged, refused,
      delayed or timed out, every frame emitted is the next one of the
      reference segmentation, and no consecutive frame leaves earlier after
      the confirmation of the one before it than the separation in force,
      across block boundaries, WAITs, changed STmin and any number of wraps. */
  lemma {:induction false} SenderKeepsPromises(tx: Tx, data: seq<Byte>, t0: int, es: seq<(TxEvent, int)>, i: nat)
    requires TxValid(tx) && tx.phase.TxIdle? && Acceptable(tx.config, data)
    requires Chronological(t0, es) && i < |es|
    ensures var begun := TxStart(tx, data, Reading(t0));
            && begun.rc == Ignored && Good(TxRun(begun.tx, FRESH, t0))
            && begun.tx.payload == data && begun.tx.config == tx.config
            && var before := TxAfter(TxRun(begun.tx, FRESH, t0), es[..i]);
               && before.tx.config == tx.config && before.tx.payload == data
               && TxPromise(before.tx, before.log, es[i].0, es[i].1,
                            TxApply(before.tx, es[i].0, Reading(es[i].1)))
  {
    StartTracks(tx, data, t0);
    var start := TxRun(TxStart(tx, data, Reading(t0)).tx, FRESH, t0);
    var before := TxAfter(start, es[..i]);
    CallTracks(before.tx, before.log, before.t, es[i].0, es[i].1);
  }
}
