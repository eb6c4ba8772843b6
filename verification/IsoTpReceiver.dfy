/** What the receiver guarantees for every sequence of calls. */
module IsoTpReceiver {
  import opened Clock
  import opened Bytes
  import opened Numbers
  import opened IsoTp

  datatype RxEvent =
    | Arrive(frame: Frame, now: Time)
    | TakeFc(now: Time)
    | FcSent(success: bool, now: Time)
    | Poll(now: Time)

  function RxApply(rx: Rx, e: RxEvent): (o: RxFeedOut)
    requires RxValid(rx)
  {
    match e
    case Arrive(f, now) => RxFeed(rx, f, now)
    case TakeFc(now) => var o := RxFlowControl(rx, now); RxFeedOut(o.rx, o.rc, NO_SEGMENT)
    case FcSent(success, now) =>
      var o := RxConfirm(rx, success, now); RxFeedOut(o.rx, o.rc, NO_SEGMENT)
    case Poll(now) => var o := RxCheckTimeout(rx, now); RxFeedOut(o.rx, o.rc, NO_SEGMENT)
  }

  /** What an onlooker who sees only the returned segments has gathered since
      the last one marked `started`: the bytes, and how many consecutive frames. */
  datatype Observed = Observed(bytes: seq<Byte>, cfs: nat)

  function Observe(o: Observed, s: Segment): (r: Observed)
  {
    if s.started then Observed(s.data, 0)
    else if |s.data| > 0 then Observed(o.bytes + s.data, o.cfs + 1)
    else o
  }

  /** A message is under way: first frame taken, not all of it here. */
  predicate Receiving(rx: Rx) { !rx.phase.RxIdle? && rx.flowStatus == 0 }

  /** The internal counters and the caller's buffer say what the onlooker saw. */
  ghost predicate Sound(rx: Rx, o: Observed) {
    && RxValid(rx)
    && (rx.config.functional ==> rx.phase.RxIdle?)
    && (Receiving(rx) ==>
          && rx.offset == |o.bytes|
          && rx.sequence == (o.cfs + 1) % 16
          && (rx.store.Store? ==> rx.store.bytes[..rx.offset] == o.bytes))
  }

  /** The segment is a slice of the frame's data field, just after its header. */
  ghost predicate SegmentOf(f: Frame, a: nat, s: Segment)
    requires a <= 1
  {
    var start := if High(f.data[a]) == 1 then a + 2 else a + 1;
    start + |s.data| <= f.dlc <= 8 && s.data == f.data[start..start + |s.data|]
  }

  /** What is promised of one call. */
  ghost predicate StepPromise(rx: Rx, o: Observed, e: RxEvent, out: RxFeedOut) {
    var s := out.segment;
    var after := Observe(o, s);
    && out.rx.config == rx.config && out.rx.capacity == rx.capacity
    && out.rx.store.Store? == rx.store.Store?
    // segments are contiguous from 0 and lie inside the announced message
    && (|s.data| > 0 <==> out.rc == Complete || (out.rc == Handled && e.Arrive?))
    && (s.started ==> s.offset == 0 && |s.data| > 0)
    && (!s.started && |s.data| > 0 ==> s.offset == |o.bytes|)
    && (|s.data| > 0 ==> s.offset + |s.data| <= s.total <= rx.capacity)
    && (s.complete <==> out.rc == Complete)
    && (s.complete ==> |after.bytes| == s.total)
    // and each was carried by the frame that arrived, consecutive ones in order
    && (|s.data| > 0 ==> e.Arrive? && SegmentOf(e.frame, Addr(rx.config), s))
    && (!s.started && |s.data| > 0 ==>
          High(e.frame.data[Addr(rx.config)]) == 2
          && Low(e.frame.data[Addr(rx.config)]) == after.cfs % 16
          && rx.phase.RxCf?)
    && BufferPromise(rx.store, out.rx.store, s, after.bytes)
  }

  /** The caller's buffer holds exactly the observed bytes, and nothing
      outside them was touched. */
  ghost predicate BufferPromise(was: Store, now: Store, s: Segment, seen: seq<Byte>) {
    if |s.data| == 0 || was.NoStore? then now == was
    else
      && now.Store? && |was.bytes| == |now.bytes| && |seen| <= |now.bytes|
      && now.bytes[..|seen|] == seen
      && forall i :: |seen| <= i < |now.bytes| ==> now.bytes[i] == was.bytes[i]
  }

  /** The call keeps the counters in step with the onlooker, and its promise. */
  ghost predicate Kept(rx: Rx, o: Observed, e: RxEvent, out: RxFeedOut) {
    Sound(out.rx, Observe(o, out.segment)) && StepPromise(rx, o, e, out)
  }

  lemma {:induction false} OverlayPrefix(base: seq<Byte>, start: nat, bytes: seq<Byte>)
    requires start + |bytes| <= |base|
    ensures Overlay(base, start, bytes)[..start + |bytes|] == base[..start] + bytes
    ensures forall i :: start + |bytes| <= i < |base| ==> Overlay(base, start, bytes)[i] == base[i]
  {
  }

  lemma {:induction false} OpeningSound(rx: Rx, o: Observed, f: Frame, now: Time)
    requires Sound(rx, o) && Matches(rx.config, f) && High(f.data[Addr(rx.config)]) <= 1
    ensures Kept(rx, o, Arrive(f, now), FeedOpening(rx, f, now))
  {
    if FeedOpening(rx, f, now).segment.started {
      OpenedSound(rx, o, f, now);
    } else {
      UnopenedSound(rx, o, f, now);
    }
  }

  lemma {:induction false} UnopenedSound(rx: Rx, o: Observed, f: Frame, now: Time)
    requires Sound(rx, o) && Matches(rx.config, f) && High(f.data[Addr(rx.config)]) <= 1
    requires !FeedOpening(rx, f, now).segment.started
    ensures Kept(rx, o, Arrive(f, now), FeedOpening(rx, f, now))
  {
    hide Overlay, AgreeOn, ValidId, ValidConfig, Later, AtOrAfter, Low;
  }

  lemma {:induction false} OpenedSound(rx: Rx, o: Observed, f: Frame, now: Time)
    requires Sound(rx, o) && Matches(rx.config, f) && High(f.data[Addr(rx.config)]) <= 1
    requires FeedOpening(rx, f, now).segment.started
    ensures Kept(rx, o, Arrive(f, now), FeedOpening(rx, f, now))
  {
    hide Overlay, AgreeOn, ValidId, ValidConfig, Later, AtOrAfter, Low;
    var out := FeedOpening(rx, f, now);
    var s := out.segment;
    var a := Addr(rx.config);
    assert f.data[a + 2..] == f.data[a + 2..8];
    if rx.store.Store? && s.started {
      OverlayPrefix(rx.store.bytes, 0, s.data);
      assert out.rx.store.bytes == Overlay(rx.store.bytes, 0, s.data);
      assert rx.store.bytes[..0] + s.data == s.data;
    }
  }

  /** A consecutive frame of the expected sequence number and enough length. */
  predicate Accepts(rx: Rx, f: Frame)
    requires RxValid(rx) && rx.phase.RxCf? && Matches(rx.config, f)
  {
    var a := Addr(rx.config);
    f.dlc >= a + 1 + Min(rx.total - rx.offset, 7 - a) && Low(f.data[a]) == rx.sequence
  }

  lemma {:induction false} AcceptedSound(rx: Rx, o: Observed, f: Frame, now: Time)
    requires Sound(rx, o) && rx.phase.RxCf? && Matches(rx.config, f)
    requires High(f.data[Addr(rx.config)]) == 2 && Accepts(rx, f)
    ensures Kept(rx, o, Arrive(f, now), FeedConsecutive(rx, f, now))
  {
    hide Overlay, AgreeOn, ValidId, ValidConfig, Later, Low, High, AtOrAfter;
    var out := FeedConsecutive(rx, f, now);
    var s := out.segment;
    assert (o.cfs + 2) % 16 == (rx.sequence + 1) % 16;
    if rx.store.Store? {
      OverlayPrefix(rx.store.bytes, rx.offset, s.data);
      assert out.rx.store.bytes == Overlay(rx.store.bytes, rx.offset, s.data);
      assert BufferPromise(rx.store, out.rx.store, s, o.bytes + s.data);
    }
    assert Observe(o, s) == Observed(o.bytes + s.data, o.cfs + 1);
    assert Sound(out.rx, Observe(o, s));
    assert SegmentOf(f, Addr(rx.config), s);
  }

  lemma {:induction false} RefusedSound(rx: Rx, o: Observed, f: Frame, now: Time)
    requires Sound(rx, o) && rx.phase.RxCf? && Matches(rx.config, f)
    requires High(f.data[Addr(rx.config)]) == 2 && !Accepts(rx, f)
    ensures Kept(rx, o, Arrive(f, now), FeedConsecutive(rx, f, now))
  {
    assert FeedConsecutive(rx, f, now).segment == NO_SEGMENT;
  }

  lemma {:induction false} ArriveSound(rx: Rx, o: Observed, f: Frame, now: Time)
    requires Sound(rx, o)
    ensures Kept(rx, o, Arrive(f, now), RxFeed(rx, f, now))
  {
    var out := RxFeed(rx, f, now);
    if RxCheckTimeout(rx, now).rc.Negative() || !Matches(rx.config, f) {
      assert out.segment == NO_SEGMENT;
    } else {
      var kind := High(f.data[Addr(rx.config)]);
      if kind <= 1 {
        OpeningSound(rx, o, f, now);
        assert out == FeedOpening(rx, f, now);
      } else if kind == 2 && rx.phase.RxCf? {
        assert out == FeedConsecutive(rx, f, now);
        if Accepts(rx, f) { AcceptedSound(rx, o, f, now); } else { RefusedSound(rx, o, f, now); }
      } else {
        assert out.segment == NO_SEGMENT && out.rx == rx;
      }
    }
  }

  /** A call that only moves the phase, or ends the reception. */
  lemma {:induction false} MovedKept(rx: Rx, o: Observed, e: RxEvent, rx': Rx, rc: Rc)
    requires Sound(rx, o) && !e.Arrive? && rc != Complete
    requires rx' == rx.(phase := rx'.phase, deadline := rx'.deadline)
    requires !rx'.phase.RxIdle? ==> !rx.phase.RxIdle? && (rx'.phase.RxCf? ==> rx.flowStatus == 0)
    ensures Kept(rx, o, e, RxFeedOut(rx', rc, NO_SEGMENT))
  {
  }

  lemma {:induction false} LocalSound(rx: Rx, o: Observed, e: RxEvent)
    requires Sound(rx, o) && !e.Arrive?
    ensures Kept(rx, o, e, RxApply(rx, e))
  {
    var out := RxApply(rx, e);
    MovedKept(rx, o, e, out.rx, out.rc);
  }

  lemma {:induction false} StepSound(rx: Rx, o: Observed, e: RxEvent)
    requires Sound(rx, o)
    ensures Kept(rx, o, e, RxApply(rx, e))
  {
    match e
    case Arrive(f, now) => ArriveSound(rx, o, f, now);
    case _ => LocalSound(rx, o, e);
  }

  // ---- Whole runs ----

  datatype RxRun = RxRun(rx: Rx, seen: Observed)

  /** The receiver and the onlooker after the calls `es`. */
  ghost function After(start: RxRun, es: seq<RxEvent>): (r: RxRun)
    requires Sound(start.rx, start.seen)
    ensures Sound(r.rx, r.seen)
    ensures r.rx.config == start.rx.config && r.rx.capacity == start.rx.capacity
  {
    if es == [] then start
    else
      var before := After(start, es[..|es| - 1]);
      var e := es[|es| - 1];
      var out := RxApply(before.rx, e);
      StepSound(before.rx, before.seen, e);
      RxRun(out.rx, Observe(before.seen, out.segment))
  }

  lemma {:induction false} AfterOne(start: RxRun, es: seq<RxEvent>, e: RxEvent)
    requires Sound(start.rx, start.seen)
    ensures var before := After(start, es);
            var out := RxApply(before.rx, e);
            After(start, es + [e]) == RxRun(out.rx, Observe(before.seen, out.segment))
  {
    assert (es + [e])[..|es|] == es;
  }

  /** Receiver soundness: in every run from initialisation, whatever frames,
      times, confirmations and polls it is given, every single call keeps its
      promise. */
  lemma {:induction false} ReceiverSound(c: Config, store: Store, capacity: nat, es: seq<RxEvent>, i: nat)
    requires ValidConfig(c) && (store.Store? ==> |store.bytes| == capacity)
    requires i < |es|
    ensures var start := RxRun(RxInit(c, store, capacity), Observed([], 0));
            var before := After(start, es[..i]);
            var after := After(start, es[..i + 1]);
            var out := RxApply(before.rx, es[i]);
            && after == RxRun(out.rx, Observe(before.seen, out.segment))
            && StepPromise(before.rx, before.seen, es[i], out)
            && (after.rx.phase.RxCf? ==>
                  0 < after.rx.offset < after.rx.total <= capacity && after.rx.flowStatus == 0
                  && after.rx.offset == |after.seen.bytes|)
  {
    var start := RxRun(RxInit(c, store, capacity), Observed([], 0));
    var before := After(start, es[..i]);
    assert es[..i + 1][..i] == es[..i];
    StepSound(before.rx, before.seen, es[i]);
  }
}
