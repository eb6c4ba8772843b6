/** Reassembly over a link that may lose any frames but keeps their order. */
module IsoTpLossy {
  import opened Clock
  import opened Bytes
  import opened IsoTp
  import opened IsoTpSegmentation
  import opened IsoTpReceiver

  /** Frame `k` of transfer `j` arrives, or the receiver's owner makes a call. */
  datatype LinkEvent = Deliver(j: nat, k: nat, now: Time) | Local(e: RxEvent)

  datatype Position = Start | At(j: nat, k: nat)

  /** The last frame that came through; and, of the transfer whose first frame
      came through last, the last frame that did. */
  datatype Reach = Reach(last: Position, head: Position)

  ghost predicate Sendable(c: Config, payloads: seq<seq<Byte>>) {
    forall j :: 0 <= j < |payloads| ==> Acceptable(c, payloads[j])
  }

  /** The frame follows the first frame of its own transfer. */
  predicate Headed(pos: Position, e: LinkEvent) {
    e.Deliver? && (e.k == 0 || (pos.At? && pos.j == e.j))
  }

  ghost function Place(pos: Reach, e: LinkEvent): (r: Reach) {
    match e
    case Deliver(j, k, _) => Reach(At(j, k), if Headed(pos.head, e) then At(j, k) else pos.head)
    case Local(_) => pos
  }

  /** The event is possible on an order-preserving link. */
  ghost predicate InOrder(c: Config, payloads: seq<seq<Byte>>, pos: Position, e: LinkEvent) {
    match e
    case Local(l) => !l.Arrive?
    case Deliver(j, k, _) =>
      && j < |payloads| && k < FrameCount(c, |payloads[j]|)
      && (pos.At? ==> pos.j < j || (pos.j == j && pos.k < k))
  }

  ghost function AsRx(c: Config, payloads: seq<seq<Byte>>, e: LinkEvent): (r: RxEvent)
    requires Sendable(c, payloads) && (e.Deliver? ==> e.j < |payloads|)
  {
    match e
    case Local(l) => l
    case Deliver(j, k, now) => Arrive(NthFrame(c, payloads[j], k), now)
  }

  /** What has been accepted of the current transfer: as many frames as came
      through or fewer, and exactly its bytes if as many. */
  ghost predicate Tracking(c: Config, payloads: seq<seq<Byte>>, pos: Position, r: RxRun) {
    && Sound(r.rx, r.seen)
    && (Receiving(r.rx) ==>
          && pos.At? && pos.j < |payloads|
          && var p := payloads[pos.j];
             && pos.k < FrameCount(c, |p|) && |p| > 7 - Addr(c)
             && r.rx.total == |p|
             && r.seen.cfs <= pos.k
             && |r.seen.bytes| == OffsetOf(c, |p|, r.seen.cfs + 1)
             && (r.seen.cfs == pos.k ==> r.seen.bytes == p[..OffsetOf(c, |p|, r.seen.cfs + 1)]))
  }

  /** The first or only frame of a transfer opens it, whatever was going on. */
  lemma {:induction false} OpeningTracks(c: Config, payloads: seq<seq<Byte>>, pos: Position, r: RxRun, j: nat,
                      f: Frame, now: Time)
    requires Sendable(c, payloads) && c.extended == r.rx.config.extended
    requires Tracking(c, payloads, pos, r) && j < |payloads|
    requires Carries(c, payloads[j], 0, f) && Matches(r.rx.config, f)
    ensures var out := RxFeed(r.rx, f, now);
            var after := RxRun(out.rx, Observe(r.seen, out.segment));
            && Tracking(c, payloads, At(j, 0), after)
            && (out.rc == Complete ==> after.seen.bytes == payloads[j])
  {
    hide Overlay, AgreeOn, ValidId, ValidConfig, Later, AtOrAfter, FrameCount;
    var p := payloads[j];
    ArriveSound(r.rx, r.seen, f, now);
    var out := RxFeed(r.rx, f, now);
    if !RxCheckTimeout(r.rx, now).rc.Negative() {
      assert out == FeedOpening(r.rx, f, now);
      assert Announced(r.rx.config, f) == (if |p| > 7 - Addr(c) && r.rx.config.functional then 0 else |p|);
      if out.segment.started {
        var a := Addr(c);
        assert f.data[a + 2..] == f.data[a + 2..8];
        assert out.segment.data == p[..SizeAt(c, |p|, 0)];
      }
    }
  }

  /** The receiver wants frame `wanted` of `p` next. */
  ghost predicate Wants(c: Config, p: seq<Byte>, rx: Rx, wanted: nat) {
    && RxValid(rx) && rx.phase.RxCf? && rx.config.extended == c.extended
    && 0 < wanted < FrameCount(c, |p|) && |p| > 7 - Addr(c)
    && rx.total == |p| && rx.offset == OffsetOf(c, |p|, wanted) && rx.sequence == wanted % 16
  }

  /** A receiver that wants frame `wanted` of `p` gets consecutive frame `k` of
      any transfer `q`: it does not look at it if it is too short, takes it if
      the numbers agree modulo 16, and otherwise gives up. */
  lemma {:induction false} AnyFrame(c: Config, p: seq<Byte>, q: seq<Byte>, rx: Rx, wanted: nat, k: nat,
                                    f: Frame, now: Time)
    requires |p| <= MAX_PAYLOAD && Wants(c, p, rx, wanted) && !AtOrAfter(now, rx.deadline)
    requires 0 < |q| <= MAX_PAYLOAD && 0 < k < FrameCount(c, |q|) && Carries(c, q, k, f) && Matches(rx.config, f)
    ensures var out := RxFeed(rx, f, now);
            var size := SizeAt(c, |p|, rx.offset);
            if f.dlc < Addr(c) + 1 + size then out == RxFeedOut(rx, Ignored, NO_SEGMENT)
            else if k % 16 == wanted % 16 then
              !out.rc.Negative() && out.segment.offset == rx.offset && |out.segment.data| == size
              && out.segment.total == rx.total
              && out.segment.data == f.data[Addr(c) + 1..Addr(c) + 1 + size]
            else out == RxFeedOut(rx.(phase := RxIdle), ErrSequence, NO_SEGMENT)
  {
    hide AgreeOn, ValidId, ValidConfig, Later, Overlay;
    OffsetBounds(c, |p|, wanted);
    assert RxFeed(rx, f, now) == FeedConsecutive(rx, f, now);
  }

  /** Within one transfer: a consecutive frame is taken exactly when the number
      of frames missing before it is a multiple of 16; and one too short to
      fill the gap is not the one wanted. */
  lemma {:induction false} GapDetection(c: Config, p: seq<Byte>, rx: Rx, wanted: nat, k: nat, f: Frame, now: Time)
    requires |p| <= MAX_PAYLOAD && Wants(c, p, rx, wanted) && !AtOrAfter(now, rx.deadline)
    requires wanted <= k < FrameCount(c, |p|) && Carries(c, p, k, f) && Matches(rx.config, f)
    ensures var out := RxFeed(rx, f, now);
            var size := SizeAt(c, |p|, rx.offset);
            if f.dlc < Addr(c) + 1 + size then out == RxFeedOut(rx, Ignored, NO_SEGMENT) && wanted < k
            else if (k - wanted) % 16 == 0 then
              !out.rc.Negative() && out.segment.offset == rx.offset && |out.segment.data| == size
              && out.segment.total == rx.total
              && out.segment.data == f.data[Addr(c) + 1..Addr(c) + 1 + size]
            else out == RxFeedOut(rx.(phase := RxIdle), ErrSequence, NO_SEGMENT)
  {
    hide RxFeed, Matches, FrameCount, AtOrAfter, RxValid;
    AnyFrame(c, p, p, rx, wanted, k, f, now);
    SameRemainder(k, wanted);
  }

  lemma {:induction false} SameRemainder(x: nat, y: nat)
    requires y <= x
    ensures x % 16 == y % 16 <==> (x - y) % 16 == 0
  {
  }

  /** A consecutive frame never adds bytes that look right and are not. */
  lemma {:induction false} ConsecutiveTracks(c: Config, payloads: seq<seq<Byte>>, pos: Position, r: RxRun,
                          k: nat, f: Frame, now: Time)
    requires Sendable(c, payloads) && c.extended == r.rx.config.extended
    requires Tracking(c, payloads, pos, r)
    requires pos.At? && pos.j < |payloads| && pos.k < k < FrameCount(c, |payloads[pos.j]|)
    requires Carries(c, payloads[pos.j], k, f) && Matches(r.rx.config, f)
    ensures var out := RxFeed(r.rx, f, now);
            var after := RxRun(out.rx, Observe(r.seen, out.segment));
            && Tracking(c, payloads, At(pos.j, k), after)
            && (out.rc == Complete ==> after.seen.bytes == payloads[pos.j])
  {
    hide AgreeOn, ValidId, ValidConfig, Later, FeedConsecutive, FeedOpening, FrameCount, OffsetOf;
    ArriveSound(r.rx, r.seen, f, now);
    var out := RxFeed(r.rx, f, now);
    ConsecutiveFrame(r.rx, f, now);
    if r.rx.phase.RxCf? && !RxCheckTimeout(r.rx, now).rc.Negative() {
      GapDetection(c, payloads[pos.j], r.rx, r.seen.cfs + 1, k, f, now);
    }
    TrackedOutcome(c, payloads, pos, r, k, f, now, out);
  }

  lemma {:induction false} ConsecutiveFrame(rx: Rx, f: Frame, now: Time)
    requires RxValid(rx) && Matches(rx.config, f) && High(f.data[Addr(rx.config)]) == 2
    ensures var out := RxFeed(rx, f, now);
            && out.rx.total == rx.total && !out.segment.started
            && (Receiving(out.rx) ==> Receiving(rx))
            && (|out.segment.data| > 0 ==> rx.phase.RxCf? && !RxCheckTimeout(rx, now).rc.Negative())
  {
  }

  lemma {:induction false} TrackedOutcome(c: Config, payloads: seq<seq<Byte>>, pos: Position, r: RxRun,
                       k: nat, f: Frame, now: Time, out: RxFeedOut)
    requires Sendable(c, payloads) && c.extended == r.rx.config.extended
    requires Tracking(c, payloads, pos, r)
    requires pos.At? && pos.j < |payloads| && pos.k < k < FrameCount(c, |payloads[pos.j]|)
    requires Carries(c, payloads[pos.j], k, f)
    requires Sound(out.rx, Observe(r.seen, out.segment))
    requires StepPromise(r.rx, r.seen, Arrive(f, now), out)
    requires out.rx.total == r.rx.total && !out.segment.started
    requires Receiving(out.rx) ==> Receiving(r.rx)
    requires |out.segment.data| > 0 ==>
      && Receiving(r.rx)
      && |out.segment.data| == SizeAt(c, |payloads[pos.j]|, r.rx.offset)
      && Addr(c) + 1 + |out.segment.data| <= 8
      && out.segment.data == f.data[Addr(c) + 1..Addr(c) + 1 + |out.segment.data|]
    requires |out.segment.data| > 0 ==> out.segment.total == r.rx.total
    ensures var after := RxRun(out.rx, Observe(r.seen, out.segment));
            && Tracking(c, payloads, At(pos.j, k), after)
            && (out.rc == Complete ==> after.seen.bytes == payloads[pos.j])
  {
    if |out.segment.data| > 0 {
      AcceptedExtends(c, payloads[pos.j], r, k, f, out.segment);
    }
  }

  /** The bytes gathered grow by one frame's worth; they are the payload's own
      if no frame was missing, and they are all there only in that case. */
  lemma {:induction false} AcceptedExtends(c: Config, p: seq<Byte>, r: RxRun, k: nat, f: Frame, s: Segment)
    requires 0 < |p| <= MAX_PAYLOAD && r.seen.cfs < k < FrameCount(c, |p|) && Carries(c, p, k, f)
    requires |p| > 7 - Addr(c) && |r.seen.bytes| == OffsetOf(c, |p|, r.seen.cfs + 1)
    requires r.seen.cfs + 1 == k ==> r.seen.bytes == p[..|r.seen.bytes|]
    requires |s.data| == SizeAt(c, |p|, |r.seen.bytes|) && Addr(c) + 1 + |s.data| <= 8
    requires s.data == f.data[Addr(c) + 1..Addr(c) + 1 + |s.data|]
    ensures |r.seen.bytes + s.data| == OffsetOf(c, |p|, r.seen.cfs + 2)
    ensures r.seen.cfs + 1 == k ==> r.seen.bytes + s.data == p[..OffsetOf(c, |p|, k + 1)]
    ensures |r.seen.bytes + s.data| == |p| ==> r.seen.bytes + s.data == p
  {
    hide OffsetOf, FrameCount;
    var n := r.seen.cfs + 1;
    OffsetStep(c, |p|, n);
    OffsetBounds(c, |p|, n + 1);
    if n == k {
      var size := |s.data|;
      var offset := OffsetOf(c, |p|, k);
      PrefixGrows(p, offset, size);
    }
  }

  /** The receiver would take this frame as the continuation of what it has. */
  predicate Takes(rx: Rx, f: Frame, now: Time)
    requires RxValid(rx)
  {
    && rx.phase.RxCf? && !AtOrAfter(now, rx.deadline) && Matches(rx.config, f)
    && High(f.data[Addr(rx.config)]) == 2 && Accepts(rx, f)
  }

  /** A consecutive frame that it does not take adds nothing, and leaves a
      message under way as it was or ends it. */
  lemma {:induction false} NotTaken(r: RxRun, f: Frame, now: Time)
    requires Sound(r.rx, r.seen) && Matches(r.rx.config, f) && High(f.data[Addr(r.rx.config)]) == 2
    requires !Takes(r.rx, f, now)
    ensures var out := RxFeed(r.rx, f, now);
            out.segment == NO_SEGMENT && out.rc != Complete && (Receiving(out.rx) ==> out.rx == r.rx)
  {
    hide AgreeOn, ValidId, ValidConfig, Later, Overlay;
    if r.rx.phase.RxCf? && !AtOrAfter(now, r.rx.deadline) {
      assert RxFeed(r.rx, f, now) == FeedConsecutive(r.rx, f, now);
    }
  }

  /** The event does not splice: a frame that does not follow its own first frame
      is not one that the receiver, where it stands, would take. */
  ghost predicate NoSplice(c: Config, payloads: seq<seq<Byte>>, pos: Position, rx: Rx, e: LinkEvent)
    requires Sendable(c, payloads) && RxValid(rx) && (e.Deliver? ==> e.j < |payloads|)
  {
    e.Deliver? && !Headed(pos, e) ==> !Takes(rx, NthFrame(c, payloads[e.j], e.k), e.now)
  }

  /** Frames since the last first frame are those of its transfer, in order. */
  ghost predicate Aligned(pos: Reach) {
    pos.head.At? ==> pos.last.At? && pos.head.j <= pos.last.j && (pos.head.j == pos.last.j ==> pos.head == pos.last)
  }

  lemma {:induction false} LinkStep(c: Config, payloads: seq<seq<Byte>>, pos: Reach, r: RxRun, e: LinkEvent)
    requires Sendable(c, payloads) && Linked(c, r.rx.config) && Aligned(pos)
    requires Tracking(c, payloads, pos.head, r) && InOrder(c, payloads, pos.last, e)
    requires NoSplice(c, payloads, pos.head, r.rx, e)
    ensures Aligned(Place(pos, e))
    ensures var out := RxApply(r.rx, AsRx(c, payloads, e));
            var after := RxRun(out.rx, Observe(r.seen, out.segment));
            && Tracking(c, payloads, Place(pos, e).head, after)
            && (out.rc == Complete ==> e.Deliver? && after.seen.bytes == payloads[e.j])
  {
    hide RxFeed, Takes, Linked, FrameCount, OffsetOf;
    match e
    case Local(l) =>
      LocalSound(r.rx, r.seen, l);
      LocalTracks(c, payloads, pos.head, r, l);
    case Deliver(j, k, now) =>
      var f := NthFrame(c, payloads[j], k);
      NthFrameCarries(c, r.rx.config, payloads[j], k);
      LinkedAddresses(c, r.rx.config);
      if k == 0 {
        OpeningTracks(c, payloads, pos.head, r, j, f, now);
      } else if Headed(pos.head, e) {
        ConsecutiveTracks(c, payloads, pos.head, r, k, f, now);
      } else {
        StepSound(r.rx, r.seen, Arrive(f, now));
        NotTaken(r, f, now);
      }
  }

  lemma {:induction false} LinkedAddresses(sender: Config, receiver: Config)
    requires Linked(sender, receiver)
    ensures sender.extended == receiver.extended
  {
  }

  lemma {:induction false} LocalTracks(c: Config, payloads: seq<seq<Byte>>, pos: Position, r: RxRun, l: RxEvent)
    requires Tracking(c, payloads, pos, r) && !l.Arrive?
    ensures var out := RxApply(r.rx, l);
            Tracking(c, payloads, pos, RxRun(out.rx, Observe(r.seen, out.segment))) && out.rc != Complete
  {
    hide FrameCount, OffsetOf;
    LocalSound(r.rx, r.seen, l);
  }

  /** A run of the link: frames arrive in the order they were sent. */
  ghost predicate Ordered(c: Config, payloads: seq<seq<Byte>>, es: seq<LinkEvent>) {
    && Sendable(c, payloads)
    && (es != [] ==>
          && Ordered(c, payloads, es[..|es| - 1])
          && InOrder(c, payloads, Reached(es[..|es| - 1]).last, es[|es| - 1]))
  }

  ghost function Reached(es: seq<LinkEvent>): (pos: Reach) {
    if es == [] then Reach(Start, Start) else Place(Reached(es[..|es| - 1]), es[|es| - 1])
  }

  ghost function RxEvents(c: Config, payloads: seq<seq<Byte>>, es: seq<LinkEvent>): (r: seq<RxEvent>)
    requires Ordered(c, payloads, es)
    ensures |r| == |es|
  {
    if es == [] then []
    else RxEvents(c, payloads, es[..|es| - 1]) + [AsRx(c, payloads, es[|es| - 1])]
  }

  /** No event of the run splices. */
  ghost predicate Unspliced(c: Config, payloads: seq<seq<Byte>>, start: RxRun, es: seq<LinkEvent>)
    requires Ordered(c, payloads, es) && Sound(start.rx, start.seen)
  {
    es != [] ==>
      var before := es[..|es| - 1];
      && Unspliced(c, payloads, start, before)
      && NoSplice(c, payloads, Reached(before).head, After(start, RxEvents(c, payloads, before)).rx, es[|es| - 1])
  }

  lemma {:induction false} LossyTracks(c: Config, payloads: seq<seq<Byte>>, start: RxRun, es: seq<LinkEvent>)
    requires Ordered(c, payloads, es)
    requires Sound(start.rx, start.seen) && start.rx.phase.RxIdle? && Linked(c, start.rx.config)
    requires Unspliced(c, payloads, start, es)
    ensures Aligned(Reached(es))
    ensures Tracking(c, payloads, Reached(es).head, After(start, RxEvents(c, payloads, es)))
  {
    hide Tracking, Linked, NoSplice, Place;
    if es == [] {
      NothingTracked(c, payloads, start);
    } else {
      var before := es[..|es| - 1];
      LossyTracks(c, payloads, start, before);
      var r := After(start, RxEvents(c, payloads, before));
      LinkStep(c, payloads, Reached(before), r, es[|es| - 1]);
      AfterOne(start, RxEvents(c, payloads, before), AsRx(c, payloads, es[|es| - 1]));
    }
  }

  lemma {:induction false} NothingTracked(c: Config, payloads: seq<seq<Byte>>, r: RxRun)
    requires Sound(r.rx, r.seen) && r.rx.phase.RxIdle?
    ensures Tracking(c, payloads, Start, r)
  {
  }

  /** However many frames of however many transfers are lost, as long as those
      that arrive keep their order and none that lacks its own first frame is
      one the receiver would take for the frame it wants, a message is reported
      complete only with exactly the bytes that were sent. */
  lemma {:induction false} NeverWrongComplete(c: Config, payloads: seq<seq<Byte>>, start: RxRun,
                                              es: seq<LinkEvent>, e: LinkEvent)
    requires Ordered(c, payloads, es + [e])
    requires Sound(start.rx, start.seen) && start.rx.phase.RxIdle? && Linked(c, start.rx.config)
    requires Unspliced(c, payloads, start, es + [e])
    ensures (es + [e])[..|es|] == es
    ensures var r := After(start, RxEvents(c, payloads, es));
            var out := RxApply(r.rx, AsRx(c, payloads, e));
            var seen := Observe(r.seen, out.segment);
            out.rc == Complete ==>
              && e.Deliver? && seen.bytes == payloads[e.j]
              && BufferPromise(r.rx.store, out.rx.store, out.segment, payloads[e.j])
  {
    hide Tracking, Linked, NoSplice, Place;
    assert (es + [e])[..|es|] == es;
    LossyTracks(c, payloads, start, es);
    var r := After(start, RxEvents(c, payloads, es));
    LinkStep(c, payloads, Reached(es), r, e);
    StepSound(r.rx, r.seen, AsRx(c, payloads, e));
  }

  // ---- Long enough a silence ----

  /** The caller can tell: a segment was handed over, or the flow control it
      reported as sent was waited for. */
  predicate Advances(e: RxEvent, out: RxFeedOut) {
    |out.segment.data| > 0 || (e.FcSent? && out.rc == Ignored)
  }

  /** The true time of the last call that advanced the reception; `ats` are the
      true times of the events. */
  ghost function LastAdvance(c: Config, payloads: seq<seq<Byte>>, start: RxRun, es: seq<LinkEvent>, ats: seq<int>)
    : (w: When)
    requires Ordered(c, payloads, es) && Sound(start.rx, start.seen) && |ats| == |es|
  {
    if es == [] then Never
    else
      var n := |es| - 1;
      var rx := After(start, RxEvents(c, payloads, es[..n])).rx;
      var e := AsRx(c, payloads, es[n]);
      if Advances(e, RxApply(rx, e)) then Once(ats[n]) else LastAdvance(c, payloads, start, es[..n], ats[..n])
  }

  function TimeOf(e: LinkEvent): (t: Time) { if e.Deliver? then e.now else e.e.now }

  /** The events are stamped with the clock, and a frame that lacks its own first
      frame arrives only after the time-out for consecutive frames has passed
      since the last advance, by less than half a wrap. */
  ghost predicate Patient(c: Config, payloads: seq<seq<Byte>>, start: RxRun, es: seq<LinkEvent>, ats: seq<int>)
    requires Ordered(c, payloads, es) && Sound(start.rx, start.seen) && |ats| == |es|
  {
    es != [] ==>
      var n := |es| - 1;
      var last := LastAdvance(c, payloads, start, es[..n], ats[..n]);
      && Patient(c, payloads, start, es[..n], ats[..n]) && TimeOf(es[n]) == Reading(ats[n])
      && (es[n].Deliver? && !Headed(Reached(es[..n]).head, es[n]) && last.Once? ==>
            0 <= ats[n] - (last.at + start.rx.config.timeoutCr) < HALF)
  }

  /** A receiver that waits for a consecutive frame does so since `w`. */
  ghost predicate WaitsSince(rx: Rx, w: When) {
    rx.phase.RxCf? ==> w.Once? && rx.deadline == Reading(w.at + rx.config.timeoutCr)
  }

  lemma {:induction false} WaitStep(rx: Rx, e: RxEvent, w: When, at: int)
    requires RxValid(rx) && WaitsSince(rx, w) && e.now == Reading(at)
    ensures var out := RxApply(rx, e); WaitsSince(out.rx, if Advances(e, out) then Once(at) else w)
  {
    LaterReads(at, rx.config.timeoutCr);
    hide Reading, AtOrAfter, AgreeOn, ValidId, ValidConfig, Overlay;
  }

  lemma {:induction false} WaitKept(c: Config, payloads: seq<seq<Byte>>, start: RxRun, es: seq<LinkEvent>,
                                    ats: seq<int>)
    requires Ordered(c, payloads, es) && Sound(start.rx, start.seen) && start.rx.phase.RxIdle? && |ats| == |es|
    requires Patient(c, payloads, start, es, ats)
    ensures WaitsSince(After(start, RxEvents(c, payloads, es)).rx, LastAdvance(c, payloads, start, es, ats))
  {
    hide Place, Advances, RxApply;
    if es != [] {
      var n := |es| - 1;
      WaitKept(c, payloads, start, es[..n], ats[..n]);
      var rx := After(start, RxEvents(c, payloads, es[..n])).rx;
      WaitStep(rx, AsRx(c, payloads, es[n]), LastAdvance(c, payloads, start, es[..n], ats[..n]), ats[n]);
      AfterOne(start, RxEvents(c, payloads, es[..n]), AsRx(c, payloads, es[n]));
    }
  }

  /** What a caller can arrange on the link: if every frame that lacks its own
      first frame comes after such a silence, the run does not splice, and so
      never completes a wrong message. */
  lemma {:induction false} PatientIsUnspliced(c: Config, payloads: seq<seq<Byte>>, start: RxRun,
                                              es: seq<LinkEvent>, ats: seq<int>)
    requires Ordered(c, payloads, es) && Sound(start.rx, start.seen) && start.rx.phase.RxIdle? && |ats| == |es|
    requires Patient(c, payloads, start, es, ats)
    ensures Unspliced(c, payloads, start, es)
  {
    hide InOrder, Place, Advances, RxApply, Accepts, AgreeOn;
    if es != [] {
      var n := |es| - 1;
      PatientIsUnspliced(c, payloads, start, es[..n], ats[..n]);
      WaitKept(c, payloads, start, es[..n], ats[..n]);
      var last := LastAdvance(c, payloads, start, es[..n], ats[..n]);
      if es[n].Deliver? && !Headed(Reached(es[..n]).head, es[n]) && last.Once? {
        ReadingsCompare(ats[n], last.at + start.rx.config.timeoutCr);
      }
    }
  }

  // ---- Splices ----

  /** A frame arrives and, if that makes a flow control due, it goes out. */
  ghost function Answering(rx: Rx, f: Frame, now: Time): (es: seq<RxEvent>)
    requires RxValid(rx)
  {
    [Arrive(f, now)] + if RxFeed(rx, f, now).rx.phase.FcReady? then [TakeFc(now), FcSent(true, now)] else []
  }

  ghost function Serve(r: RxRun, f: Frame, now: Time): (r': RxRun)
    requires Sound(r.rx, r.seen)
    ensures Sound(r'.rx, r'.seen) && r'.rx.config == r.rx.config && r'.rx.capacity == r.rx.capacity
  {
    After(r, Answering(r.rx, f, now))
  }

  /** Frames `from` up to `to` of `p` arrive and are answered. */
  ghost function ServeAll(r: RxRun, c: Config, p: seq<Byte>, from: nat, to: nat, now: Time): (r': RxRun)
    requires Sound(r.rx, r.seen) && from <= to && |p| <= MAX_PAYLOAD
    ensures Sound(r'.rx, r'.seen) && r'.rx.config == r.rx.config && r'.rx.capacity == r.rx.capacity
  {
    if from == to then r else Serve(ServeAll(r, c, p, from, to - 1, now), NthFrame(c, p, to - 1), now)
  }

  /** It awaits a consecutive frame now: frame `w` of a message of `n` bytes. */
  ghost predicate Awaits(c: Config, r: RxRun, n: nat, w: nat, now: Time) {
    && Sound(r.rx, r.seen) && r.rx.phase.RxCf? && !AtOrAfter(now, r.rx.deadline)
    && r.rx.config.extended == c.extended && 0 < w < FrameCount(c, n) && n > 7 - Addr(c)
    && r.rx.total == n && r.rx.offset == OffsetOf(c, n, w) && r.rx.sequence == w % 16
  }

  lemma {:induction false} AfterThree(r: RxRun, a: RxEvent, b: RxEvent, d: RxEvent)
    requires Sound(r.rx, r.seen)
    ensures After(r, [a]) == After(r, [] + [a])
    ensures After(r, [a] + [b, d]) == After(After(After(r, [a]), [b]), [d])
  {
    assert [] + [a] == [a];
    AfterOne(r, [], a);
    AfterOne(r, [a], b);
    AfterOne(r, [a] + [b], d);
    assert [a] + [b] + [d] == [a] + [b, d];
    AfterOne(After(r, [a]), [], b);
    assert [] + [b] == [b];
    AfterOne(After(After(r, [a]), [b]), [], d);
    assert [] + [d] == [d];
  }

  /** After one event. */
  lemma {:induction false} AfterJust(r: RxRun, a: RxEvent)
    requires Sound(r.rx, r.seen)
    ensures var out := RxApply(r.rx, a); After(r, [a]) == RxRun(out.rx, Observe(r.seen, out.segment))
  {
    assert [] + [a] == [a];
    AfterOne(r, [], a);
  }

  /** A flow control that is due goes out and puts the receiver back to waiting. */
  lemma {:induction false} FlowAnswered(r: RxRun, now: Time)
    requires Sound(r.rx, r.seen) && r.rx.phase.FcReady? && r.rx.flowStatus == 0
    requires r.rx.deadline == Later(now, r.rx.config.timeoutA)
    ensures After(After(r, [TakeFc(now)]), [FcSent(true, now)])
         == RxRun(r.rx.(phase := RxCf, deadline := Later(now, r.rx.config.timeoutCr)), r.seen)
  {
    NotYet(now, r.rx.config.timeoutA);
    AfterJust(r, TakeFc(now));
    AfterJust(After(r, [TakeFc(now)]), FcSent(true, now));
    hide AtOrAfter, Later;
  }

  /** The frame with the wanted number is taken, whatever message it is from. */
  lemma {:induction false} ServeTakes(c: Config, r: RxRun, n: nat, w: nat, f: Frame, now: Time)
    requires n <= MAX_PAYLOAD && Awaits(c, r, n, w, now) && Matches(r.rx.config, f)
    requires High(f.data[Addr(c)]) == 2 && Low(f.data[Addr(c)]) == w % 16
    requires f.dlc >= Addr(c) + 1 + SizeAt(c, n, OffsetOf(c, n, w))
    ensures var size := SizeAt(c, n, OffsetOf(c, n, w));
            var out := RxApply(r.rx, Arrive(f, now));
            && Observe(r.seen, out.segment).bytes == r.seen.bytes + f.data[Addr(c) + 1..Addr(c) + 1 + size]
            && (out.rc == Complete <==> w + 1 == FrameCount(c, n))
            && (w + 1 < FrameCount(c, n) ==>
                  && Awaits(c, Serve(r, f, now), n, w + 1, now)
                  && Serve(r, f, now).seen.bytes == r.seen.bytes + f.data[Addr(c) + 1..Addr(c) + 1 + size])
  {
    hide AgreeOn, ValidId, ValidConfig, Overlay, FrameCount, OffsetOf, Later;
    OffsetBounds(c, n, w);
    OffsetBounds(c, n, w + 1);
    OffsetStep(c, n, w);
    var out := RxFeed(r.rx, f, now);
    assert out == FeedConsecutive(r.rx, f, now);
    NextNumber(w);
    AfterJust(r, Arrive(f, now));
    if w + 1 < FrameCount(c, n) {
      StillAwaits(c, r, n, w, f, now, out);
    }
  }

  lemma {:induction false} NextNumber(w: nat)
    ensures (w % 16 + 1) % 16 == (w + 1) % 16
  {
  }

  lemma {:induction false} StillAwaits(c: Config, r: RxRun, n: nat, w: nat, f: Frame, now: Time, out: RxFeedOut)
    requires Sound(r.rx, r.seen) && out == RxFeed(r.rx, f, now) && w + 1 < FrameCount(c, n) && n > 7 - Addr(c)
    requires out.rx.config == r.rx.config && r.rx.config.extended == c.extended
    requires out.rx.flowStatus == 0 && out.rx.total == n && out.rx.offset == OffsetOf(c, n, w + 1)
    requires out.rx.sequence == (w + 1) % 16
    requires || (out.rx.phase.RxCf? && out.rx.deadline == Later(now, r.rx.config.timeoutCr))
             || (out.rx.phase.FcReady? && out.rx.deadline == Later(now, r.rx.config.timeoutA))
    requires ValidConfig(r.rx.config)
    ensures Awaits(c, Serve(r, f, now), n, w + 1, now)
    ensures Serve(r, f, now).seen == Observe(r.seen, out.segment)
  {
    NotYet(now, r.rx.config.timeoutCr);
    hide RxFeed, AtOrAfter, Later, FrameCount, OffsetOf;
    AfterJust(r, Arrive(f, now));
    var mid := After(r, [Arrive(f, now)]);
    if out.rx.phase.FcReady? {
      AfterThree(r, Arrive(f, now), TakeFc(now), FcSent(true, now));
      FlowAnswered(mid, now);
    } else {
      assert [Arrive(f, now)] + [] == [Arrive(f, now)];
    }
  }

  /** Where frame `k + i` starts, counted from where frame `k` does. */
  lemma {:induction false} OffsetsApart(c: Config, n: nat, k: nat, i: nat)
    requires n > 7 - Addr(c) && 0 < k && OffsetOf(c, n, k) < n
    ensures OffsetOf(c, n, k) + Full(c, i) < n ==>
      k + i < FrameCount(c, n) && OffsetOf(c, n, k + i) == OffsetOf(c, n, k) + Full(c, i)
    ensures k + i < FrameCount(c, n) ==> OffsetOf(c, n, k + i) == OffsetOf(c, n, k) + Full(c, i) < n
  {
    OffsetBounds(c, n, k + i);
  }

  /** `p` up to `x`, and then, as far as `to`, the bytes of `q` from `y` on. */
  ghost function Mixed(p: seq<Byte>, x: nat, q: seq<Byte>, y: nat, to: nat): (b: seq<Byte>)
    requires x <= to <= |p| && y + to - x <= |q|
  {
    p[..x] + q[y..y + to - x]
  }

  lemma {:induction false} MixedGrows(p: seq<Byte>, x: nat, q: seq<Byte>, y: nat, to: nat, size: nat)
    requires x <= to && to + size <= |p| && y + to + size - x <= |q|
    ensures Mixed(p, x, q, y, to) + q[y + to - x..y + to - x + size] == Mixed(p, x, q, y, to + size)
  {
    var from := y + to - x;
    assert q[y..from] + q[from..from + size] == q[y..from + size];
  }

  /** Frames of `q` from `k` on can stand in for those of `p` from `w` on: the
      numbers agree modulo 16, and there are bytes enough. */
  ghost predicate StandsIn(c: Config, p: seq<Byte>, w: nat, q: seq<Byte>, k: nat) {
    && 7 - Addr(c) < |p| <= MAX_PAYLOAD && 7 - Addr(c) < |q| <= MAX_PAYLOAD
    && 0 < w < FrameCount(c, |p|) && 0 < k && k % 16 == w % 16
    && OffsetOf(c, |q|, k) + |p| - OffsetOf(c, |p|, w) <= |q|
  }

  /** Frame `k + i` of `q` is there, and has the bytes wanted. */
  lemma {:induction false} FrameFits(c: Config, p: seq<Byte>, w: nat, q: seq<Byte>, k: nat, i: nat)
    requires StandsIn(c, p, w, q, k) && w + i < FrameCount(c, |p|)
    ensures k + i < FrameCount(c, |q|) && (k + i) % 16 == (w + i) % 16
    ensures OffsetOf(c, |p|, w + i) == OffsetOf(c, |p|, w) + Full(c, i)
    ensures OffsetOf(c, |q|, k + i) == OffsetOf(c, |q|, k) + Full(c, i)
    ensures OffsetOf(c, |p|, w) <= OffsetOf(c, |p|, w + i)
    ensures SizeAt(c, |p|, OffsetOf(c, |p|, w + i)) <= SizeAt(c, |q|, OffsetOf(c, |q|, k + i))
  {
    OffsetBounds(c, |p|, w);
    OffsetBounds(c, |p|, w + i);
    OffsetsApart(c, |p|, w, i);
    OffsetsApart(c, |q|, k, i);
    SumsAgree(k, w, i);
    hide FrameCount;
  }

  lemma {:induction false} SumsAgree(k: nat, w: nat, i: nat)
    requires k % 16 == w % 16
    ensures (k + i) % 16 == (w + i) % 16
  {
  }

  /** What frame `k` of `q` carries, as far as a taker of `size` bytes sees it. */
  ghost predicate Brings(c: Config, q: seq<Byte>, from: nat, size: nat, number: nat, f: Frame)
    requires from + size <= |q|
  {
    var a := Addr(c);
    && High(f.data[a]) == 2 && Low(f.data[a]) == number && a + 1 + size <= f.dlc <= 8
    && f.data[a + 1..a + 1 + size] == q[from..from + size]
  }

  lemma {:induction false} CarriesBrings(c: Config, q: seq<Byte>, k: nat, f: Frame, size: nat)
    requires 7 - Addr(c) < |q| <= MAX_PAYLOAD && 0 < k < FrameCount(c, |q|) && Carries(c, q, k, f)
    requires size <= SizeAt(c, |q|, OffsetOf(c, |q|, k))
    ensures Brings(c, q, OffsetOf(c, |q|, k), size, k % 16, f)
  {
    hide FrameCount, OffsetOf;
    var a, from, all := Addr(c), OffsetOf(c, |q|, k), SizeAt(c, |q|, OffsetOf(c, |q|, k));
    SubSlice(f.data, a + 1, all, size);
    SubSlice(q, from, all, size);
  }

  lemma {:induction false} SubSlice(s: seq<Byte>, from: nat, all: nat, size: nat)
    requires size <= all && from + all <= |s|
    ensures s[from..from + size] == s[from..from + all][..size]
  {
  }

  /** It wants frame `w` of a message as long as `p`, and has these bytes. */
  ghost predicate Holds(c: Config, receiver: Config, r: RxRun, n: nat, w: nat, now: Time, bytes: seq<Byte>) {
    Awaits(c, r, n, w, now) && r.rx.config == receiver && r.seen.bytes == bytes
  }

  /** This frame completes the message, with these bytes. */
  ghost predicate CompletesWith(r: RxRun, f: Frame, now: Time, bytes: seq<Byte>)
    requires RxValid(r.rx)
  {
    var out := RxApply(r.rx, Arrive(f, now));
    out.rc == Complete && Observe(r.seen, out.segment).bytes == bytes
  }

  lemma {:induction false} TakesBytes(c: Config, receiver: Config, r: RxRun, n: nat, w: nat, now: Time,
                                      bytes: seq<Byte>, q: seq<Byte>, from: nat, f: Frame)
    requires n <= MAX_PAYLOAD && Holds(c, receiver, r, n, w, now, bytes) && Matches(receiver, f)
    requires from + SizeAt(c, n, OffsetOf(c, n, w)) <= |q|
    requires Brings(c, q, from, SizeAt(c, n, OffsetOf(c, n, w)), w % 16, f)
    ensures var all := bytes + q[from..from + SizeAt(c, n, OffsetOf(c, n, w))];
            if w + 1 == FrameCount(c, n) then CompletesWith(r, f, now, all)
            else Holds(c, receiver, Serve(r, f, now), n, w + 1, now, all)
  {
    ServeTakes(c, r, n, w, f, now);
    AwaitsMore(c, r, n, w, now);
    hide Awaits, Serve, RxApply, FrameCount, OffsetOf, Matches;
  }

  lemma {:induction false} AwaitsMore(c: Config, r: RxRun, n: nat, w: nat, now: Time)
    requires Awaits(c, r, n, w, now)
    ensures r.rx.config.extended == c.extended && w + 1 <= FrameCount(c, n)
  {
  }

  lemma {:induction false} HoldsSound(c: Config, receiver: Config, r: RxRun, n: nat, w: nat, now: Time,
                                      bytes: seq<Byte>)
    requires Holds(c, receiver, r, n, w, now, bytes)
    ensures Sound(r.rx, r.seen) && RxValid(r.rx)
  {
  }

  /** One more frame of the other message. */
  lemma {:induction false} SpliceStep(c: Config, receiver: Config, r: RxRun, p: seq<Byte>, w: nat,
                                      q: seq<Byte>, k: nat, i: nat, now: Time, x: nat, y: nat, to: nat)
    requires StandsIn(c, p, w, q, k) && w + i < FrameCount(c, |p|) && Linked(c, receiver)
    requires x == OffsetOf(c, |p|, w) && y == OffsetOf(c, |q|, k) && to == OffsetOf(c, |p|, w + i)
    requires x <= to && Holds(c, receiver, r, |p|, w + i, now, Mixed(p, x, q, y, to))
    ensures x <= OffsetOf(c, |p|, w + i + 1)
    ensures var all := Mixed(p, x, q, y, OffsetOf(c, |p|, w + i + 1));
            if w + i + 1 == FrameCount(c, |p|) then CompletesWith(r, NthFrame(c, q, k + i), now, all)
            else Holds(c, receiver, Serve(r, NthFrame(c, q, k + i), now), |p|, w + i + 1, now, all)
  {
    hide FrameCount, OffsetOf, Holds, NthFrame, Matches, Linked, Brings, CompletesWith, Serve, Carries, SizeAt, Mixed,
         Sound, RxValid, Full;
    FrameFits(c, p, w, q, k, i);
    NthFrameCarries(c, receiver, q, k + i);
    OffsetStep(c, |p|, w + i);
    HoldsSound(c, receiver, r, |p|, w + i, now, Mixed(p, x, q, y, to));
    var size := SizeAt(c, |p|, to);
    CarriesBrings(c, q, k + i, NthFrame(c, q, k + i), size);
    MixedGrows(p, x, q, y, to, size);
    TakesBytes(c, receiver, r, |p|, w + i, now, Mixed(p, x, q, y, to), q, y + to - x, NthFrame(c, q, k + i));
  }

  /** From the point where the messages part, the frames of `q` are gathered as
      if they were those of `p`. */
  lemma {:induction false} SpliceGathers(c: Config, receiver: Config, r: RxRun, p: seq<Byte>, w: nat,
                                         q: seq<Byte>, k: nat, i: nat, now: Time, x: nat, y: nat)
    requires StandsIn(c, p, w, q, k) && w + i < FrameCount(c, |p|) && Linked(c, receiver) && Sound(r.rx, r.seen)
    requires x == OffsetOf(c, |p|, w) && y == OffsetOf(c, |q|, k)
    requires Holds(c, receiver, r, |p|, w, now, p[..x])
    ensures x <= OffsetOf(c, |p|, w + i)
    ensures Holds(c, receiver, ServeAll(r, c, q, k, k + i, now), |p|, w + i, now,
                  Mixed(p, x, q, y, OffsetOf(c, |p|, w + i)))
    decreases i
  {
    hide Holds, Serve, Linked, NthFrame, FrameCount, OffsetOf, CompletesWith, Sound;
    if i == 0 {
      assert Mixed(p, x, q, y, x) == p[..x];
    } else {
      SpliceGathers(c, receiver, r, p, w, q, k, i - 1, now, x, y);
      var before := ServeAll(r, c, q, k, k + i - 1, now);
      SpliceStep(c, receiver, before, p, w, q, k, i - 1, now, x, y, OffsetOf(c, |p|, w + i - 1));
    }
  }

  /** The frames of `p` before `w`, and then those of `q` from `k` on, all but
      the one that makes up the length of `p`. */
  ghost function SplicedRun(start: RxRun, c: Config, p: seq<Byte>, w: nat, q: seq<Byte>, k: nat, now: Time): (r: RxRun)
    requires Sound(start.rx, start.seen) && StandsIn(c, p, w, q, k)
    ensures Sound(r.rx, r.seen)
  {
    ServeAll(ServeAll(start, c, p, 0, w, now), c, q, k, k + FrameCount(c, |p|) - w - 1, now)
  }

  ghost function Ready(receiver: Config, capacity: nat): (r: RxRun)
    requires ValidConfig(receiver)
    ensures Sound(r.rx, r.seen)
  {
    RxRun(RxInit(receiver, NoStore, capacity), Observed([], 0))
  }

  /** The exact condition cannot be dropped, and losing few frames does not
      replace it. Lose the frames of one message from any frame on, and those of
      another up to any frame whose number agrees modulo 16: the receiver
      completes with a splice of the two. It is right exactly when the bytes
      put in place of the lost ones happen to be the same. */
  lemma {:induction false} LostFirstFrameSplices(c: Config, receiver: Config, p: seq<Byte>, w: nat,
                                                 q: seq<Byte>, k: nat, now: Time)
    requires Linked(c, receiver) && ValidConfig(receiver) && !receiver.functional && StandsIn(c, p, w, q, k)
    ensures var x, y := OffsetOf(c, |p|, w), OffsetOf(c, |q|, k);
            var r := SplicedRun(Ready(receiver, |p|), c, p, w, q, k, now);
            var got := Mixed(p, x, q, y, |p|);
            && CompletesWith(r, NthFrame(c, q, k + FrameCount(c, |p|) - w - 1), now, got)
            && (got == p <==> p[x..] == q[y..y + |p| - x])
  {
    hide Holds, Serve, Linked, NthFrame, OffsetOf, FrameCount, CompletesWith, Ready, ServeAll, Sound;
    var x, y, last := OffsetOf(c, |p|, w), OffsetOf(c, |q|, k), FrameCount(c, |p|) - w - 1;
    var parted := ServeAll(Ready(receiver, |p|), c, p, 0, w, now);
    OwnFrames(c, receiver, p, w, now);
    SpliceGathers(c, receiver, parted, p, w, q, k, last, now, x, y);
    var r := ServeAll(parted, c, q, k, k + last, now);
    SpliceStep(c, receiver, r, p, w, q, k, last, now, x, y, OffsetOf(c, |p|, w + last));
    OffsetBounds(c, |p|, FrameCount(c, |p|));
    SameTails(p, x, q[y..y + |p| - x]);
  }

  lemma {:induction false} SameTails(p: seq<Byte>, x: nat, tail: seq<Byte>)
    requires x <= |p|
    ensures p[..x] + tail == p <==> p[x..] == tail
  {
    assert p == p[..x] + p[x..];
    assert (p[..x] + tail)[x..] == tail;
  }

  /** The frames of `p` itself bring the receiver to any point of it. */
  lemma {:induction false} OwnFrames(c: Config, receiver: Config, p: seq<Byte>, w: nat, now: Time)
    requires Linked(c, receiver) && ValidConfig(receiver) && !receiver.functional
    requires 7 - Addr(c) < |p| <= MAX_PAYLOAD && 0 < w < FrameCount(c, |p|)
    ensures Holds(c, receiver, ServeAll(Ready(receiver, |p|), c, p, 0, w, now), |p|, w, now, p[..OffsetOf(c, |p|, w)])
  {
    hide Holds, Serve, Linked, NthFrame, OffsetOf, FrameCount, Sound, Ready, ServeAll;
    var start := Ready(receiver, |p|);
    FirstHeld(c, receiver, p, now);
    var first := ServeAll(start, c, p, 0, 1, now);
    var x := OffsetOf(c, |p|, 1);
    SpliceGathers(c, receiver, first, p, 1, p, 1, w - 1, now, x, x);
    ServeAllJoin(start, c, p, 0, 1, w, now);
    var to := OffsetOf(c, |p|, w);
    assert Mixed(p, x, p, x, to) == p[..to];
  }

  lemma {:induction false} FirstHeld(c: Config, receiver: Config, p: seq<Byte>, now: Time)
    requires Linked(c, receiver) && ValidConfig(receiver) && !receiver.functional && 7 - Addr(c) < |p| <= MAX_PAYLOAD
    ensures Holds(c, receiver, ServeAll(Ready(receiver, |p|), c, p, 0, 1, now), |p|, 1, now, p[..OffsetOf(c, |p|, 1)])
  {
    hide NthFrame, OffsetOf, FrameCount, Awaits, Serve, ValidConfig, Matches, Carries;
    var start := Ready(receiver, |p|);
    NthFrameCarries(c, receiver, p, 0);
    var first := FirstAnswered(c, p, start, NthFrame(c, p, 0), now);
    assert ServeAll(start, c, p, 0, 0, now) == start;
    assert ServeAll(start, c, p, 0, 1, now) == first;
  }

  lemma {:induction false} ServeAllJoin(r: RxRun, c: Config, p: seq<Byte>, x: nat, y: nat, z: nat, now: Time)
    requires Sound(r.rx, r.seen) && x <= y <= z && |p| <= MAX_PAYLOAD
    ensures ServeAll(r, c, p, x, z, now) == ServeAll(ServeAll(r, c, p, x, y, now), c, p, y, z, now)
    decreases z - y
  {
    hide Serve, NthFrame;
    if y < z {
      ServeAllJoin(r, c, p, x, y, z - 1, now);
    }
  }

  /** The first frame opens the message and its flow control goes out. */
  lemma {:induction false} FirstAnswered(c: Config, p: seq<Byte>, start: RxRun, f: Frame, now: Time) returns (r: RxRun)
    requires Sound(start.rx, start.seen) && start.rx.phase.RxIdle? && c.extended == start.rx.config.extended
    requires 7 - Addr(c) < |p| <= MAX_PAYLOAD && |p| <= start.rx.capacity && !start.rx.config.functional
    requires Carries(c, p, 0, f) && Matches(start.rx.config, f)
    ensures r == Serve(start, f, now) && Awaits(c, r, |p|, 1, now) && r.seen.bytes == p[..OffsetOf(c, |p|, 1)]
    ensures r.rx.config == start.rx.config
  {
    var receiver := start.rx.config;
    var first := FirstTaken(c, p, start, f, now);
    AfterThree(start, Arrive(f, now), TakeFc(now), FcSent(true, now));
    FlowAnswered(first, now);
    NotYet(now, receiver.timeoutCr);
    AfterJust(start, Arrive(f, now));
    r := Serve(start, f, now);
  }

  lemma {:induction false} FirstTaken(c: Config, p: seq<Byte>, start: RxRun, f: Frame, now: Time) returns (r: RxRun)
    requires Sound(start.rx, start.seen) && start.rx.phase.RxIdle? && c.extended == start.rx.config.extended
    requires 7 - Addr(c) < |p| <= MAX_PAYLOAD && |p| <= start.rx.capacity && !start.rx.config.functional
    requires Carries(c, p, 0, f) && Matches(start.rx.config, f)
    ensures r == After(start, [Arrive(f, now)])
    ensures r.rx.phase.FcReady? && r.rx.flowStatus == 0 && r.rx.sequence == 1
    ensures r.rx.deadline == Later(now, start.rx.config.timeoutA)
    ensures r.rx.total == |p| && r.rx.offset == 6 - Addr(c) && r.seen.bytes == p[..6 - Addr(c)]
  {
    assert [Arrive(f, now)][..0] == [];
    r := After(start, [Arrive(f, now)]);
    var a := Addr(c);
    assert RxFeed(start.rx, f, now) == FeedOpening(start.rx, f, now);
    assert f.data[a + 2..] == f.data[a + 2..8];
    assert Announced(start.rx.config, f) == |p|;
  }
}
