/** Why a checked transmission may go out: the comparison of sequence numbers at
    admission means that everything received so far has been processed, or its
    loss reported, if and only if the bus has at most one producer. */
module CheckedTx {
  import opened Clock
  import opened RxEpoch

  /** `poll_rx` between its accesses: polling, having found the queue empty, or
      having then found no loss either (`rx_drained`). */
  datatype Phase = Polling | SawEmpty | Drained

  datatype Copy = NoCopy | Copy(acked: nat)

  /** The epoch with its producers; what an onlooker has noted: numbers taken
      from the queue, published as lost, and covered by a loss record that was
      taken; and the acknowledgement copied into the transmission's control. */
  datatype Link = Link(s: Epoch, popped: set<nat>, dropped: set<nat>, reported: set<nat>, phase: Phase, copy: Copy)

  datatype Act =
    | Produce(e: Event)   // any step of a producer
    | PopFrame            // a frame is received and processed
    | FindEmpty           // the queue is found empty
    | TakeLoss            // bus_rx_take_loss finds a record, or nothing
    | PollAgain
    | Submit              // a repeat message is submitted once drained

  ghost predicate CanAct(g: Link, a: Act) {
    match a
    case Produce(e) => !e.Pop? && !e.Take? && Enabled(g.s, e)
    case PopFrame => g.phase.Polling? && g.s.queue != []
    case FindEmpty => g.phase.Polling? && g.s.queue == []
    case TakeLoss => g.phase.SawEmpty?
    case PollAgain => g.phase.Drained?
    case Submit => g.phase.Drained?
  }

  ghost function Step(g: Link, a: Act): (g': Link)
    requires CanAct(g, a)
  {
    match a
    case Produce(e) =>
      var s' := Next(g.s, e);
      var done := e.Publish? && s'.producers[e.p].Idle?;
      g.(s := s', dropped := if done then g.dropped + {g.s.producers[e.p].n} else g.dropped)
    case PopFrame => g.(s := Next(g.s, Pop), popped := g.popped + {g.s.queue[0]})
    case FindEmpty => g.(phase := SawEmpty)
    case TakeLoss =>
      if g.s.lost == 0 then g.(phase := Drained)
      else g.(s := Next(g.s, Take), reported := g.reported + g.dropped, phase := Polling)
    case PollAgain => g.(phase := Polling)
    case Submit => g.(copy := Copy(g.s.acked))
  }

  ghost predicate InTime(g: Link, a: Act)
    requires CanAct(g, a)
  {
    Recent(Step(g, a).s) && (a.Produce? ==> Timely(g.s, a.e))
  }

  /** Handed out so far. */
  ghost predicate Issued(g: Link, n: nat) { 0 < n <= g.s.count && Proper(n) }

  ghost predicate InHand(g: Link, p: nat, n: nat)
    requires p in g.s.producers
  {
    var pc := g.s.producers[p];
    (pc.Have? || pc.Losing?) && pc.n == n
  }

  /** Processed, or its loss reported. */
  ghost predicate Settled(g: Link, n: nat) { n in g.popped || n in g.reported }

  /** With one producer the number in hand is the newest of all. */
  ghost predicate Ordered(g: Link, p: nat)
    requires p in g.s.producers
  {
    forall n: nat :: InHand(g, p, n) ==>
      && n == g.s.count && g.s.acked < n
      && n !in g.popped && n !in g.dropped && n !in g.s.queue
  }

  /** Every number handed out is somewhere. */
  ghost predicate Placed(g: Link, p: nat)
    requires p in g.s.producers
  {
    forall n: nat :: Issued(g, n) ==> n in g.popped || n in g.dropped || n in g.s.queue || InHand(g, p, n)
  }

  ghost predicate Bounded(g: Link) {
    && (forall n :: n in g.popped ==> n <= g.s.count)
    && (forall n :: n in g.dropped ==> n <= g.s.count)
    && (forall n :: n in g.dropped && n !in g.reported ==> n <= g.s.lost)
    && (g.s.lost != 0 ==> g.s.lost in g.dropped)
  }

  ghost predicate LinkInv(g: Link, p: nat) {
    && g.s.producers.Keys == {p} && Inv(g.s)
    && Ordered(g, p) && Placed(g, p) && Bounded(g)
    && (g.phase.SawEmpty? ==> forall i :: 0 <= i < |g.s.queue| ==> g.s.queue[i] > g.s.acked)
    && (g.phase.Drained? ==> forall n: nat :: Issued(g, n) && n <= g.s.acked ==> Settled(g, n))
    && (g.copy.Copy? ==> g.copy.acked <= g.s.count)
    && (g.copy.Copy? ==> forall n: nat :: Issued(g, n) && n <= g.copy.acked ==> Settled(g, n))
  }

  lemma {:induction false} DrawKeepsLink(g: Link, p: nat)
    requires LinkInv(g, p) && CanAct(g, Produce(Draw(p))) && InTime(g, Produce(Draw(p)))
    ensures LinkInv(Step(g, Produce(Draw(p))), p)
  {
    var g' := Step(g, Produce(Draw(p)));
    StepKeeps(g.s, Draw(p));
    forall n: nat | Issued(g', n) ensures n in g'.popped || n in g'.dropped || n in g'.s.queue || InHand(g', p, n) {
      if n <= g.s.count {
        assert Issued(g, n);
      }
    }
    forall n: nat | Issued(g', n) && n <= g.s.count ensures Issued(g, n) {}
  }

  lemma {:induction false} EnqueueKeepsLink(g: Link, p: nat)
    requires LinkInv(g, p) && CanAct(g, Produce(Enqueue(p))) && InTime(g, Produce(Enqueue(p)))
    ensures LinkInv(Step(g, Produce(Enqueue(p))), p)
  {
    var g' := Step(g, Produce(Enqueue(p)));
    StepKeeps(g.s, Enqueue(p));
    var n0 := g.s.producers[p].n;
    assert InHand(g, p, n0);
    assert g'.s.queue[|g.s.queue|] == n0;
    forall n: nat | Issued(g', n) ensures n in g'.popped || n in g'.dropped || n in g'.s.queue || InHand(g', p, n) {
      assert Issued(g, n);
    }
    forall n: nat | Issued(g', n) ensures Issued(g, n) {}
  }

  lemma {:induction false} LosingKeepsLink(g: Link, p: nat, e: Event)
    requires e == Overflow(p) || e == Publish(p)
    requires LinkInv(g, p) && CanAct(g, Produce(e)) && InTime(g, Produce(e))
    ensures LinkInv(Step(g, Produce(e)), p)
  {
    var g' := Step(g, Produce(e));
    StepKeeps(g.s, e);
    var n0 := g.s.producers[p].n;
    assert InHand(g, p, n0);
    if e == Publish(p) {
      PublishCases(g.s, p);
    } else {
      hide Inv;
      forall n: nat ensures InHand(g', p, n) <==> InHand(g, p, n) {}
    }
    forall n: nat | Issued(g', n) ensures Issued(g, n) {}
    assert Placed(g', p);
  }

  lemma {:induction false} PopKeepsLink(g: Link, p: nat)
    requires LinkInv(g, p) && CanAct(g, PopFrame) && InTime(g, PopFrame)
    ensures LinkInv(Step(g, PopFrame), p)
  {
    var g' := Step(g, PopFrame);
    StepKeeps(g.s, Pop);
    var first := g.s.queue[0];
    NewerIsTrue(first, g.s.acked, g.s.count);
    forall n: nat | Issued(g', n)
      ensures Issued(g, n)
      ensures n in g'.popped || n in g'.dropped || n in g'.s.queue || InHand(g', p, n)
    {
      if n in g.s.queue && n != first {
        var i :| 0 <= i < |g.s.queue| && g.s.queue[i] == n;
        assert g'.s.queue[i - 1] == n;
      }
    }
    forall n: nat | InHand(g', p, n)
      ensures n == g'.s.count && g'.s.acked < n && n !in g'.popped && n !in g'.dropped && n !in g'.s.queue
    {
      assert InHand(g, p, n) && first in g.s.queue;
    }
  }

  lemma {:induction false} TakeKeepsLink(g: Link, p: nat)
    requires LinkInv(g, p) && CanAct(g, TakeLoss) && InTime(g, TakeLoss)
    ensures LinkInv(Step(g, TakeLoss), p)
  {
    var g' := Step(g, TakeLoss);
    forall n: nat | Issued(g', n) ensures Issued(g, n) {}
    if g.s.lost != 0 {
      StepKeeps(g.s, Take);
      NewerIsTrue(g.s.lost, g.s.acked, g.s.count);
    }
    forall n: nat | InHand(g', p, n)
      ensures n == g'.s.count && g'.s.acked < n && n !in g'.popped && n !in g'.dropped && n !in g'.s.queue
    {
      assert InHand(g, p, n);
    }
    if g.s.lost == 0 {
      forall n: nat | Issued(g, n) && n <= g.s.acked ensures Settled(g, n) {
        assert !InHand(g, p, n) && n !in g.s.queue;
      }
    }
  }

  lemma {:induction false} ConsumerKeepsLink(g: Link, p: nat, a: Act)
    requires !a.Produce? && LinkInv(g, p) && CanAct(g, a) && InTime(g, a)
    ensures LinkInv(Step(g, a), p)
  {
    match a
    case PopFrame => PopKeepsLink(g, p);
    case TakeLoss => TakeKeepsLink(g, p);
    case FindEmpty => QuietKeepsLink(g, p, a);
    case PollAgain => QuietKeepsLink(g, p, a);
    case Submit => QuietKeepsLink(g, p, a);
  }

  /** The steps of the consumer that leave the epoch alone. */
  lemma {:induction false} QuietKeepsLink(g: Link, p: nat, a: Act)
    requires LinkInv(g, p) && CanAct(g, a) && InTime(g, a) && (a.FindEmpty? || a.PollAgain? || a.Submit?)
    ensures LinkInv(Step(g, a), p)
  {
    var g' := Step(g, a);
    forall n: nat | Issued(g', n) ensures Issued(g, n) {}
    forall n: nat | InHand(g', p, n) ensures InHand(g, p, n) {}
    forall n: nat | InHand(g, p, n) ensures InHand(g', p, n) {}
  }

  lemma {:induction false} ActKeeps(g: Link, p: nat, a: Act)
    requires LinkInv(g, p) && CanAct(g, a) && InTime(g, a)
    ensures LinkInv(Step(g, a), p)
  {
    match a
    case Produce(e) =>
      assert e.p == p;
      if e.Draw? { DrawKeepsLink(g, p); }
      else if e.Enqueue? { EnqueueKeepsLink(g, p); }
      else { LosingKeepsLink(g, p, e); }
    case _ => ConsumerKeepsLink(g, p, a);
  }

  ghost predicate LinkRun(g: Link, acts: seq<Act>)
    decreases |acts|
  {
    acts != [] ==>
      && CanAct(g, acts[0]) && InTime(g, acts[0]) && LinkRun(Step(g, acts[0]), acts[1..])
  }

  ghost function LinkEnd(g: Link, acts: seq<Act>): (r: Link)
    requires LinkRun(g, acts)
    decreases |acts|
  {
    if acts == [] then g else LinkEnd(Step(g, acts[0]), acts[1..])
  }

  lemma {:induction false} LinkRunKeeps(g: Link, p: nat, acts: seq<Act>)
    requires LinkInv(g, p) && LinkRun(g, acts)
    ensures LinkInv(LinkEnd(g, acts), p)
    decreases |acts|
  {
    if acts != [] {
      ActKeeps(g, p, acts[0]);
      LinkRunKeeps(Step(g, acts[0]), p, acts[1..]);
    }
  }

  /** Nothing received yet, by these producers. */
  ghost function Fresh(producers: map<nat, Pc>): (g: Link) {
    Link(Epoch(0, 0, [], 0, producers), {}, {}, {}, Polling, NoCopy)
  }

  /** The driver reads the epoch's sequence and finds the copied acknowledgement. */
  ghost predicate Admits(g: Link) {
    g.copy.Copy? && Reading(g.s.count) == Reading(g.copy.acked) && g.s.count < g.copy.acked + WRAP
  }

  /** In every run with one producer: when the driver admits a checked
      transmission, then no frame received so far is unprocessed, unless its
      loss has been reported; whatever was received, lost, processed or polled
      in between. */
  lemma {:induction false} AdmittedOnlyWhenSettled(p: nat, acts: seq<Act>, n: nat)
    requires LinkRun(Fresh(map[p := Idle]), acts)
    requires Admits(LinkEnd(Fresh(map[p := Idle]), acts)) && Issued(LinkEnd(Fresh(map[p := Idle]), acts), n)
    ensures Settled(LinkEnd(Fresh(map[p := Idle]), acts), n)
  {
    var g := Fresh(map[p := Idle]);
    forall m: nat | Open(g.s, m) ensures false {}
    forall m: nat | Issued(g, m) ensures false {}
    LinkRunKeeps(g, p, acts);
    var end := LinkEnd(g, acts);
    SameReading(end.s.count, end.copy.acked);
  }

  /** Without a producer nothing is ever handed out. */
  lemma {:induction false} NothingIssued(g: Link, acts: seq<Act>)
    requires g.s.producers == map[] && g.s.count == 0 && LinkRun(g, acts)
    ensures LinkEnd(g, acts).s.count == 0
    decreases |acts|
  {
    if acts != [] {
      NothingIssued(Step(g, acts[0]), acts[1..]);
    }
  }

  lemma {:induction false} LinkCons(g: Link, a: Act, acts: seq<Act>)
    requires CanAct(g, a) && InTime(g, a) && LinkRun(Step(g, a), acts)
    ensures LinkRun(g, [a] + acts) && LinkEnd(g, [a] + acts) == LinkEnd(Step(g, a), acts)
  {
    assert ([a] + acts)[0] == a && ([a] + acts)[1..] == acts;
  }

  ghost predicate AllIdle(ps: map<nat, Pc>) { forall p :: p in ps ==> ps[p].Idle? }

  /** Two frames received, the newer one queued. */
  lemma {:induction false} OvertakingSteps(ps: map<nat, Pc>, a: nat, b: nat, g0: Link, g1: Link, g2: Link, g3: Link)
    requires AllIdle(ps) && a in ps && b in ps && a != b && g0 == Fresh(ps)
    requires g1 == g0.(s := Epoch(1, 0, [], 0, ps[a := Have(1)]))
    requires g2 == g0.(s := Epoch(2, 0, [], 0, ps[a := Have(1)][b := Have(2)]))
    requires g3 == g0.(s := Epoch(2, 0, [2], 0, ps[a := Have(1)]))
    ensures CanAct(g0, Produce(Draw(a))) && InTime(g0, Produce(Draw(a))) && Step(g0, Produce(Draw(a))) == g1
    ensures CanAct(g1, Produce(Draw(b))) && InTime(g1, Produce(Draw(b))) && Step(g1, Produce(Draw(b))) == g2
    ensures CanAct(g2, Produce(Enqueue(b))) && InTime(g2, Produce(Enqueue(b))) && Step(g2, Produce(Enqueue(b))) == g3
  {
    assert ps[a := Have(1)][b := Have(2)][b := Idle] == ps[a := Have(1)];
  }

  /** It is processed, the queue is found drained, and the acknowledgement copied. */
  lemma {:induction false} DrainingSteps(ps: map<nat, Pc>, a: nat, g3: Link, g4: Link, g5: Link, g6: Link, g7: Link)
    requires AllIdle(ps) && g3.s == Epoch(2, 0, [2], 0, ps[a := Have(1)]) && g3.phase.Polling? && g3.popped == {}
    requires g4 == g3.(s := Epoch(2, 0, [], 2, ps[a := Have(1)]), popped := {2})
    requires g5 == g4.(phase := SawEmpty) && g6 == g4.(phase := Drained) && g7 == g6.(copy := Copy(2))
    ensures CanAct(g3, PopFrame) && InTime(g3, PopFrame) && Step(g3, PopFrame) == g4
    ensures CanAct(g4, FindEmpty) && InTime(g4, FindEmpty) && Step(g4, FindEmpty) == g5
    ensures CanAct(g5, TakeLoss) && InTime(g5, TakeLoss) && Step(g5, TakeLoss) == g6
    ensures CanAct(g6, Submit) && InTime(g6, Submit) && Step(g6, Submit) == g7
  {
    NewerIsTrue(2, 0, 2);
  }

  /** With any two among the producers it fails: the second queues a newer frame
      while the first still holds an older one. The newer frame is processed, the
      queue is found drained without a loss, the acknowledgement is copied, the
      driver finds it equal and admits; and the older frame is neither processed
      nor reported lost. */
  lemma {:induction false} TwoProducersOvertake(ps: map<nat, Pc>, a: nat, b: nat) returns (acts: seq<Act>)
    requires AllIdle(ps) && a in ps && b in ps && a != b
    ensures LinkRun(Fresh(ps), acts)
    ensures var end := LinkEnd(Fresh(ps), acts); Admits(end) && Issued(end, 1) && !Settled(end, 1)
  {
    var g0 := Fresh(ps);
    var g1 := g0.(s := Epoch(1, 0, [], 0, ps[a := Have(1)]));
    var g2 := g0.(s := Epoch(2, 0, [], 0, ps[a := Have(1)][b := Have(2)]));
    var g3 := g0.(s := Epoch(2, 0, [2], 0, ps[a := Have(1)]));
    var g4 := g3.(s := Epoch(2, 0, [], 2, ps[a := Have(1)]), popped := {2});
    var g5, g6 := g4.(phase := SawEmpty), g4.(phase := Drained);
    var g7 := g6.(copy := Copy(2));
    OvertakingSteps(ps, a, b, g0, g1, g2, g3);
    DrainingSteps(ps, a, g3, g4, g5, g6, g7);
    hide Step, CanAct, InTime;
    acts := [];
    LinkCons(g6, Submit, acts);
    acts := [Submit] + acts;
    LinkCons(g5, TakeLoss, acts);
    acts := [TakeLoss] + acts;
    LinkCons(g4, FindEmpty, acts);
    acts := [FindEmpty] + acts;
    LinkCons(g3, PopFrame, acts);
    acts := [PopFrame] + acts;
    LinkCons(g2, Produce(Enqueue(b)), acts);
    acts := [Produce(Enqueue(b))] + acts;
    LinkCons(g1, Produce(Draw(b)), acts);
    acts := [Produce(Draw(b))] + acts;
    LinkCons(g0, Produce(Draw(a)), acts);
    acts := [Produce(Draw(a))] + acts;
  }

  /** The driver admits only what is settled, in every run of these producers. */
  ghost predicate AdmissionSafe(ps: map<nat, Pc>) {
    forall acts: seq<Act>, n: nat ::
      (LinkRun(Fresh(ps), acts) && Admits(LinkEnd(Fresh(ps), acts)) && Issued(LinkEnd(Fresh(ps), acts), n)) ==>
        Settled(LinkEnd(Fresh(ps), acts), n)
  }

  /** So the comparison at admission suffices if and only if the bus has at most
      one producer. */
  lemma {:induction false} AdmissionSafeExactly(ps: map<nat, Pc>)
    requires AllIdle(ps)
    ensures AdmissionSafe(ps) <==> |ps| <= 1
  {
    hide LinkRun, LinkEnd, Admits, Settled;
    if |ps| > 1 {
      var a, b := TwoKeys(ps);
      var acts := TwoProducersOvertake(ps, a, b);
    } else {
      forall acts: seq<Act>, n: nat
        | LinkRun(Fresh(ps), acts) && Admits(LinkEnd(Fresh(ps), acts)) && Issued(LinkEnd(Fresh(ps), acts), n)
        ensures Settled(LinkEnd(Fresh(ps), acts), n)
      {
        if ps == map[] {
          NothingIssued(Fresh(ps), acts);
        } else {
          var p := OneKey(ps);
          AdmittedOnlyWhenSettled(p, acts, n);
        }
      }
    }
  }

  lemma {:induction false} OneKey(ps: map<nat, Pc>) returns (p: nat)
    requires AllIdle(ps) && |ps| == 1
    ensures ps == map[p := Idle]
  {
    p :| p in ps;
    var rest := ps - {p};
    assert ps.Keys == {p} + rest.Keys;
    assert rest.Keys == {};
  }

  lemma {:induction false} TwoKeys(ps: map<nat, Pc>) returns (a: nat, b: nat)
    requires |ps| > 1
    ensures a in ps && b in ps && a != b
  {
    a :| a in ps;
    var rest := ps - {a};
    assert ps.Keys == {a} + rest.Keys;
    b :| b in rest;
  }

  /** Left alone, the consumer comes to the end of its polling: every frame taken
      from the queue, and a loss record, if there is one, reported and gone. */
  lemma {:induction false} PollDrains(g: Link, p: nat) returns (acts: seq<Act>)
    requires LinkInv(g, p) && g.phase.Polling?
    ensures LinkRun(g, acts)
    ensures var end := LinkEnd(g, acts);
            && end.phase.Drained? && end.s.queue == [] && end.s.lost == 0
            && end.reported == g.reported + if g.s.lost == 0 then {} else g.dropped
    decreases |g.s.queue|, g.s.lost
  {
    hide Ordered, Placed, Bounded, Settled, Recent;
    if g.s.queue != [] {
      PopInTime(g, p);
      PopKeepsLink(g, p);
      acts := PollDrains(Step(g, PopFrame), p);
      LinkCons(g, PopFrame, acts);
      acts := [PopFrame] + acts;
    } else {
      var seen := Step(g, FindEmpty);
      assert InTime(g, FindEmpty);
      QuietKeepsLink(g, p, FindEmpty);
      TakeInTime(seen, p);
      var next := Step(seen, TakeLoss);
      acts := [];
      if g.s.lost != 0 {
        TakeKeepsLink(seen, p);
        acts := PollDrains(next, p);
      }
      LinkCons(seen, TakeLoss, acts);
      acts := [TakeLoss] + acts;
      LinkCons(g, FindEmpty, acts);
      acts := [FindEmpty] + acts;
    }
  }

  lemma {:induction false} PopInTime(g: Link, p: nat)
    requires LinkInv(g, p) && CanAct(g, PopFrame)
    ensures InTime(g, PopFrame)
  {
    NewerIsTrue(g.s.queue[0], g.s.acked, g.s.count);
  }

  lemma {:induction false} TakeInTime(g: Link, p: nat)
    requires LinkInv(g, p) && CanAct(g, TakeLoss)
    ensures InTime(g, TakeLoss) && (g.s.lost != 0 ==> Step(g, TakeLoss).s.lost == 0)
    ensures Step(g, TakeLoss).s.queue == g.s.queue && (g.s.lost == 0 ==> Step(g, TakeLoss).s == g.s)
  {
    if g.s.lost != 0 {
      NewerIsTrue(g.s.lost, g.s.acked, g.s.count);
    }
  }
}
