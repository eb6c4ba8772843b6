/** Receive sequence numbers, the record of losses, and the acknowledgement that
    a checked transmission waits for. Any number of producers, one consumer, all
    interleavings of their atomic accesses. Numbers are the true counts behind
    the 32-bit words; the code's comparisons are made on their readings. */
module RxEpoch {
  import opened Clock

  /** A producer between its atomic accesses: it drew the forbidden number 0 and
      must draw again; it holds a number not yet queued; or, the queue being
      full, it is publishing a loss against the record it last loaded. */
  datatype Pc = Idle | Again | Have(n: nat) | Losing(n: nat, seen: nat)

  /** `lost` is the loss record, 0 for none; `acked` what the consumer has
      acknowledged. */
  datatype Epoch = Epoch(count: nat, lost: nat, queue: seq<nat>, acked: nat, producers: map<nat, Pc>)

  datatype Event =
    | Draw(p: nat)       // bus_rx_next: one atomic increment
    | Enqueue(p: nat)    // the driver's queue takes the frame
    | Overflow(p: nat)   // it does not: bus_rx_lost loads the record
    | Publish(p: nat)    // one turn of its compare-exchange loop
    | Pop                // the consumer takes the oldest frame
    | Take               // bus_rx_take_loss: exchange with 0

  /** A number the code hands out: its reading is not 0. */
  predicate Proper(n: nat) { Reading(n) != 0 }

  predicate Newer(a: nat, b: nat) { SignedDiff(Reading(a), Reading(b)) > 0 }

  predicate Enabled(s: Epoch, e: Event) {
    match e
    case Draw(p) => p in s.producers && (s.producers[p].Idle? || s.producers[p].Again?)
    case Enqueue(p) => p in s.producers && s.producers[p].Have?
    case Overflow(p) => p in s.producers && s.producers[p].Have?
    case Publish(p) => p in s.producers && s.producers[p].Losing?
    case Pop => s.queue != []
    case Take => true
  }

  /** `poll_rx`: the acknowledgement only moves forward. */
  function Acknowledge(acked: nat, n: nat): (r: nat) { if Newer(n, acked) then n else acked }

  function Next(s: Epoch, e: Event): (s': Epoch)
    requires Enabled(s, e)
  {
    match e
    case Draw(p) =>
      var n := s.count + 1;
      s.(count := n, producers := s.producers[p := if s.producers[p].Idle? && !Proper(n) then Again else Have(n)])
    case Enqueue(p) =>
      s.(queue := s.queue + [s.producers[p].n], producers := s.producers[p := Idle])
    case Overflow(p) => s.(producers := s.producers[p := Losing(s.producers[p].n, s.lost)])
    case Publish(p) =>
      var (n, seen) := (s.producers[p].n, s.producers[p].seen);
      if !(Reading(seen) == 0 || Newer(n, seen)) then s.(producers := s.producers[p := Idle])
      else if Reading(s.lost) == Reading(seen) then s.(lost := n, producers := s.producers[p := Idle])
      else s.(producers := s.producers[p := Losing(n, s.lost)])
    case Pop => s.(acked := Acknowledge(s.acked, s.queue[0]), queue := s.queue[1..])
    case Take => if Reading(s.lost) == 0 then s else s.(acked := Acknowledge(s.acked, s.lost), lost := 0)
  }

  /** Everything the words hold is less than half a wrap behind the counter. */
  ghost predicate Recent(s: Epoch) {
    && s.acked <= s.count < s.acked + HALF
    && (s.lost != 0 ==> s.lost <= s.count < s.lost + HALF)
    && (forall i :: 0 <= i < |s.queue| ==> s.queue[i] <= s.count < s.queue[i] + HALF)
    && (forall p :: p in s.producers ==> RecentPc(s.count, s.producers[p]))
  }

  ghost predicate RecentPc(count: nat, pc: Pc) {
    match pc
    case Have(n) => n <= count < n + HALF
    case Losing(n, seen) => n <= count < n + HALF && (seen != 0 ==> seen <= count < seen + HALF)
    case _ => true
  }

  /** A producer that drew 0 draws again before the counter wraps once more, and
      nothing is held across 2^31 receptions. */
  ghost predicate Timely(s: Epoch, e: Event)
    requires Enabled(s, e)
  {
    Recent(Next(s, e)) && (e.Draw? && s.producers[e.p].Again? ==> Proper(s.count + 1))
  }

  lemma {:induction false} NewerIsTrue(a: nat, b: nat, count: nat)
    requires a <= count < a + HALF && b <= count < b + HALF
    ensures Newer(a, b) <==> a > b
    ensures Reading(a) == Reading(b) <==> a == b
  {
    ReadingsCompare(a, b);
  }

  // ---- The invariant ----

  ghost predicate Held(s: Epoch, n: nat) {
    exists p :: p in s.producers && ((s.producers[p].Have? || s.producers[p].Losing?) && s.producers[p].n == n)
  }

  /** Handed out, and not yet acknowledged. */
  ghost predicate Open(s: Epoch, n: nat) { s.acked < n <= s.count && Proper(n) }

  /** Every open number is with its producer, in the queue, or covered by a loss
      record at least as new. */
  ghost predicate Covered(s: Epoch) {
    forall n: nat :: Open(s, n) ==> Held(s, n) || n in s.queue || n <= s.lost
  }

  ghost predicate PcOk(s: Epoch, pc: Pc) {
    match pc
    case Have(n) => n > 0 && Proper(n)
    case Losing(n, seen) => n > 0 && Proper(n) && (seen != 0 ==> Proper(seen) && (s.lost >= seen || s.acked >= seen))
    case _ => true
  }

  ghost predicate Inv(s: Epoch) {
    && Recent(s) && Covered(s)
    && (s.lost != 0 ==> Proper(s.lost))
    && (forall i :: 0 <= i < |s.queue| ==> Proper(s.queue[i]))
    && (s.acked != 0 ==> Proper(s.acked))
    && (forall p :: p in s.producers ==> PcOk(s, s.producers[p]))
    && (s.count > 0 && !Proper(s.count) ==> exists p :: p in s.producers && s.producers[p].Again?)
  }

  lemma {:induction false} DrawKeeps(s: Epoch, p: nat)
    requires Inv(s) && Enabled(s, Draw(p)) && Timely(s, Draw(p))
    ensures Inv(Next(s, Draw(p)))
  {
    var s' := Next(s, Draw(p));
    forall n: nat | Open(s', n) ensures Held(s', n) || n in s'.queue || n <= s'.lost {
      if n == s.count + 1 {
        assert s'.producers[p].Have? && s'.producers[p].n == n;
      } else {
        assert Open(s, n);
        if Held(s, n) {
          var q :| q in s.producers && ((s.producers[q].Have? || s.producers[q].Losing?) && s.producers[q].n == n);
          assert s'.producers[q] == s.producers[q];
        }
      }
    }
    if !Proper(s'.count) {
      assert s'.producers[p].Again?;
    }
  }

  lemma {:induction false} EnqueueKeeps(s: Epoch, p: nat)
    requires Inv(s) && Enabled(s, Enqueue(p)) && Timely(s, Enqueue(p))
    ensures Inv(Next(s, Enqueue(p)))
  {
    var s' := Next(s, Enqueue(p));
    assert s'.queue[|s.queue|] == s.producers[p].n;
    forall n: nat | Open(s', n) ensures Held(s', n) || n in s'.queue || n <= s'.lost {
      assert Open(s, n);
      if Held(s, n) {
        var q :| q in s.producers && ((s.producers[q].Have? || s.producers[q].Losing?) && s.producers[q].n == n);
        assert q != p ==> s'.producers[q] == s.producers[q];
      } else if n in s.queue {
        var i :| 0 <= i < |s.queue| && s.queue[i] == n;
        assert s'.queue[i] == n;
      }
    }
    AgainKept(s, s', p);
  }

  /** A producer that is not at `Again` does not change who is. */
  lemma {:induction false} AgainKept(s: Epoch, s': Epoch, p: nat)
    requires p in s.producers && p in s'.producers && !s.producers[p].Again? && s'.count == s.count
    requires s'.producers == s.producers[p := s'.producers[p]]
    requires s.count > 0 && !Proper(s.count) ==> exists q :: q in s.producers && s.producers[q].Again?
    ensures s'.count > 0 && !Proper(s'.count) ==> exists q :: q in s'.producers && s'.producers[q].Again?
  {
    if s.count > 0 && !Proper(s.count) {
      var q :| q in s.producers && s.producers[q].Again?;
      assert s'.producers[q].Again?;
    }
  }

  lemma {:induction false} OverflowKeeps(s: Epoch, p: nat)
    requires Inv(s) && Enabled(s, Overflow(p)) && Timely(s, Overflow(p))
    ensures Inv(Next(s, Overflow(p)))
  {
    var s' := Next(s, Overflow(p));
    forall n: nat | Open(s', n) ensures Held(s', n) || n in s'.queue || n <= s'.lost {
      assert Open(s, n);
      if Held(s, n) {
        var q :| q in s.producers && ((s.producers[q].Have? || s.producers[q].Losing?) && s.producers[q].n == n);
        assert s'.producers[q].Losing? || s'.producers[q].Have?;
        assert s'.producers[q].n == n;
      }
    }
    AgainKept(s, s', p);
  }

  /** The turn of the loop decides by true order: it gives up only against a
      record at least as new, and replaces only an older one. */
  lemma {:induction false} PublishCases(s: Epoch, p: nat)
    requires Inv(s) && Enabled(s, Publish(p))
    ensures var (n, seen) := (s.producers[p].n, s.producers[p].seen);
            var s' := Next(s, Publish(p));
            || (s' == s.(producers := s.producers[p := Idle]) && (s.lost >= n || s.acked >= n))
            || (s' == s.(lost := n, producers := s.producers[p := Idle]) && s.lost < n)
            || s' == s.(producers := s.producers[p := Losing(n, s.lost)])
  {
    var (n, seen) := (s.producers[p].n, s.producers[p].seen);
    assert RecentPc(s.count, s.producers[p]) && PcOk(s, s.producers[p]);
    if seen != 0 {
      NewerIsTrue(n, seen, s.count);
    }
    if s.lost != 0 && seen != 0 {
      NewerIsTrue(s.lost, seen, s.count);
    }
  }

  /** The turn of the loop, exactly: it gives up against a record at least as new,
      exchanges if the record is still the one it loaded, and else looks again. */
  lemma {:induction false} PublishExactly(s: Epoch, p: nat)
    requires Inv(s) && Enabled(s, Publish(p))
    ensures var (n, seen) := (s.producers[p].n, s.producers[p].seen);
            Next(s, Publish(p)) ==
              if seen != 0 && seen >= n then s.(producers := s.producers[p := Idle])
              else if s.lost == seen then s.(lost := n, producers := s.producers[p := Idle])
              else s.(producers := s.producers[p := Losing(n, s.lost)])
  {
    var (n, seen) := (s.producers[p].n, s.producers[p].seen);
    assert RecentPc(s.count, s.producers[p]) && PcOk(s, s.producers[p]);
    if seen != 0 {
      NewerIsTrue(n, seen, s.count);
    }
    if s.lost != 0 && seen != 0 {
      NewerIsTrue(s.lost, seen, s.count);
    }
  }

  lemma {:induction false} PublishKeeps(s: Epoch, p: nat)
    requires Inv(s) && Enabled(s, Publish(p)) && Timely(s, Publish(p))
    ensures Inv(Next(s, Publish(p)))
  {
    var s' := Next(s, Publish(p));
    PublishCases(s, p);
    assert s'.lost >= s.lost && s'.acked == s.acked;
    forall n: nat | Open(s', n) ensures Held(s', n) || n in s'.queue || n <= s'.lost {
      assert Open(s, n);
      if Held(s, n) {
        var q :| q in s.producers && ((s.producers[q].Have? || s.producers[q].Losing?) && s.producers[q].n == n);
        assert q != p ==> s'.producers[q] == s.producers[q];
        assert q == p && s'.producers[p].Losing? ==> s'.producers[p].n == n;
      }
    }
    forall q | q in s'.producers ensures PcOk(s', s'.producers[q]) {
      assert PcOk(s, s.producers[q]);
    }
    AgainKept(s, s', p);
  }

  lemma {:induction false} PopKeeps(s: Epoch)
    requires Inv(s) && Enabled(s, Pop) && Timely(s, Pop)
    ensures Inv(Next(s, Pop))
    ensures Next(s, Pop).acked >= s.queue[0] && Next(s, Pop).acked >= s.acked
  {
    var s' := Next(s, Pop);
    NewerIsTrue(s.queue[0], s.acked, s.count);
    forall n: nat | Open(s', n) ensures Held(s', n) || n in s'.queue || n <= s'.lost {
      assert Open(s, n);
      if Held(s, n) {
        assert Held(s', n);
      } else if n in s.queue {
        var i :| 0 <= i < |s.queue| && s.queue[i] == n;
        assert i > 0 && s'.queue[i - 1] == n;
      }
    }
    forall q | q in s'.producers ensures PcOk(s', s'.producers[q]) {
      assert PcOk(s, s.producers[q]);
    }
  }

  lemma {:induction false} TakeKeeps(s: Epoch)
    requires Inv(s) && Timely(s, Take)
    ensures Inv(Next(s, Take))
    ensures Next(s, Take).acked >= s.lost && Next(s, Take).acked >= s.acked
  {
    var s' := Next(s, Take);
    if s.lost != 0 {
      NewerIsTrue(s.lost, s.acked, s.count);
      forall n: nat | Open(s', n) ensures Held(s', n) || n in s'.queue || n <= s'.lost {
        assert Open(s, n);
        if Held(s, n) {
          assert Held(s', n);
        }
      }
      forall q | q in s'.producers ensures PcOk(s', s'.producers[q]) {
        assert PcOk(s, s.producers[q]);
      }
    }
  }

  lemma {:induction false} StepKeeps(s: Epoch, e: Event)
    requires Inv(s) && Enabled(s, e) && Timely(s, e)
    ensures Inv(Next(s, e))
  {
    match e
    case Draw(p) => DrawKeeps(s, p);
    case Enqueue(p) => EnqueueKeeps(s, p);
    case Overflow(p) => OverflowKeeps(s, p);
    case Publish(p) => PublishKeeps(s, p);
    case Pop => PopKeeps(s);
    case Take => TakeKeeps(s);
  }

  // ---- Whole runs ----

  ghost predicate Run(s: Epoch, es: seq<Event>)
    decreases |es|
  {
    es != [] ==> Enabled(s, es[0]) && Timely(s, es[0]) && Run(Next(s, es[0]), es[1..])
  }

  ghost function End(s: Epoch, es: seq<Event>): (r: Epoch)
    requires Run(s, es)
    decreases |es|
  {
    if es == [] then s else End(Next(s, es[0]), es[1..])
  }

  ghost predicate Start(s: Epoch) {
    && s.count == s.lost == s.acked == 0 && s.queue == []
    && forall p :: p in s.producers ==> s.producers[p].Idle?
  }

  lemma {:induction false} RunKeeps(s: Epoch, es: seq<Event>)
    requires Inv(s) && Run(s, es)
    ensures Inv(End(s, es))
    decreases |es|
  {
    if es != [] {
      StepKeeps(s, es[0]);
      RunKeeps(Next(s, es[0]), es[1..]);
    }
  }

  /** In every reachable state, every number handed out and not acknowledged is
      with its producer, in the queue, or behind a loss record as new. */
  lemma {:induction false} NothingUnaccounted(s: Epoch, es: seq<Event>)
    requires Start(s) && Run(s, es)
    ensures Covered(End(s, es))
    ensures End(s, es).acked <= End(s, es).count
  {
    RunKeeps(s, es);
  }

  /** The consumer empties the queue and then takes the loss. */
  ghost function Drain(s: Epoch): (es: seq<Event>)
    decreases |s.queue|
  {
    if s.queue == [] then [Take] else [Pop] + Drain(Next(s, Pop))
  }

  ghost predicate Quiet(s: Epoch) { forall p :: p in s.producers ==> s.producers[p].Idle? }

  lemma {:induction false} DrainAcknowledges(s: Epoch)
    requires Inv(s) && Quiet(s)
    ensures Run(s, Drain(s)) && End(s, Drain(s)).acked == s.count
    ensures End(s, Drain(s)).queue == [] && End(s, Drain(s)).lost == 0
    decreases |s.queue|
  {
    if s.queue == [] {
      var s' := Next(s, Take);
      assert Drain(s)[1..] == [];
      if s.lost != 0 {
        NewerIsTrue(s.lost, s.acked, s.count);
      }
      TakeKeeps(s);
      assert s'.acked < s.count && Proper(s.count) ==> Open(s, s.count);
      assert !Held(s, s.count);
    } else {
      NewerIsTrue(s.queue[0], s.acked, s.count);
      PopKeeps(s);
      DrainAcknowledges(Next(s, Pop));
      assert Drain(s)[0] == Pop && Drain(s)[1..] == Drain(Next(s, Pop));
    }
  }

  /** Whenever no producer is in the middle of a reception, draining the queue
      and then the loss acknowledges exactly the epoch's sequence: the number a
      checked transmission will be compared with. */
  lemma {:induction false} QuietDrainIsExact(s: Epoch, es: seq<Event>)
    requires Start(s) && Run(s, es) && Quiet(End(s, es))
    ensures var end := End(s, es);
            Run(end, Drain(end)) && Reading(End(end, Drain(end)).acked) == Reading(end.count)
  {
    RunKeeps(s, es);
    DrainAcknowledges(End(s, es));
  }

  /** A producer left alone ends its reception: with the number it draws, which is
      the next but for a 0, in the queue; or, if that is full, with a loss record
      at least as new. */
  lemma {:induction false} ReceptionEnds(s: Epoch, p: nat, full: bool) returns (n: nat, es: seq<Event>, end: Epoch)
    requires Inv(s) && p in s.producers && s.producers[p].Idle?
    requires s.acked + HALF > s.count + 2 && (s.lost != 0 ==> s.lost + HALF > s.count + 2)
    ensures Proper(n) && n == s.count + (if Proper(s.count + 1) then 1 else 2)
    ensures es == (if Proper(s.count + 1) then [Draw(p)] else [Draw(p), Draw(p)])
               + (if full then [Overflow(p), Publish(p)] else [Enqueue(p)])
    ensures Steps(s, es) && end == Made(s, es)
    ensures p in end.producers && end.producers[p].Idle? && end.count == n
    ensures if full then end.queue == s.queue && end.lost == n else end.queue == s.queue + [n] && end.lost == s.lost
  {
    n := s.count + if Proper(s.count + 1) then 1 else 2;
    NextProper(s.count);
    var s1 := Next(s, Draw(p));
    var drawn := if Proper(s.count + 1) then s1 else Next(s1, Draw(p));
    es := HeldEnds(drawn, p, n, full);
    if !Proper(s.count + 1) {
      StepsCons(s1, Draw(p), es);
      es := [Draw(p)] + es;
    }
    StepsCons(s, Draw(p), es);
    es := [Draw(p)] + es;
    end := Made(s, es);
  }

  lemma {:induction false} HeldEnds(s: Epoch, p: nat, n: nat, full: bool) returns (es: seq<Event>)
    requires p in s.producers && s.producers[p] == Have(n) && s.count == n
    requires s.lost != 0 ==> s.lost < n < s.lost + HALF
    ensures es == if full then [Overflow(p), Publish(p)] else [Enqueue(p)]
    ensures Steps(s, es)
    ensures var end := Made(s, es);
            && p in end.producers && end.producers[p].Idle? && end.count == n
            && if full then end.queue == s.queue && end.lost == n else end.queue == s.queue + [n] && end.lost == s.lost
  {
    es := [];
    if full {
      if s.lost != 0 {
        NewerIsTrue(n, s.lost, n);
      }
      var s1 := Next(s, Overflow(p));
      StepsCons(s1, Publish(p), es);
      es := [Publish(p)] + es;
      StepsCons(s, Overflow(p), es);
      es := [Overflow(p)] + es;
    } else {
      StepsCons(s, Enqueue(p), es);
      es := [Enqueue(p)] + es;
    }
  }

  lemma {:induction false} StepsCons(s: Epoch, e: Event, es: seq<Event>)
    requires Enabled(s, e) && Steps(Next(s, e), es)
    ensures Steps(s, [e] + es) && Made(s, [e] + es) == Made(Next(s, e), es)
  {
    assert ([e] + es)[0] == e && ([e] + es)[1..] == es;
  }

  lemma {:induction false} NextProper(c: nat)
    ensures !Proper(c + 1) ==> Proper(c + 2)
  {
  }

  /** Steps one behind the other, whatever the time they take. */
  ghost predicate Steps(s: Epoch, es: seq<Event>)
    decreases |es|
  {
    es != [] ==> Enabled(s, es[0]) && Steps(Next(s, es[0]), es[1..])
  }

  ghost function Made(s: Epoch, es: seq<Event>): (r: Epoch)
    requires Steps(s, es)
    decreases |es|
  {
    if es == [] then s else Made(Next(s, es[0]), es[1..])
  }
}
