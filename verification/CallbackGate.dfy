/** The gate that interrupt callbacks pass before touching a driver that may be
    shutting down: count, then check, then leave; shutdown closes and drains. */
module CallbackGate {
  /** A callback: not there; counted and about to check; in its body; refused or
      finished and about to be uncounted. */
  datatype Callback = Out | Counted | Inside | Leaving

  /** The owner: callbacks allowed; `j1850_callbacks_stop` polling; it returned
      OK; it gave up. */
  datatype Owner = Open | Draining | Stopped | GaveUp

  datatype Gate = Gate(active: nat, stopping: bool, callbacks: map<nat, Callback>, owner: Owner)

  datatype Event =
    | Count(c: nat)     // j1850_callback_enter: add
    | Check(c: nat)     // and load
    | Finish(c: nat)    // the body is over
    | Uncount(c: nat)   // subtract
    | StopBegin         // j1850_callbacks_stop: close the gate
    | StopPoll          // load the count once
    | StopGiveUp        // 100 ms are over
    | StartAgain        // j1850_callbacks_start

  predicate Enabled(g: Gate, e: Event) {
    match e
    case Count(c) => c in g.callbacks && g.callbacks[c].Out?
    case Check(c) => c in g.callbacks && g.callbacks[c].Counted?
    case Finish(c) => c in g.callbacks && g.callbacks[c].Inside?
    case Uncount(c) => c in g.callbacks && g.callbacks[c].Leaving?
    case StopBegin => !g.owner.Draining?
    case StopPoll => g.owner.Draining?
    case StopGiveUp => g.owner.Draining?
    case StartAgain => !g.owner.Draining?
  }

  function Next(g: Gate, e: Event): (g': Gate)
    requires Enabled(g, e)
    requires e.Uncount? ==> g.active > 0
  {
    match e
    case Count(c) => g.(active := g.active + 1, callbacks := g.callbacks[c := Counted])
    case Check(c) => g.(callbacks := g.callbacks[c := if g.stopping then Leaving else Inside])
    case Finish(c) => g.(callbacks := g.callbacks[c := Leaving])
    case Uncount(c) => g.(active := g.active - 1, callbacks := g.callbacks[c := Out])
    case StopBegin => g.(stopping := true, owner := Draining)
    case StopPoll => if g.active == 0 then g.(owner := Stopped) else g
    case StopGiveUp => g.(owner := GaveUp)
    case StartAgain => g.(stopping := false, owner := Open)
  }

  ghost function Present(g: Gate): (s: set<nat>) {
    set c | c in g.callbacks && !g.callbacks[c].Out?
  }

  /** The count is exact, and behind a successful stop nobody is in a body. */
  ghost predicate Inv(g: Gate) {
    && g.active == |Present(g)|
    && (g.owner.Draining? || g.owner.Stopped? ==> g.stopping)
    && (g.owner.Stopped? ==> forall c :: c in g.callbacks ==> !g.callbacks[c].Inside?)
  }

  lemma {:induction false} StepKeeps(g: Gate, e: Event)
    requires Inv(g) && Enabled(g, e)
    ensures e.Uncount? ==> g.active > 0
    ensures Inv(Next(g, e))
  {
    match e
    case Count(c) =>
      var g' := Next(g, e);
      assert Present(g') == Present(g) + {c};
    case Check(c) =>
      var g' := Next(g, e);
      assert Present(g') == Present(g);
    case Finish(c) =>
      var g' := Next(g, e);
      assert Present(g') == Present(g);
    case Uncount(c) =>
      assert c in Present(g);
      var g' := Next(g, e);
      assert Present(g') == Present(g) - {c};
    case StopPoll =>
      if g.active == 0 {
        assert Present(g) == {};
        forall c | c in g.callbacks ensures !g.callbacks[c].Inside? {
          assert c !in Present(g);
        }
      }
      assert Present(Next(g, e)) == Present(g);
    case _ =>
      assert Present(Next(g, e)) == Present(g);
  }

  ghost predicate Run(g: Gate, es: seq<Event>)
    requires Inv(g)
    decreases |es|
  {
    es != [] ==> Enabled(g, es[0]) && (StepKeeps(g, es[0]); Run(Next(g, es[0]), es[1..]))
  }

  ghost function End(g: Gate, es: seq<Event>): (r: Gate)
    requires Inv(g) && Run(g, es)
    ensures Inv(r)
    decreases |es|
  {
    if es == [] then g else StepKeeps(g, es[0]); End(Next(g, es[0]), es[1..])
  }

  /** A closed gate stays closed until it is started again: nobody gets into a
      body who is not in one already. */
  lemma {:induction false} ClosedUntilStart(g: Gate, es: seq<Event>)
    requires Inv(g) && g.stopping && Run(g, es) && StartAgain !in es
    ensures End(g, es).stopping
    ensures forall c :: c in End(g, es).callbacks && End(g, es).callbacks[c].Inside? ==>
      c in g.callbacks && g.callbacks[c].Inside?
    decreases |es|
  {
    if es != [] {
      StepKeeps(g, es[0]);
      assert es[0] in es && forall x :: x in es[1..] ==> x in es;
      ClosedUntilStart(Next(g, es[0]), es[1..]);
    }
  }

  ghost predicate NobodyInside(g: Gate) { forall c :: c in g.callbacks ==> !g.callbacks[c].Inside? }

  ghost predicate Fresh(g: Gate) {
    g.active == 0 && g.owner.Open? && forall c :: c in g.callbacks ==> g.callbacks[c].Out?
  }

  lemma {:induction false} FreshInv(g: Gate)
    requires Fresh(g)
    ensures Inv(g)
  {
    assert Present(g) == {};
  }

  /** For any number of callbacks and every interleaving: once stop has returned
      OK, no body is running, and none starts until start is called, whatever
      callbacks and further stops come after. */
  lemma {:induction false} StoppedMeansStopped(g: Gate, before: seq<Event>, after: seq<Event>)
    requires Fresh(g) && (FreshInv(g); Run(g, before)) && (FreshInv(g); End(g, before).owner.Stopped?)
    requires (FreshInv(g); Run(End(g, before), after)) && StartAgain !in after
    ensures (FreshInv(g); NobodyInside(End(End(g, before), after)))
  {
    FreshInv(g);
    ClosedUntilStart(End(g, before), after);
  }

  // ---- When the gate lets through ----

  /** The gate is as the last stop or start left it. */
  ghost function ClosedBy(was: bool, es: seq<Event>): (closed: bool) {
    if es == [] then was
    else if es[|es| - 1].StopBegin? then true
    else if es[|es| - 1].StartAgain? then false
    else ClosedBy(was, es[..|es| - 1])
  }

  lemma {:induction false} RunSplit(g: Gate, es: seq<Event>, e: Event)
    requires Inv(g)
    ensures Run(g, es + [e]) <==> Run(g, es) && Enabled(End(g, es), e)
    ensures Run(g, es + [e]) ==> StepPossible(End(g, es), e) && End(g, es + [e]) == Next(End(g, es), e)
    decreases |es|
  {
    if es == [] {
      assert es + [e] == [e] && [e][1..] == [];
      if Enabled(g, e) {
        StepKeeps(g, e);
      }
    } else if Enabled(g, es[0]) {
      assert (es + [e])[0] == es[0] && (es + [e])[1..] == es[1..] + [e];
      StepKeeps(g, es[0]);
      RunSplit(Next(g, es[0]), es[1..], e);
    } else {
      assert (es + [e])[0] == es[0];
    }
  }

  ghost predicate StepPossible(g: Gate, e: Event) { Enabled(g, e) && (e.Uncount? ==> g.active > 0) }

  lemma {:induction false} ClosedAfter(g: Gate, es: seq<Event>)
    requires Inv(g) && Run(g, es)
    ensures End(g, es).stopping == ClosedBy(g.stopping, es) && End(g, es).callbacks.Keys == g.callbacks.Keys
  {
    hide Inv;
    if es != [] {
      var was, e := es[..|es| - 1], es[|es| - 1];
      assert was + [e] == es;
      RunSplit(g, was, e);
      ClosedAfter(g, was);
    }
  }

  /** In every run: a callback that checks gets into its body if and only if the
      last call before was not a stop; and a poll tells the owner that all is
      quiet if and only if no callback is present. */
  lemma {:induction false} AdmitsExactly(g: Gate, es: seq<Event>, e: Event)
    requires Inv(g) && Run(g, es + [e])
    ensures Run(g, es)
    ensures e.Check? ==> e.c in g.callbacks && e.c in End(g, es + [e]).callbacks
    ensures e.Check? ==> (End(g, es + [e]).callbacks[e.c].Inside? <==> !ClosedBy(g.stopping, es))
    ensures e.StopPoll? ==>
      (End(g, es + [e]).owner.Stopped? <==>
         forall c :: c in End(g, es).callbacks ==> End(g, es).callbacks[c].Out?)
  {
    hide ClosedBy;
    RunSplit(g, es, e);
    ClosedAfter(g, es);
    NobodyPresent(End(g, es));
  }

  lemma {:induction false} NobodyPresent(g: Gate)
    requires Inv(g)
    ensures g.active == 0 <==> forall c :: c in g.callbacks ==> g.callbacks[c].Out?
  {
    if g.active == 0 {
      forall c | c in g.callbacks ensures g.callbacks[c].Out? {
        assert c !in Present(g);
      }
    }
    if forall c :: c in g.callbacks ==> g.callbacks[c].Out? {
      assert Present(g) == {};
    }
  }

  /** There is such a run: a callback inside while the gate closes, a successful
      stop behind it, a refusal, and another pass once the gate is open again. */
  lemma {:induction false} OneLife(g: Gate, c: nat) returns (es: seq<Event>)
    requires g == Gate(0, false, map[c := Out], Open)
    ensures Fresh(g) && Inv(g) && Run(g, es)
    ensures es == [Count(c), Check(c), StopBegin, Finish(c), Uncount(c), StopPoll,
                   Count(c), Check(c), Uncount(c), StartAgain, Count(c), Check(c)]
    ensures End(g, es) == Gate(1, false, map[c := Inside], Open)
  {
    FreshInv(g);
    hide Inv, Run, End, Present, Enabled, Next, StepPossible;
    es := NoneYet(g);
    es := Entering(g, es, c);
    es := OneMore(g, es, StopBegin, Gate(1, false, map[c := Inside], Open), Gate(1, true, map[c := Inside], Draining))
      by { ClosesNow(c); }
    es := Closing(g, es, c);
    es := OneMore(g, es, StartAgain, Gate(0, true, map[c := Out], Stopped), Gate(0, false, map[c := Out], Open))
      by { OpensNow(c); }
    es := Entering(g, es, c);
  }

  lemma {:induction false} ClosesNow(c: nat)
    ensures StepPossible(Gate(1, false, map[c := Inside], Open), StopBegin)
    ensures Next(Gate(1, false, map[c := Inside], Open), StopBegin) == Gate(1, true, map[c := Inside], Draining)
  {
  }

  lemma {:induction false} OpensNow(c: nat)
    ensures StepPossible(Gate(0, true, map[c := Out], Stopped), StartAgain)
    ensures Next(Gate(0, true, map[c := Out], Stopped), StartAgain) == Gate(0, false, map[c := Out], Open)
  {
  }

  /** A callback comes to an open gate. */
  lemma {:induction false} Entering(g: Gate, was: seq<Event>, c: nat) returns (es: seq<Event>)
    requires Inv(g) && Run(g, was) && End(g, was) == Gate(0, false, map[c := Out], Open)
    ensures es == was + [Count(c), Check(c)]
    ensures Run(g, es) && End(g, es) == Gate(1, false, map[c := Inside], Open)
  {
    hide Inv, Run, End, Present;
    es := OneMore(g, was, Count(c), Gate(0, false, map[c := Out], Open), Gate(1, false, map[c := Counted], Open));
    es := OneMore(g, es, Check(c), Gate(1, false, map[c := Counted], Open), Gate(1, false, map[c := Inside], Open));
  }

  /** The callback leaves, the owner stops, and the next one is refused. */
  lemma {:induction false} Closing(g: Gate, was: seq<Event>, c: nat) returns (es: seq<Event>)
    requires Inv(g) && Run(g, was) && End(g, was) == Gate(1, true, map[c := Inside], Draining)
    ensures es == was + [Finish(c), Uncount(c), StopPoll, Count(c), Check(c), Uncount(c)]
    ensures Run(g, es) && End(g, es) == Gate(0, true, map[c := Out], Stopped)
  {
    hide Inv, Run, End, Present;
    es := was;
    es := OneMore(g, es, Finish(c), Gate(1, true, map[c := Inside], Draining),
                  Gate(1, true, map[c := Leaving], Draining));
    es := OneMore(g, es, Uncount(c), Gate(1, true, map[c := Leaving], Draining),
                  Gate(0, true, map[c := Out], Draining));
    es := OneMore(g, es, StopPoll, Gate(0, true, map[c := Out], Draining), Gate(0, true, map[c := Out], Stopped));
    es := OneMore(g, es, Count(c), Gate(0, true, map[c := Out], Stopped), Gate(1, true, map[c := Counted], Stopped));
    es := OneMore(g, es, Check(c), Gate(1, true, map[c := Counted], Stopped),
                  Gate(1, true, map[c := Leaving], Stopped));
    es := OneMore(g, es, Uncount(c), Gate(1, true, map[c := Leaving], Stopped), Gate(0, true, map[c := Out], Stopped));
  }

  lemma {:induction false} NoneYet(g: Gate) returns (es: seq<Event>)
    requires Inv(g)
    ensures es == [] && Run(g, es) && End(g, es) == g
  {
    es := [];
  }

  lemma {:induction false} OneMore(g: Gate, es: seq<Event>, e: Event, h: Gate, h': Gate) returns (more: seq<Event>)
    requires Inv(g) && Run(g, es) && End(g, es) == h && StepPossible(h, e) && Next(h, e) == h'
    ensures more == es + [e] && Run(g, more) && End(g, more) == h'
  {
    RunSplit(g, es, e);
    more := es + [e];
  }
}
