/** The lock-free race between cancelling a transmission and admitting it, over
    all interleavings of any number of callers. */
module TxControl {
  import opened Clock

  datatype State = Queued | Active | Cancelled

  /** Where a caller of `bus_tx_admit` stands between its atomic accesses: it has
      loaded the state as queued, compared the receive sequence it was given,
      stored the start time. */
  datatype Pc = Outside | Loaded(sequence: Time) | Compared(sequence: Time) | Stamped(sequence: Time)

  datatype Verdict = Admitted | RxPending | Refused

  /** `checkRx` and `acked` are set by `bus_tx_prepare` and then constant. */
  datatype Control = Control(state: State, checkRx: bool, acked: Time, started: Time, callers: map<nat, Pc>)

  datatype Event =
    | Enter(who: nat, sequence: Time)   // load the state
    | Compare(who: nat)                 // compare the sequences
    | Stamp(who: nat, time: Time)       // store the start time
    | Swap(who: nat)                    // compare-exchange to active
    | Cancel                            // bus_tx_cancel: compare-exchange to cancelled

  /** What the step returns to its caller, if it returns. */
  datatype Returned = Nothing | Verdict(v: Verdict) | CancelIs(ok: bool)

  predicate Enabled(c: Control, e: Event) {
    match e
    case Enter(w, _) => w in c.callers && c.callers[w].Outside?
    case Compare(w) => w in c.callers && c.callers[w].Loaded?
    case Stamp(w, _) => w in c.callers && c.callers[w].Compared?
    case Swap(w) => w in c.callers && c.callers[w].Stamped?
    case Cancel => true
  }

  function Returns(c: Control, e: Event): (r: Returned)
    requires Enabled(c, e)
  {
    match e
    case Enter(_, _) =>
      if c.state.Cancelled? then Verdict(Refused) else if c.state.Active? then Verdict(Admitted) else Nothing
    case Compare(w) => if c.checkRx && c.acked != c.callers[w].sequence then Verdict(RxPending) else Nothing
    case Stamp(_, _) => Nothing
    case Swap(_) => Verdict(if c.state.Queued? then Admitted else Refused)
    case Cancel => CancelIs(c.state.Queued?)
  }

  function Next(c: Control, e: Event): (c': Control)
    requires Enabled(c, e)
  {
    match e
    case Enter(w, s) => if c.state.Queued? then c.(callers := c.callers[w := Loaded(s)]) else c
    case Compare(w) =>
      c.(callers := c.callers[w := if Returns(c, e).Nothing? then Compared(c.callers[w].sequence) else Outside])
    case Stamp(w, time) => c.(started := time, callers := c.callers[w := Stamped(c.callers[w].sequence)])
    case Swap(w) =>
      c.(callers := c.callers[w := Outside], state := if c.state.Queued? then Active else c.state)
    case Cancel => if c.state.Queued? then c.(state := Cancelled) else c
  }

  // ---- Whole runs ----

  ghost predicate Run(c: Control, es: seq<Event>)
    decreases |es|
  {
    es != [] ==> Enabled(c, es[0]) && Run(Next(c, es[0]), es[1..])
  }

  /** What the run returned, in order. */
  ghost function Results(c: Control, es: seq<Event>): (rs: seq<Returned>)
    requires Run(c, es)
    ensures |rs| == |es|
    decreases |es|
  {
    if es == [] then [] else [Returns(c, es[0])] + Results(Next(c, es[0]), es[1..])
  }

  /** The sequence numbers with which the state was actually taken to active. */
  ghost function Takings(c: Control, es: seq<Event>): (s: seq<Time>)
    requires Run(c, es)
    decreases |es|
  {
    if es == [] then []
    else (if es[0].Swap? && c.state.Queued? then [c.callers[es[0].who].sequence] else [])
         + Takings(Next(c, es[0]), es[1..])
  }

  /** Callers past the comparison hold the acknowledged sequence if it is checked. */
  ghost predicate Sound(c: Control) {
    c.checkRx ==> forall w :: w in c.callers && (c.callers[w].Compared? || c.callers[w].Stamped?) ==>
      c.callers[w].sequence == c.acked
  }

  lemma {:induction false} SoundKept(c: Control, e: Event)
    requires Sound(c) && Enabled(c, e)
    ensures Sound(Next(c, e)) && Next(c, e).acked == c.acked && Next(c, e).checkRx == c.checkRx
  {
  }

  /** What the rest of a run can return depends on the state it starts in. */
  ghost predicate Outcome(c: Control, es: seq<Event>, rs: seq<Returned>, taken: seq<Time>) {
    && (c.state.Cancelled? ==> CancelIs(true) !in rs && Verdict(Admitted) !in rs && taken == [])
    && (c.state.Active? ==> CancelIs(true) !in rs && taken == [])
    && (c.state.Queued? ==>
          && !(CancelIs(true) in rs && Verdict(Admitted) in rs)
          && (Cancel in es ==> (CancelIs(true) in rs <==> Verdict(Admitted) !in rs))
          && |taken| <= 1 && (Verdict(Admitted) in rs <==> taken != []))
    && (c.checkRx ==> forall i :: 0 <= i < |taken| ==> taken[i] == c.acked)
  }

  lemma {:induction false} RunOutcome(c: Control, es: seq<Event>)
    requires Sound(c) && Run(c, es)
    ensures Outcome(c, es, Results(c, es), Takings(c, es))
    decreases |es|
  {
    if es != [] {
      var c', r := Next(c, es[0]), Returns(c, es[0]);
      SoundKept(c, es[0]);
      RunOutcome(c', es[1..]);
      var rest := Results(c', es[1..]);
      assert forall v :: v in Results(c, es) <==> v == r || v in rest;
      assert Cancel in es <==> es[0] == Cancel || Cancel in es[1..];
    }
  }

  ghost predicate Prepared(c: Control) {
    c.state.Queued? && forall w :: w in c.callers ==> c.callers[w].Outside?
  }

  /** Transmit admission, over all interleavings since the request was prepared:
      if cancelling is tried at all, it succeeds exactly when no admission ever
      returns 0; the state is taken to active at most once; and if the receive
      sequence is checked, then only with the acknowledged one. */
  lemma {:induction false} CancelOrAdmit(c: Control, es: seq<Event>)
    requires Prepared(c) && Run(c, es)
    ensures var rs := Results(c, es);
            && !(CancelIs(true) in rs && Verdict(Admitted) in rs)
            && (Cancel in es ==> (CancelIs(true) in rs <==> Verdict(Admitted) !in rs))
            && |Takings(c, es)| <= 1 && (Verdict(Admitted) in rs <==> Takings(c, es) != [])
            && (c.checkRx && Takings(c, es) != [] ==> Takings(c, es) == [c.acked])
  {
    RunOutcome(c, es);
    if c.checkRx && Takings(c, es) != [] {
      assert Takings(c, es)[0] == c.acked;
    }
  }

  // ---- What each access returns ----

  ghost function End(c: Control, es: seq<Event>): (r: Control)
    requires Run(c, es)
    decreases |es|
  {
    if es == [] then c else End(Next(c, es[0]), es[1..])
  }

  lemma {:induction false} RunSplit(c: Control, es: seq<Event>, e: Event)
    ensures Run(c, es + [e]) <==> Run(c, es) && Enabled(End(c, es), e)
    ensures Run(c, es + [e]) ==> End(c, es + [e]) == Next(End(c, es), e)
    decreases |es|
  {
    if es == [] {
      assert es + [e] == [e] && [e][1..] == [];
    } else if Enabled(c, es[0]) {
      assert (es + [e])[0] == es[0] && (es + [e])[1..] == es[1..] + [e];
      RunSplit(Next(c, es[0]), es[1..], e);
    } else {
      assert (es + [e])[0] == es[0];
    }
  }

  /** The first exchange, to active or to cancelled, decides. */
  ghost function Decided(es: seq<Event>): (s: State) {
    if es == [] then Queued
    else
      var s := Decided(es[..|es| - 1]);
      match es[|es| - 1]
      case Swap(_) => if s == Queued then Active else s
      case Cancel => if s == Queued then Cancelled else s
      case _ => s
  }

  predicate IsOf(e: Event, w: nat) { !e.Cancel? && e.who == w }

  /** A caller between two of its accesses: the next one, and the sequence
      number that it came with. */
  datatype Turn = MayEnter | MayCompare(sequence: Time) | MayStamp(sequence: Time) | MaySwap(sequence: Time)

  /** The program of a caller: it enters, and goes on if nothing is decided; it
      compares, and goes on if the numbers agree or are not checked; it stamps;
      and it swaps. */
  ghost function TurnOf(c: Control, es: seq<Event>, w: nat): (t: Turn) {
    if es == [] then MayEnter
    else
      var was, e := es[..|es| - 1], es[|es| - 1];
      if !IsOf(e, w) then TurnOf(c, was, w)
      else
        var t := TurnOf(c, was, w);
        match e
        case Enter(_, sequence) => if Decided(was) == Queued then MayCompare(sequence) else MayEnter
        case Compare(_) =>
          if t.MayCompare? && (c.checkRx ==> t.sequence == c.acked) then MayStamp(t.sequence) else MayEnter
        case Stamp(_, _) => if t.MayStamp? then MaySwap(t.sequence) else MayEnter
        case Swap(_) => MayEnter
  }

  ghost predicate At(pc: Pc, t: Turn) {
    match t
    case MayEnter => pc.Outside?
    case MayCompare(s) => pc == Loaded(s)
    case MayStamp(s) => pc == Compared(s)
    case MaySwap(s) => pc == Stamped(s)
  }

  /** When the latest caller stamped it. */
  ghost function StampedAt(c: Control, es: seq<Event>): (t: Time) {
    if es == [] then c.started
    else if es[|es| - 1].Stamp? then es[|es| - 1].time
    else StampedAt(c, es[..|es| - 1])
  }

  /** The words and the callers stand where the accesses so far have put them. */
  ghost predicate Stands(c: Control, es: seq<Event>, g: Control) {
    && g.state == Decided(es) && g.started == StampedAt(c, es)
    && g.checkRx == c.checkRx && g.acked == c.acked && g.callers.Keys == c.callers.Keys
    && forall w :: w in g.callers ==> At(g.callers[w], TurnOf(c, es, w))
  }

  lemma {:induction false} StandsStep(c: Control, was: seq<Event>, e: Event, g: Control)
    requires Stands(c, was, g) && Enabled(g, e)
    ensures Stands(c, was + [e], Next(g, e))
  {
    var es := was + [e];
    assert es[..|was|] == was && es[|was|] == e;
    forall w | w in g.callers ensures At(Next(g, e).callers[w], TurnOf(c, es, w)) {
      assert At(g.callers[w], TurnOf(c, was, w));
    }
  }

  lemma {:induction false} StandsAfter(c: Control, es: seq<Event>)
    requires Prepared(c) && Run(c, es)
    ensures Stands(c, es, End(c, es))
  {
    hide Stands, Next, Prepared;
    if es == [] {
      StandsFirst(c);
    } else {
      var was, e := es[..|es| - 1], es[|es| - 1];
      assert was + [e] == es;
      RunSplit(c, was, e);
      StandsAfter(c, was);
      StandsStep(c, was, e, End(c, was));
    }
  }

  lemma {:induction false} StandsFirst(c: Control)
    requires Prepared(c)
    ensures Stands(c, [], c)
  {
  }

  ghost function TurnOfAny(c: Control, es: seq<Event>, e: Event): (t: Turn) {
    if e.Cancel? then MayEnter else TurnOf(c, es, e.who)
  }

  predicate IsTurn(t: Turn, e: Event) {
    match e
    case Enter(_, _) => t.MayEnter?
    case Compare(_) => t.MayCompare?
    case Stamp(_, _) => t.MayStamp?
    case Swap(_) => t.MaySwap?
    case Cancel => true
  }

  function AnswerTo(c: Control, decided: State, t: Turn, e: Event): (r: Returned) {
    match e
    case Enter(_, _) =>
      (match decided case Queued => Nothing case Active => Verdict(Admitted) case Cancelled => Verdict(Refused))
    case Compare(_) => if t.MayCompare? && c.checkRx && t.sequence != c.acked then Verdict(RxPending) else Nothing
    case Stamp(_, _) => Nothing
    case Swap(_) => Verdict(if decided == Queued then Admitted else Refused)
    case Cancel => CancelIs(decided == Queued)
  }

  /** Over all interleavings: which access is possible, and what it returns,
      follows from the accesses before it. Every caller can go on with its own
      program; entering tells what has been decided; the comparison fails exactly
      on another number than the acknowledged one, when it is checked; and an
      exchange, of a caller or of a cancel, succeeds exactly if it is the first. */
  lemma {:induction false} AnswersExactly(c: Control, es: seq<Event>, e: Event)
    requires Prepared(c) && Run(c, es)
    ensures Run(c, es + [e]) <==> (e.Cancel? || e.who in c.callers) && IsTurn(TurnOfAny(c, es, e), e)
    ensures Run(c, es + [e]) ==>
      Enabled(End(c, es), e) && Returns(End(c, es), e) == AnswerTo(c, Decided(es), TurnOfAny(c, es, e), e)
  {
    StandsAfter(c, es);
    RunSplit(c, es, e);
    hide Run, End, Decided, TurnOf, Next;
    if !e.Cancel? && e.who in c.callers {
      assert At(End(c, es).callers[e.who], TurnOf(c, es, e.who));
    }
  }

  /** A caller that comes alone, with the acknowledged number or unchecked, is
      admitted, and its start time noted. */
  lemma {:induction false} LoneCallerAdmitted(c: Control, w: nat, sequence: Time, time: Time)
    requires Prepared(c) && w in c.callers && (c.checkRx ==> sequence == c.acked)
    ensures var es := [Enter(w, sequence), Compare(w), Stamp(w, time), Swap(w)];
            && Run(c, es) && Results(c, es) == [Nothing, Nothing, Nothing, Verdict(Admitted)]
            && End(c, es).state == Active && End(c, es).started == time
  {
    var es := [Enter(w, sequence), Compare(w), Stamp(w, time), Swap(w)];
    var c1 := Next(c, es[0]);
    var c2 := Next(c1, es[1]);
    var c3 := Next(c2, es[2]);
    assert es[1..] == [es[1], es[2], es[3]];
    assert es[1..][1..] == [es[2], es[3]];
    assert es[1..][1..][1..] == [es[3]];
    assert [es[3]][1..] == [] && [es[2], es[3]][1..] == [es[3]];
    assert Enabled(c3, es[3]);
    var c4 := Next(c3, es[3]);
    assert Run(c4, []) && Results(c4, []) == [] && End(c4, []) == c4;
    assert End(c3, [es[3]]) == c4;
    assert End(c2, [es[2], es[3]]) == c4;
    assert Run(c3, [es[3]]) && Results(c3, [es[3]]) == [Verdict(Admitted)];
    assert Run(c2, [es[2], es[3]]) && Results(c2, [es[2], es[3]]) == [Nothing, Verdict(Admitted)];
    assert Run(c1, [es[1], es[2], es[3]]);
  }
}
