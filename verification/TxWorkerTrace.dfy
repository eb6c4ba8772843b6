/** The transmit worker told by its history: every field is what its last writer
    made it, and so is what a poll reports and what the task does next. */
module TxWorkerTrace {
  import opened TxWorker

  // ---- Last writers ----

  /** The request slot: taken by a submission, done when the task has published,
      and free again when a poll that found it done has ended. */
  ghost function SlotAfter(es: seq<Event>): (s: Slot) {
    if es == [] then Idle
    else
      var was := es[..|es| - 1];
      match es[|es| - 1]
      case Submit(_) => Pending
      case Publish => Done
      case PollEnd => if LoadedAfter(was) == Done then Idle else SlotAfter(was)
      case _ => SlotAfter(was)
  }

  /** What the latest poll found there. */
  ghost function LoadedAfter(es: seq<Event>): (s: Slot) {
    if es == [] then Idle
    else if es[|es| - 1].PollLoad? then SlotAfter(es[..|es| - 1])
    else LoadedAfter(es[..|es| - 1])
  }

  ghost predicate WakeAfter(es: seq<Event>) {
    es != [] &&
    match es[|es| - 1]
    case GiveWake => true
    case CloseGive => true
    case TakeWake => false
    case _ => WakeAfter(es[..|es| - 1])
  }

  ghost predicate StopAfter(es: seq<Event>) { CloseStop in es }

  /** The driver has reported the end of the current request's transmission. */
  ghost predicate EndedAfter(es: seq<Event>) {
    es != [] &&
    match es[|es| - 1]
    case DriverEnds => true
    case Submit(_) => false
    case _ => EndedAfter(es[..|es| - 1])
  }

  /** A cancellation came while the current request was pending. */
  ghost predicate CancelledAfter(es: seq<Event>) {
    es != [] &&
    var was := es[..|es| - 1];
    match es[|es| - 1]
    case Submit(_) => false
    case Cancel => SlotAfter(was) == Pending || CancelledAfter(was)
    case CloseCancel => SlotAfter(was) == Pending || CancelledAfter(was)
    case _ => CancelledAfter(was)
  }

  /** What a poll that ends now reports: a completion if it found the slot done;
      the end alone, once, if it found the request pending. */
  ghost function Tells(es: seq<Event>): (p: Poll) {
    match LoadedAfter(es)
    case Done => Completion
    case Idle => NoReport
    case Pending => if EndedAfter(es) && !ToldAfter(es) then TimingOnly else NoReport
  }

  /** The caller has been told something of the current request. */
  ghost predicate ToldAfter(es: seq<Event>)
    decreases |es|, 0
  {
    es != [] &&
    var was := es[..|es| - 1];
    match es[|es| - 1]
    case Submit(_) => false
    case PollEnd =>
      || ToldAfter(was) || LoadedAfter(was) == Done
      || (LoadedAfter(was) == Pending && EndedAfter(was))
    case _ => ToldAfter(was)
  }

  /** The requests accepted, in order. */
  ghost function Requests(es: seq<Event>): (ms: seq<Bytes>) {
    if es == [] then []
    else Requests(es[..|es| - 1]) + if es[|es| - 1].Submit? then [es[|es| - 1].msg] else []
  }

  /** The task goes from the wake-up to the slot; from a pending request that is
      not cancelled to the driver and from there, or from one that is, to its
      result; and then, as from a slot with nothing to do, to the stop flag and
      back or out. */
  ghost function TaskAfter(es: seq<Event>): (t: Task) {
    if es == [] then AtWake
    else
      var was := es[..|es| - 1];
      match es[|es| - 1]
      case TakeWake => Looking
      case Look =>
        if SlotAfter(was) != Pending then AtStop
        else if CancelledAfter(was) || Requests(was) == [] then Publishing
        else Sending(Requests(was)[|Requests(was)| - 1])
      case DriverReturns => Publishing
      case Publish => AtStop
      case CheckStop => if StopAfter(was) then Exited else AtWake
      case _ => TaskAfter(was)
  }

  ghost function CallerAfter(es: seq<Event>): (c: Caller) {
    if es == [] then Free
    else
      match es[|es| - 1]
      case Submit(_) => Giving
      case PollLoad => Polled(SlotAfter(es[..|es| - 1]))
      case CloseStop => Stopping
      case CloseCancel => Ending
      case CloseGive => Closing
      case GiveWake => Free
      case PollEnd => Free
      case CloseTimeout => Free
      case _ => CallerAfter(es[..|es| - 1])
  }

  /** Reports of the end alone, and completions, since the latest submission. */
  ghost function Reports(es: seq<Event>, kind: Poll): (n: nat) {
    if es == [] || es[|es| - 1].Submit? then 0
    else
      var was := es[..|es| - 1];
      Reports(was, kind) + if es[|es| - 1].PollEnd? && Tells(was) == kind then 1 else 0
  }

  // ---- The worker follows them ----

  ghost predicate Stands(w: Worker, es: seq<Event>) {
    && w.slot == SlotAfter(es) && w.wake == WakeAfter(es) && w.stop == StopAfter(es)
    && w.task == TaskAfter(es) && w.caller == CallerAfter(es) && w.accepted == Requests(es)
    && (w.accepted != [] ==>
          && w.ended == EndedAfter(es) && w.reported == ToldAfter(es) && w.cancelled == CancelledAfter(es)
          && w.bytes == w.accepted[|w.accepted| - 1])
    && w.timings == Reports(es, TimingOnly) && w.completions == Reports(es, Completion)
    && (w.caller.Polled? ==> w.caller.slot == LoadedAfter(es))
  }

  lemma {:induction false} RunSplit(w: Worker, es: seq<Event>, e: Event)
    ensures Run(w, es + [e]) <==> Run(w, es) && Enabled(End(w, es), e)
    ensures Run(w, es + [e]) ==> End(w, es + [e]) == Next(End(w, es), e)
    decreases |es|
  {
    hide Enabled, Next;
    if es == [] {
      assert es + [e] == [e] && [e][1..] == [];
    } else if Enabled(w, es[0]) {
      assert (es + [e])[0] == es[0] && (es + [e])[1..] == es[1..] + [e];
      RunSplit(Next(w, es[0]), es[1..], e);
    } else {
      assert (es + [e])[0] == es[0];
    }
  }

  lemma {:induction false} SubmitStands(w: Worker, was: seq<Event>, e: Event)
    requires Stands(w, was) && Inv(w) && Enabled(w, e)
    requires e.Submit? || e.Refused? || e.GiveWake?
    ensures Stands(Next(w, e), was + [e])
  {
    var es := was + [e];
    assert es[..|was|] == was && es[|was|] == e;
    NothingYet(w);
    hide Inv;
  }

  lemma {:induction false} PollStands(w: Worker, was: seq<Event>, e: Event)
    requires Stands(w, was) && Inv(w) && Enabled(w, e)
    requires e.PollLoad? || e.Cancel?
    ensures Stands(Next(w, e), was + [e])
  {
    var es := was + [e];
    assert es[..|was|] == was && es[|was|] == e;
    NothingYet(w);
    hide Inv;
  }

  lemma {:induction false} PollEndStands(w: Worker, was: seq<Event>, e: Event)
    requires Stands(w, was) && Inv(w) && Enabled(w, e)
    requires e.PollEnd?
    ensures Stands(Next(w, e), was + [e])
  {
    var es := was + [e];
    assert es[..|was|] == was && es[|was|] == e;
    NothingYet(w);
    hide Inv;
  }

  lemma {:induction false} CloseStands(w: Worker, was: seq<Event>, e: Event)
    requires Stands(w, was) && Inv(w) && Enabled(w, e)
    requires e.CloseStop? || e.CloseCancel? || e.CloseGive? || e.CloseTimeout?
    ensures Stands(Next(w, e), was + [e])
  {
    var es := was + [e];
    assert es[..|was|] == was && es[|was|] == e;
    NothingYet(w);
    hide Inv;
  }

  lemma {:induction false} LookStands(w: Worker, was: seq<Event>, e: Event)
    requires Stands(w, was) && Inv(w) && Enabled(w, e)
    requires e.Look?
    ensures Stands(Next(w, e), was + [e])
  {
    var es := was + [e];
    assert es[..|was|] == was && es[|was|] == e;
    NothingYet(w);
    hide Inv;
  }

  lemma {:induction false} TaskStands(w: Worker, was: seq<Event>, e: Event)
    requires Stands(w, was) && Inv(w) && Enabled(w, e)
    requires e.TakeWake? || e.DriverEnds? || e.DriverReturns? || e.Publish? || e.CheckStop?
    ensures Stands(Next(w, e), was + [e])
  {
    var es := was + [e];
    assert es[..|was|] == was && es[|was|] == e;
    NothingYet(w);
    hide Inv;
  }

  lemma {:induction false} StandsStep(w: Worker, was: seq<Event>, e: Event)
    requires Stands(w, was) && Inv(w) && Enabled(w, e)
    ensures Stands(Next(w, e), was + [e])
  {
    hide Stands, Inv, Next;
    if e.Submit? || e.Refused? || e.GiveWake? { SubmitStands(w, was, e); }
    else if e.PollLoad? || e.Cancel? { PollStands(w, was, e); }
    else if e.PollEnd? { PollEndStands(w, was, e); }
    else if e.Look? { LookStands(w, was, e); }
    else if e.CloseStop? || e.CloseCancel? || e.CloseGive? || e.CloseTimeout? { CloseStands(w, was, e); }
    else { TaskStands(w, was, e); }
  }

  /** Before the first submission there is nothing in the slot. */
  lemma {:induction false} NothingYet(w: Worker)
    requires Inv(w)
    ensures w.accepted == [] ==> w.slot.Idle?
    ensures w.accepted == [] && w.caller.Polled? ==> w.caller.slot.Idle?
    ensures InDriver(w) ==> w.accepted != []
  {
    hide HandedRight;
  }

  lemma {:induction false} StandsAfter(w: Worker, es: seq<Event>)
    requires Fresh(w) && Run(w, es)
    ensures Stands(End(w, es), es)
  {
    hide Stands, Next, Enabled, Inv, Fresh;
    if es == [] {
      StandsFirst(w);
    } else {
      var was, e := es[..|es| - 1], es[|es| - 1];
      assert was + [e] == es;
      RunSplit(w, was, e);
      StandsAfter(w, was);
      FreshInv(w);
      RunKeeps(w, was);
      StandsStep(End(w, was), was, e);
    }
  }

  lemma {:induction false} StandsFirst(w: Worker)
    requires Fresh(w)
    ensures Stands(w, [])
  {
  }

  /** A submission is accepted exactly while no request is in the slot and close
      has not been called; the task wakes exactly if it was given a wake-up since
      it last took one; and otherwise each side goes on where it is. */
  ghost predicate MayBe(es: seq<Event>, e: Event) {
    match e
    case Submit(_) => CallerAfter(es) == Free && SlotAfter(es) == Idle && CloseStop !in es
    case Refused(_) => CallerAfter(es) == Free && !(SlotAfter(es) == Idle && CloseStop !in es)
    case GiveWake => CallerAfter(es) == Giving
    case PollLoad => CallerAfter(es) == Free
    case PollEnd => CallerAfter(es).Polled?
    case Cancel => CallerAfter(es) == Free
    case CloseStop => CallerAfter(es) == Free
    case CloseCancel => CallerAfter(es) == Stopping
    case CloseGive => CallerAfter(es) == Ending
    case CloseTimeout => CallerAfter(es) == Closing
    case TakeWake => TaskAfter(es) == AtWake && WakeAfter(es)
    case Look => TaskAfter(es) == Looking
    case DriverEnds => TaskAfter(es).Sending?
    case DriverReturns => TaskAfter(es).Sending?
    case Publish => TaskAfter(es) == Publishing
    case CheckStop => TaskAfter(es) == AtStop
  }

  /** In every run from the fresh worker: which access is possible next, what a
      poll reports, and what the driver is handed, follow from the accesses before
      it alone. */
  lemma {:induction false} AnswersExactly(w: Worker, es: seq<Event>, e: Event)
    requires Fresh(w) && Run(w, es)
    ensures Run(w, es + [e]) <==> MayBe(es, e)
    ensures e.PollEnd? && MayBe(es, e) ==> End(w, es).caller.Polled? && PollTells(End(w, es)) == Tells(es)
    ensures var now := End(w, es);
            && now.accepted == Requests(es)
            && (now.task.Sending? <==> TaskAfter(es).Sending?)
            && (now.task.Sending? ==> now.task.bytes == TaskAfter(es).bytes)
            && now.timings == Reports(es, TimingOnly) && now.completions == Reports(es, Completion)
  {
    StandsAfter(w, es);
    RunSplit(w, es, e);
    FreshInv(w);
    RunKeeps(w, es);
    NothingYet(End(w, es));
    hide Inv, Run, End, Next;
  }
}
