/** The transmit worker: one caller and one task that share a request slot, a
    binary wake-up semaphore and a stop flag, over all interleavings of their
    atomic accesses. */
module TxWorker {
  type Bytes = seq<int>

  datatype Slot = Idle | Pending | Done

  /** The task between its accesses: at the semaphore; about to look at the slot;
      in the driver with these bytes; about to publish a result; about to look at
      the stop flag; gone. */
  datatype Task = AtWake | Looking | Sending(bytes: Bytes) | Publishing | AtStop | Exited

  /** The caller between its accesses: the request is stored and the wake-up not
      yet given; the slot has been loaded by a poll; close has set the stop flag;
      it has cancelled what was queued; or it waits for the task to exit. */
  datatype Caller = Free | Giving | Polled(slot: Slot) | Stopping | Ending | Closing

  /** `bytes`, `cancelled`, `ended`, `reported` are the request's own fields. The
      rest is what an onlooker has noted: requests accepted and what each held,
      what the driver was handed for each, and for the current one the
      timing-only reports and completions that the caller got. */
  datatype Worker = Worker(
    slot: Slot, wake: bool, stop: bool, bytes: Bytes, cancelled: bool, ended: bool, reported: bool,
    task: Task, caller: Caller,
    accepted: seq<Bytes>, handed: map<nat, Bytes>, timings: nat, completions: nat)

  datatype Event =
    // the caller
    | Submit(msg: Bytes)   // up to the store of PENDING
    | Refused(msg: Bytes)  // submit finds the slot taken or the worker stopping
    | GiveWake
    | PollLoad
    | PollEnd
    | Cancel
    | CloseStop            // close: the stop flag
    | CloseCancel          // then bus_tx_worker_cancel
    | CloseGive            // then the wake-up
    | CloseTimeout         // the task did not exit in time; close may be tried again
    // the task
    | TakeWake
    | Look
    | DriverEnds           // the driver reports the end of the transmission
    | DriverReturns
    | Publish
    | CheckStop

  predicate Enabled(w: Worker, e: Event) {
    match e
    case Submit(_) => w.caller.Free? && !w.stop && w.slot.Idle?
    case Refused(_) => w.caller.Free? && (w.stop || !w.slot.Idle?)
    case GiveWake => w.caller.Giving?
    case PollLoad => w.caller.Free?
    case PollEnd => w.caller.Polled?
    case Cancel => w.caller.Free?
    case CloseStop => w.caller.Free?
    case CloseCancel => w.caller.Stopping?
    case CloseGive => w.caller.Ending?
    case CloseTimeout => w.caller.Closing?
    case TakeWake => w.task.AtWake? && w.wake
    case Look => w.task.Looking?
    case DriverEnds => w.task.Sending?
    case DriverReturns => w.task.Sending?
    case Publish => w.task.Publishing?
    case CheckStop => w.task.AtStop?
  }

  /** What a poll that loaded this slot, and now loads `ended`, tells the caller. */
  datatype Poll = NoReport | TimingOnly | Completion

  function PollTells(w: Worker): (p: Poll)
    requires w.caller.Polled?
  {
    if w.caller.slot.Done? then Completion
    else if w.caller.slot.Idle? || !w.ended || w.reported then NoReport
    else TimingOnly
  }

  function Next(w: Worker, e: Event): (w': Worker)
    requires Enabled(w, e)
  {
    match e
    case Submit(msg) =>
      w.(bytes := msg, cancelled := false, ended := false, reported := false, slot := Pending, caller := Giving,
         accepted := w.accepted + [msg], timings := 0, completions := 0)
    case Refused(_) => w
    case GiveWake => w.(wake := true, caller := Free)
    case PollLoad => w.(caller := Polled(w.slot))
    case PollEnd =>
      (match PollTells(w)
       case NoReport => w.(caller := Free)
       case TimingOnly => w.(caller := Free, reported := true, timings := w.timings + 1)
       case Completion => w.(caller := Free, reported := true, slot := Idle, completions := w.completions + 1))
    case Cancel => w.(cancelled := w.cancelled || w.slot.Pending?)
    case CloseStop => w.(stop := true, caller := Stopping)
    case CloseCancel => w.(cancelled := w.cancelled || w.slot.Pending?, caller := Ending)
    case CloseGive => w.(wake := true, caller := Closing)
    case CloseTimeout => w.(caller := Free)
    case TakeWake => w.(wake := false, task := Looking)
    case Look =>
      if !w.slot.Pending? then w.(task := AtStop)
      else if w.cancelled then w.(task := Publishing)
      else w.(task := Sending(w.bytes), handed := w.handed[|w.accepted| := w.bytes])
    case DriverEnds => w.(ended := true)
    case DriverReturns => w.(task := Publishing)
    case Publish => w.(slot := Done, task := AtStop)
    case CheckStop => w.(task := if w.stop then Exited else AtWake)
  }

  // ---- The invariant ----

  /** The driver was handed nothing but what was submitted, at most once each. */
  ghost predicate HandedRight(handed: map<nat, Bytes>, accepted: seq<Bytes>) {
    forall i :: i in handed ==> 1 <= i <= |accepted| && handed[i] == accepted[i - 1]
  }

  ghost predicate InDriver(w: Worker) { w.task.Sending? || w.task.Publishing? }

  ghost predicate Inv(w: Worker) {
    && HandedRight(w.handed, w.accepted)
    // the slot says where the request is, and only the task at work may finish it
    && (InDriver(w) ==> w.slot.Pending?)
    && (w.task.Sending? ==> w.task.bytes == w.bytes)
    && (!w.slot.Idle? ==> w.accepted != [] && w.bytes == w.accepted[|w.accepted| - 1])
    && (w.slot.Pending? && !InDriver(w) ==> |w.accepted| !in w.handed)
    // reports: at most one timing, and a completion exactly when the slot is free again
    && (w.accepted != [] ==> (w.slot.Idle? <==> w.completions == 1))
    && (w.accepted == [] ==> w.slot.Idle? && w.completions == 0)
    && w.completions <= 1 && w.timings <= 1
    && (w.timings == 1 ==> w.reported)
    && (w.caller.Polled? && w.caller.slot.Done? ==> w.slot.Done?)
    && (w.caller.Polled? && w.caller.slot.Idle? ==> w.slot.Idle?)
    && (w.caller.Polled? && w.caller.slot.Pending? ==> !w.slot.Idle?)
    // no wake-up is lost
    && (w.slot.Pending? && !w.caller.Giving? && (w.task.AtWake? || w.task.AtStop?) ==> w.wake)
    && (w.caller.Closing? && w.task.AtWake? ==> w.wake)
    && (w.caller.Closing? || w.caller.Ending? || w.caller.Stopping? ==> w.stop)
    && (w.task.Exited? ==> w.stop)
    && (w.caller.Giving? ==> !w.slot.Idle? && !w.stop)
  }

  lemma {:induction false} SubmitKeeps(w: Worker, e: Event)
    requires Inv(w) && Enabled(w, e) && e.Submit?
    ensures Inv(Next(w, e))
  {
    var w' := Next(w, e);
    assert w'.accepted[|w.accepted|] == e.msg;
    forall i | i in w'.handed ensures 1 <= i <= |w'.accepted| && w'.handed[i] == w'.accepted[i - 1] {
      assert w'.accepted[i - 1] == w.accepted[i - 1];
    }
  }

  lemma {:induction false} HandsOn(handed: map<nat, Bytes>, accepted: seq<Bytes>, bytes: Bytes)
    requires HandedRight(handed, accepted) && accepted != [] && bytes == accepted[|accepted| - 1]
    ensures HandedRight(handed[|accepted| := bytes], accepted)
  {
  }

  lemma {:induction false} LookKeeps(w: Worker)
    requires Inv(w) && Enabled(w, Look)
    ensures Inv(Next(w, Look))
  {
    if w.slot.Pending? {
      HandsOn(w.handed, w.accepted, w.bytes);
    }
    hide HandedRight;
  }

  lemma {:induction false} PollKeeps(w: Worker, e: Event)
    requires Inv(w) && Enabled(w, e) && (e.PollLoad? || e.Cancel? || e.Refused?)
    ensures Inv(Next(w, e))
  {
    hide HandedRight;
  }

  lemma {:induction false} PollEndKeeps(w: Worker)
    requires Inv(w) && Enabled(w, PollEnd)
    ensures Inv(Next(w, PollEnd))
  {
    hide HandedRight;
    if w.caller.slot.Done? {
      assert PollTells(w) == Completion;
    } else if PollTells(w) == TimingOnly {
      assert w.timings == 0;
    }
  }

  lemma {:induction false} CloseKeeps(w: Worker, e: Event)
    requires Inv(w) && Enabled(w, e)
    requires e.CloseStop? || e.CloseCancel? || e.CloseGive? || e.CloseTimeout? || e.GiveWake?
    ensures Inv(Next(w, e))
  {
  }

  lemma {:induction false} TaskKeeps(w: Worker, e: Event)
    requires Inv(w) && Enabled(w, e)
    requires e.TakeWake? || e.DriverEnds? || e.DriverReturns? || e.Publish? || e.CheckStop?
    ensures Inv(Next(w, e))
  {
    hide HandedRight;
  }

  lemma {:induction false} StepKeeps(w: Worker, e: Event)
    requires Inv(w) && Enabled(w, e)
    ensures Inv(Next(w, e))
  {
    match e
    case Submit(_) => SubmitKeeps(w, e);
    case Look => LookKeeps(w);
    case PollLoad => PollKeeps(w, e);
    case PollEnd => PollEndKeeps(w);
    case Cancel => PollKeeps(w, e);
    case Refused(_) => PollKeeps(w, e);
    case CloseStop => CloseKeeps(w, e);
    case CloseCancel => CloseKeeps(w, e);
    case CloseGive => CloseKeeps(w, e);
    case CloseTimeout => CloseKeeps(w, e);
    case GiveWake => CloseKeeps(w, e);
    case _ => TaskKeeps(w, e);
  }

  /** What one step of a reachable worker promises. */
  ghost predicate Promise(w: Worker, e: Event)
    requires Enabled(w, e)
  {
    match e
    case Submit(_) => w.accepted != [] ==> w.completions == 1
    case PollEnd =>
      (match PollTells(w)
       case NoReport => true
       case TimingOnly => w.accepted != [] && w.timings == 0 && w.completions == 0
       case Completion => w.accepted != [] && w.completions == 0)
    case Look =>
      w.slot.Pending? && !w.cancelled ==>
        && w.accepted != [] && |w.accepted| !in w.handed
        && Next(w, e).handed[|w.accepted|] == w.accepted[|w.accepted| - 1]
    case _ => true
  }

  lemma {:induction false} StepPromises(w: Worker, e: Event)
    requires Inv(w) && Enabled(w, e)
    ensures Promise(w, e)
  {
  }

  ghost predicate Fresh(w: Worker) {
    && w.slot.Idle? && !w.wake && !w.stop && w.task.AtWake? && w.caller.Free?
    && w.accepted == [] && w.handed == map[] && w.timings == 0 && w.completions == 0
  }

  ghost predicate Run(w: Worker, es: seq<Event>)
    decreases |es|
  {
    es != [] ==> Enabled(w, es[0]) && Run(Next(w, es[0]), es[1..])
  }

  ghost function End(w: Worker, es: seq<Event>): (r: Worker)
    requires Run(w, es)
    decreases |es|
  {
    if es == [] then w else End(Next(w, es[0]), es[1..])
  }

  lemma {:induction false} RunKeeps(w: Worker, es: seq<Event>)
    requires Inv(w) && Run(w, es)
    ensures Inv(End(w, es))
    decreases |es|
  {
    if es != [] {
      StepKeeps(w, es[0]);
      RunKeeps(Next(w, es[0]), es[1..]);
    }
  }

  /** Worker hand-off, in every run and at its every step: the driver is handed
      exactly the bytes submitted, at most once for each request; the caller
      gets at most one timing-only report and then one completion for it; and
      no further request is accepted before that completion is collected. */
  lemma {:induction false} HandOff(w: Worker, es: seq<Event>, e: Event)
    requires Fresh(w) && Run(w, es) && Enabled(End(w, es), e)
    ensures Promise(End(w, es), e)
    ensures var w' := Next(End(w, es), e); HandedRight(w'.handed, w'.accepted)
    ensures Next(End(w, es), e).timings <= 1 && Next(End(w, es), e).completions <= 1
  {
    RunKeeps(w, es);
    StepPromises(End(w, es), e);
    StepKeeps(End(w, es), e);
  }

  // ---- Wake-ups ----

  predicate OfTask(e: Event) {
    e.TakeWake? || e.Look? || e.DriverReturns? || e.Publish? || e.CheckStop?
  }

  /** The task's next own step. */
  function TaskStep(w: Worker): (e: Event) {
    match w.task
    case AtWake => TakeWake
    case Looking => Look
    case Sending(_) => DriverReturns
    case Publishing => Publish
    case AtStop => CheckStop
    case Exited => CheckStop
  }

  function ToDone(t: Task): (n: nat) {
    match t
    case AtStop => 5
    case AtWake => 4
    case Looking => 3
    case Sending(_) => 2
    case Publishing => 1
    case Exited => 0
  }

  function ToExit(t: Task): (n: nat) {
    match t
    case AtWake => 5
    case Looking => 4
    case Sending(_) => 3
    case Publishing => 2
    case AtStop => 1
    case Exited => 0
  }

  /** The request was not looked at before the stop flag was set, and the task
      is past its last look: nobody will ever serve it. */
  predicate Stranded(w: Worker) { w.slot.Pending? && w.stop && (w.task.AtStop? || w.task.Exited?) }

  /** A request that is not stranded, once its wake-up was given, is never left
      lying: the task can move, and is a step closer to its result. */
  lemma {:induction false} RequestProgresses(w: Worker)
    requires Inv(w) && w.slot.Pending? && !w.caller.Giving? && !Stranded(w)
    ensures var e := TaskStep(w);
            && OfTask(e) && Enabled(w, e)
            && (Next(w, e).slot.Done?
                || (Next(w, e).slot.Pending? && !Stranded(Next(w, e)) && ToDone(Next(w, e).task) < ToDone(w.task)))
  {
  }

  lemma {:induction false} RunCons(w: Worker, e: Event, es: seq<Event>)
    requires Enabled(w, e) && Run(Next(w, e), es)
    ensures Run(w, [e] + es) && End(w, [e] + es) == End(Next(w, e), es)
  {
    assert ([e] + es)[0] == e && ([e] + es)[1..] == es;
  }

  /** The task's own steps take such a request to its result. */
  lemma {:induction false} TaskCompletes(w: Worker) returns (es: seq<Event>)
    requires Inv(w) && w.slot.Pending? && !w.caller.Giving? && !Stranded(w)
    ensures |es| <= ToDone(w.task) && Run(w, es) && End(w, es).slot.Done?
    ensures forall i :: 0 <= i < |es| ==> OfTask(es[i])
    decreases ToDone(w.task)
  {
    hide Inv;
    RequestProgresses(w);
    var e := TaskStep(w);
    StepKeeps(w, e);
    var rest := [];
    if !Next(w, e).slot.Done? {
      StepKeepsCaller(w, e);
      rest := TaskCompletes(Next(w, e));
    }
    RunCons(w, e, rest);
    es := [e] + rest;
  }

  lemma {:induction false} StepKeepsCaller(w: Worker, e: Event)
    requires OfTask(e) && Enabled(w, e)
    ensures Next(w, e).caller == w.caller && Next(w, e).stop == w.stop
  {
    match e
    case Look =>
    case _ =>
  }

  /** A stranded request stays as it is in every run. */
  lemma {:induction false} StrandedForever(w: Worker, es: seq<Event>)
    requires Inv(w) && Stranded(w) && Run(w, es)
    ensures Stranded(End(w, es)) && End(w, es).accepted == w.accepted && End(w, es).completions == w.completions
    ensures End(w, es).handed == w.handed
    decreases |es|
  {
    hide Inv;
    if es != [] {
      StrandedStep(w, es[0]);
      StepKeeps(w, es[0]);
      StrandedForever(Next(w, es[0]), es[1..]);
    }
  }

  lemma {:induction false} StrandedStep(w: Worker, e: Event)
    requires Inv(w) && Stranded(w) && Enabled(w, e)
    ensures var w' := Next(w, e);
            Stranded(w') && w'.accepted == w.accepted && w'.completions == w.completions && w'.handed == w.handed
  {
    hide HandedRight;
  }

  /** The request in the slot can still come to its result. */
  ghost predicate CanComplete(w: Worker) {
    exists es: seq<Event> :: Run(w, es) && End(w, es).slot.Done?
  }

  /** In every reachable state, a pending request can still be completed if and
      only if it is not stranded. */
  lemma {:induction false} CompletesExactly(w: Worker, es: seq<Event>)
    requires Fresh(w) && Run(w, es) && End(w, es).slot.Pending?
    ensures CanComplete(End(w, es)) <==> !Stranded(End(w, es))
  {
    hide Inv, Fresh;
    FreshInv(w);
    RunKeeps(w, es);
    var now := End(w, es);
    if Stranded(now) {
      forall more | Run(now, more) ensures !End(now, more).slot.Done? {
        StrandedForever(now, more);
      }
    } else if now.caller.Giving? {
      var given := Next(now, GiveWake);
      StepKeeps(now, GiveWake);
      var rest := TaskCompletes(given);
      RunCons(now, GiveWake, rest);
    } else {
      var rest := TaskCompletes(now);
    }
  }

  lemma {:induction false} FreshInv(w: Worker)
    requires Fresh(w)
    ensures Inv(w)
  {
  }

  /** At some point of the run the request has its result. */
  ghost predicate ReachesDone(w: Worker, es: seq<Event>)
    decreases |es|
  {
    w.slot.Done? || (es != [] && Enabled(w, es[0]) && ReachesDone(Next(w, es[0]), es[1..]))
  }

  /** How many of the events are the task's own. */
  function TaskSteps(es: seq<Event>): (n: nat)
    decreases |es|
  {
    if es == [] then 0 else (if OfTask(es[0]) then 1 else 0) + TaskSteps(es[1..])
  }

  /** And in every run in which the task takes as many steps of its own as it is
      away from the result, whatever the caller and the driver do in between
      short of closing, it gets there. */
  lemma {:induction false} AlwaysCompletes(w: Worker, es: seq<Event>)
    requires Inv(w) && w.slot.Pending? && !w.caller.Giving? && !Stranded(w) && Run(w, es)
    requires w.stop || CloseStop !in es
    requires TaskSteps(es) >= ToDone(w.task)
    ensures ReachesDone(w, es)
    decreases |es|
  {
    hide Inv;
    NotThereYet(w);
    if es != [] {
      var w' := Next(w, es[0]);
      assert es[0] in es && forall e :: e in es[1..] ==> e in es;
      PendingStep(w, es[0]);
      StepKeeps(w, es[0]);
      if !w'.slot.Done? {
        AlwaysCompletes(w', es[1..]);
      }
    }
  }

  lemma {:induction false} NotThereYet(w: Worker)
    requires Inv(w) && w.slot.Pending? && !Stranded(w)
    ensures ToDone(w.task) > 0
  {
    hide HandedRight;
  }

  lemma {:induction false} PendingStep(w: Worker, e: Event)
    requires Inv(w) && w.slot.Pending? && !w.caller.Giving? && !Stranded(w) && Enabled(w, e)
    requires w.stop || e != CloseStop
    ensures var w' := Next(w, e);
            w'.slot.Done?
            || (&& w'.slot.Pending? && !w'.caller.Giving? && !Stranded(w') && (w.stop ==> w'.stop)
                && (if OfTask(e) then ToDone(w'.task) < ToDone(w.task) else w'.task == w.task))
  {
    hide HandedRight;
    if OfTask(e) {
      assert e == TaskStep(w);
      RequestProgresses(w);
    } else {
      match e
      case PollEnd =>
      case _ =>
    }
  }

  /** Completions collected in a run. */
  ghost function Collected(w: Worker, es: seq<Event>): (n: nat)
    requires Run(w, es)
    decreases |es|
  {
    if es == [] then 0
    else (if es[0].PollEnd? && PollTells(w) == Completion then 1 else 0) + Collected(Next(w, es[0]), es[1..])
  }

  /** Requests that have had their completion. */
  function Settled(w: Worker): (n: int) { |w.accepted| - if w.slot.Idle? then 0 else 1 }

  lemma {:induction false} CollectedSettles(w: Worker, es: seq<Event>)
    requires Inv(w) && Run(w, es)
    ensures Collected(w, es) == Settled(End(w, es)) - Settled(w)
    decreases |es|
  {
    hide Inv;
    if es != [] {
      StepKeeps(w, es[0]);
      SettledStep(w, es[0]);
      CollectedSettles(Next(w, es[0]), es[1..]);
    }
  }

  lemma {:induction false} SettledStep(w: Worker, e: Event)
    requires Inv(w) && Enabled(w, e)
    ensures Settled(Next(w, e)) == Settled(w) + if e.PollEnd? && PollTells(w) == Completion then 1 else 0
  {
    hide HandedRight;
  }

  /** In every run the completions collected are one for each request accepted,
      except the one still in the slot. */
  lemma {:induction false} OneCompletionEach(w: Worker, es: seq<Event>)
    requires Fresh(w) && Run(w, es)
    ensures Collected(w, es) == |End(w, es).accepted| - if End(w, es).slot.Idle? then 0 else 1
  {
    hide Inv;
    FreshInv(w);
    CollectedSettles(w, es);
  }

  // ---- Closing ----

  /** Request `n` has not been handed to the driver and will not be. */
  ghost predicate Spared(w: Worker, n: nat) {
    0 < n <= |w.accepted| && n !in w.handed && (n == |w.accepted| ==> w.cancelled || !w.slot.Pending?)
  }

  /** A request cancelled before the task looked at it never reaches the driver. */
  lemma {:induction false} CancelledNeverSent(w: Worker, n: nat, es: seq<Event>)
    requires Spared(w, n) && Run(w, es)
    ensures n !in End(w, es).handed
    decreases |es|
  {
    hide Next, Enabled;
    if es != [] {
      SparedStep(w, n, es[0]);
      CancelledNeverSent(Next(w, es[0]), n, es[1..]);
    }
  }

  lemma {:induction false} SparedStep(w: Worker, n: nat, e: Event)
    requires Spared(w, n) && Enabled(w, e)
    ensures Spared(Next(w, e), n)
  {
    match e
    case Look =>
    case Submit(_) =>
    case PollEnd =>
    case Publish =>
    case Cancel =>
    case CloseCancel =>
    case _ => assert Next(w, e).accepted == w.accepted && Next(w, e).handed == w.handed;
  }

  /** Nothing that the task has not looked at by the time close cancels is handed
      to the driver, in any run. */
  lemma {:induction false} CloseSendsNothingNew(w: Worker, es: seq<Event>, more: seq<Event>)
    requires Fresh(w) && Run(w, es) && Enabled(End(w, es), CloseCancel)
    requires End(w, es).slot.Pending? && !InDriver(End(w, es))
    requires Run(Next(End(w, es), CloseCancel), more)
    ensures |End(w, es).accepted| !in End(Next(End(w, es), CloseCancel), more).handed
  {
    FreshInv(w);
    RunKeeps(w, es);
    CancelledNeverSent(Next(End(w, es), CloseCancel), |End(w, es).accepted|, more);
  }

  /** Closing never loses the wake-up: whatever the task was doing, once close
      waits for it the task can move, and every step takes it closer to its exit. */
  lemma {:induction false} CloseProgresses(w: Worker)
    requires Inv(w) && w.caller.Closing? && !w.task.Exited?
    ensures var e := TaskStep(w);
            OfTask(e) && Enabled(w, e)
            && Next(w, e).caller.Closing? && ToExit(Next(w, e).task) < ToExit(w.task)
  {
  }

  /** So in every run in which close goes on waiting and the task takes as many
      steps of its own as it is away from its exit, never more than five, it has
      exited, whatever else happens in between. */
  lemma {:induction false} CloseExits(w: Worker, es: seq<Event>)
    requires Inv(w) && w.caller.Closing? && Run(w, es) && CloseTimeout !in es
    requires TaskSteps(es) >= ToExit(w.task)
    ensures End(w, es).task.Exited?
    decreases |es|
  {
    hide Inv;
    if es != [] {
      assert es[0] in es && forall e :: e in es[1..] ==> e in es;
      ClosingStep(w, es[0]);
      StepKeeps(w, es[0]);
      CloseExits(Next(w, es[0]), es[1..]);
    }
  }

  lemma {:induction false} ClosingStep(w: Worker, e: Event)
    requires Inv(w) && w.caller.Closing? && Enabled(w, e) && e != CloseTimeout
    ensures Next(w, e).caller.Closing?
    ensures if OfTask(e) then ToExit(Next(w, e).task) < ToExit(w.task) else Next(w, e).task == w.task
  {
    hide HandedRight;
  }

  /** A request can be lost to closing: accepted and its wake-up given, but the
      task, on its way from the request before, sees the stop flag first. It
      exits with the request pending and never handed over. */
  lemma {:induction false} DroppedAtClose(w: Worker, a: Bytes, b: Bytes) returns (es: seq<Event>)
    requires Fresh(w)
    ensures Run(w, es)
    ensures var end := End(w, es); Stranded(end) && end.task.Exited? && |end.accepted| == 2 && 2 !in end.handed
  {
    var served, s1 := FirstServed(w, a);
    var dropped := SecondDropped(served, b);
    es := s1 + dropped;
    RunJoin(w, s1, dropped);
  }

  lemma {:induction false} RunJoin(w: Worker, x: seq<Event>, y: seq<Event>)
    requires Run(w, x) && Run(End(w, x), y)
    ensures Run(w, x + y) && End(w, x + y) == End(End(w, x), y)
    decreases |x|
  {
    if x == [] {
      assert x + y == y;
    } else {
      assert (x + y)[0] == x[0] && (x + y)[1..] == x[1..] + y;
      RunJoin(Next(w, x[0]), x[1..], y);
    }
  }

  /** A first request served and collected, with the task about to check the
      stop flag. */
  ghost predicate Resting(w: Worker) {
    && w.slot.Idle? && !w.wake && !w.stop && w.task.AtStop? && w.caller.Free?
    && |w.accepted| == 1 && 2 !in w.handed
  }

  ghost predicate AtWork(w: Worker) {
    && w.slot.Pending? && !w.wake && !w.stop && w.task.Sending? && w.caller.Free?
    && |w.accepted| == 1 && 2 !in w.handed
  }

  lemma {:induction false} FirstServed(w: Worker, a: Bytes) returns (end: Worker, es: seq<Event>)
    requires Fresh(w)
    ensures Run(w, es) && End(w, es) == end && Resting(end)
  {
    hide Fresh, AtWork, Resting;
    var mid, x := FirstHanded(w, a);
    var y;
    end, y := FirstCollected(mid);
    es := x + y;
    RunJoin(w, x, y);
  }

  lemma {:induction false} FirstHanded(w: Worker, a: Bytes) returns (end: Worker, es: seq<Event>)
    requires Fresh(w)
    ensures Run(w, es) && End(w, es) == end && AtWork(end)
  {
    var w1 := Next(w, Submit(a));
    var w2 := Next(w1, GiveWake);
    var w3 := Next(w2, TakeWake);
    end := Next(w3, Look);
    RunCons(w3, Look, []);
    RunCons(w2, TakeWake, [Look] + []);
    RunCons(w1, GiveWake, [TakeWake] + ([Look] + []));
    RunCons(w, Submit(a), [GiveWake] + ([TakeWake] + ([Look] + [])));
    es := [Submit(a)] + ([GiveWake] + ([TakeWake] + ([Look] + [])));
  }

  lemma {:induction false} FirstCollected(w: Worker) returns (end: Worker, es: seq<Event>)
    requires AtWork(w)
    ensures Run(w, es) && End(w, es) == end && Resting(end)
  {
    var w1 := Next(w, DriverReturns);
    var w2 := Next(w1, Publish);
    var w3 := Next(w2, PollLoad);
    end := Next(w3, PollEnd);
    RunCons(w3, PollEnd, []);
    RunCons(w2, PollLoad, [PollEnd] + []);
    RunCons(w1, Publish, [PollLoad] + ([PollEnd] + []));
    RunCons(w, DriverReturns, [Publish] + ([PollLoad] + ([PollEnd] + [])));
    es := [DriverReturns] + ([Publish] + ([PollLoad] + ([PollEnd] + [])));
  }

  lemma {:induction false} SecondDropped(w: Worker, b: Bytes) returns (es: seq<Event>)
    requires Resting(w)
    ensures Run(w, es)
    ensures var end := End(w, es); Stranded(end) && end.task.Exited? && |end.accepted| == 2 && 2 !in end.handed
  {
    var w1 := Next(w, Submit(b));
    var w2 := Next(w1, GiveWake);
    var w3 := Next(w2, CloseStop);
    var w4 := Next(w3, CheckStop);
    RunCons(w3, CheckStop, []);
    RunCons(w2, CloseStop, [CheckStop] + []);
    RunCons(w1, GiveWake, [CloseStop] + ([CheckStop] + []));
    es := [Submit(b)] + ([GiveWake] + ([CloseStop] + ([CheckStop] + [])));
    RunCons(w, Submit(b), [GiveWake] + ([CloseStop] + ([CheckStop] + [])));
  }
}
