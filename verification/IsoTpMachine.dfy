/** The transport's two objects, updated in place call by call. Every method
    takes its object from one value of the model to the next. */
module IsoTpMachine {
  import opened Clock
  import opened Bytes
  import opened Numbers
  import opened IsoTp

  lemma {:induction false} OverlayNext(was: seq<Byte>, start: nat, data: seq<Byte>, i: nat)
    requires i < |data| && start + |data| <= |was|
    ensures Overlay(was, start, data[..i])[start + i := data[i]] == Overlay(was, start, data[..i + 1])
  {
  }

  lemma {:induction false} ObeyedValid(tx: Tx, f: Frame, now: Time)
    requires TxValid(tx) && tx.phase.TxFc?
    ensures TxValid(Obeyed(tx, f, now).tx)
  {
    hide ValidConfig, AtOrAfter, Later, StminUs, Low;
  }

  class Receiver {
    const config: Config
    const buffer: array?<Byte>
    const capacity: nat
    var phase: RxPhase
    var deadline: Time
    var total: nat
    var offset: nat
    var sequence: nat
    var blockCount: nat
    var flowStatus: nat
    var paddingError: bool

    ghost function View(): (rx: Rx)
      reads this, buffer
    {
      Rx(config, if buffer == null then NoStore else Store(buffer[..]), capacity, phase, deadline,
         total, offset, sequence, blockCount, flowStatus, paddingError)
    }

    ghost predicate Valid()
      reads this, buffer
    {
      RxValid(View())
    }

    constructor (config: Config, buffer: array?<Byte>, capacity: nat)
      requires ValidConfig(config)
      requires buffer != null ==> buffer.Length == capacity
      ensures Valid() && this.buffer == buffer
      ensures View() == RxInit(config, if buffer == null then NoStore else Store(buffer[..]), capacity)
    {
      this.config, this.buffer, this.capacity := config, buffer, capacity;
      phase, deadline, total, offset := RxIdle, 0, 0, 0;
      sequence, blockCount, flowStatus, paddingError := 0, 0, 0, false;
    }

    method CheckTimeout(now: Time) returns (rc: Rc)
      requires Valid()
      modifies this`phase
      ensures Valid() && RxOut(View(), rc) == RxCheckTimeout(old(View()), now)
    {
      if phase.RxIdle? || !AtOrAfter(now, deadline) {
        return Ignored;
      }
      rc := if phase.RxCf? then ErrTimeoutCr else ErrTimeoutA;
      phase := RxIdle;
    }

    /** `segment_copy`: the bytes go to the caller's buffer at the running offset. */
    method Copy(data: seq<Byte>)
      requires buffer != null ==> offset + |data| <= buffer.Length
      modifies this`offset, buffer
      ensures offset == old(offset) + |data|
      ensures buffer != null ==> buffer[..] == Overlay(old(buffer[..]), old(offset), data)
    {
      if buffer != null {
        var start, i := offset, 0;
        ghost var was := buffer[..];
        assert was == Overlay(was, start, data[..0]);
        while i < |data|
          invariant 0 <= i <= |data| && offset == start
          invariant buffer[..] == Overlay(was, start, data[..i])
        {
          OverlayNext(was, start, data, i);
          buffer[start + i] := data[i];
          i := i + 1;
        }
        assert data[..i] == data;
      }
      offset := offset + |data|;
    }

    method Feed(f: Frame, now: Time) returns (rc: Rc, s: Segment)
      requires Valid()
      modifies this, buffer
      ensures Valid() && RxFeedOut(View(), rc, s) == RxFeed(old(View()), f, now)
    {
      s := NO_SEGMENT;
      rc := CheckTimeout(now);
      if rc.Negative() {
        return;
      }
      if !Matches(config, f) {
        return Ignored, s;
      }
      var kind := High(f.data[Addr(config)]);
      if kind <= 1 {
        rc, s := Open(f, now);
      } else if kind != 2 || !phase.RxCf? {
        rc := Ignored;
      } else {
        rc, s := Continue(f, now);
      }
    }

    /** A single or first frame. */
    method Open(f: Frame, now: Time) returns (rc: Rc, s: Segment)
      requires Valid() && Matches(config, f) && High(f.data[Addr(config)]) <= 1
      modifies this, buffer
      ensures Valid() && RxFeedOut(View(), rc, s) == FeedOpening(old(View()), f, now)
    {
      hide Later, ValidConfig, AgreeOn, ValidId, Announced, Overlay, High;
      var a := Addr(config);
      var first := High(f.data[a]) == 1;
      var size := Announced(config, f);
      s := NO_SEGMENT;
      if size == 0 {
        return Ignored, s;
      }
      s := s.(replaced := !phase.RxIdle?);
      Reopen(size, f.dlc < 8);
      if size > capacity {
        if first {
          flowStatus, phase, deadline := 2, FcReady, Later(now, config.timeoutA);
        }
        return ErrOverflow, s;
      }
      var data := if first then f.data[a + 2..] else f.data[a + 1..a + 1 + size];
      s := s.(started := true, data := data, total := total, paddingError := paddingError);
      if first {
        AwaitFlow(now);
        Copy(data);
        return Handled, s;
      }
      Copy(data);
      return Complete, s.(complete := true);
    }

    /** A new message of this size, in place of whatever was going on. */
    method Reopen(size: nat, short: bool)
      modifies this`phase, this`offset, this`total, this`paddingError
      ensures View() == Opened(old(View()), size, short)
    {
      phase, offset, total, paddingError := RxIdle, 0, size, short;
    }

    /** A first frame has been accepted: a flow control is due. */
    method AwaitFlow(now: Time)
      modifies this`sequence, this`blockCount, this`flowStatus, this`phase, this`deadline
      ensures View() == old(View()).(sequence := 1, blockCount := 0, flowStatus := 0, phase := FcReady,
                                     deadline := Later(now, config.timeoutA))
    {
      hide Later;
      sequence, blockCount, flowStatus, phase := 1, 0, 0, FcReady;
      deadline := Later(now, config.timeoutA);
    }

    /** A consecutive frame while one is awaited. */
    method Continue(f: Frame, now: Time) returns (rc: Rc, s: Segment)
      requires Valid() && Matches(config, f) && phase.RxCf?
      modifies this, buffer
      ensures Valid() && RxFeedOut(View(), rc, s) == FeedConsecutive(old(View()), f, now)
    {
      hide Later, ValidConfig, AgreeOn, ValidId, Overlay, Low;
      var a := Addr(config);
      var size := Min(total - offset, 7 - a);
      s := NO_SEGMENT;
      if f.dlc < a + 1 + size {
        return Ignored, s;
      }
      if Low(f.data[a]) != sequence {
        phase := RxIdle;
        return ErrSequence, s;
      }
      ghost var was := View();
      paddingError := paddingError || f.dlc < 8;
      var data := f.data[a + 1..a + 1 + size];
      s := Segment(data, offset, total, false, offset + size == total, false, paddingError);
      Copy(data);
      hide RxValid;
      sequence := (sequence + 1) % 16;
      assert View() == was.(paddingError := paddingError, store := Stored(was.store, was.offset, data),
                            offset := was.offset + size, sequence := (was.sequence + 1) % 16);
      if offset == total {
        phase := RxIdle;
        return Complete, s;
      }
      CountBlock(now);
      return Handled, s;
    }

    method CountBlock(now: Time)
      modifies this`deadline, this`blockCount, this`phase
      ensures View() == BlockCounted(old(View()), now)
    {
      deadline := Later(now, config.timeoutCr);
      if config.blockSize != 0 {
        blockCount := (blockCount + 1) % 256;
        if blockCount == config.blockSize {
          blockCount, phase, deadline := 0, FcReady, Later(now, config.timeoutA);
        }
      }
    }

    method FlowControl(now: Time) returns (rc: Rc, frames: seq<Frame>)
      requires Valid()
      modifies this`phase, this`deadline
      ensures Valid() && RxFrameOut(View(), rc, frames) == RxFlowControl(old(View()), now)
    {
      rc := CheckTimeout(now);
      if rc.Negative() || !phase.FcReady? {
        return rc, [];
      }
      phase, deadline := FcConfirm, Later(now, config.timeoutA);
      return Handled, [FlowControlFrame(config, flowStatus)];
    }

    method Confirm(success: bool, now: Time) returns (rc: Rc)
      requires Valid()
      modifies this`phase, this`deadline
      ensures Valid() && RxOut(View(), rc) == RxConfirm(old(View()), success, now)
    {
      if !phase.FcConfirm? {
        return ErrArgument;
      }
      rc := CheckTimeout(now);
      if rc.Negative() {
        return;
      }
      if !success || flowStatus == 2 {
        phase := RxIdle;
        return if success then Ignored else ErrSend;
      }
      phase, deadline := RxCf, Later(now, config.timeoutCr);
    }
  }

  class Sender {
    const config: Config
    var payload: seq<Byte>
    var phase: TxPhase
    var deadline: Time
    var nextUs: Time
    var lastCf: Time
    var separation: nat
    var offset: nat
    var waitCount: nat
    var sequence: nat
    var blockSize: nat
    var blockCount: nat
    var sentCf: bool
    var pendingCf: bool
    var reservedStmin: bool
    var paddingError: bool

    ghost function View(): (tx: Tx)
      reads this
    {
      Tx(config, payload, phase, deadline, nextUs, lastCf, separation, offset, waitCount, sequence,
         blockSize, blockCount, sentCf, pendingCf, reservedStmin, paddingError)
    }

    ghost predicate Valid()
      reads this
    {
      TxValid(View())
    }

    constructor (config: Config)
      requires ValidConfig(config)
      ensures Valid() && View() == TxInit(config)
    {
      this.config, payload, phase, deadline, nextUs, lastCf := config, [], TxIdle, 0, 0, 0;
      separation, offset, waitCount, sequence, blockSize, blockCount := 0, 0, 0, 0, 0, 0;
      sentCf, pendingCf, reservedStmin, paddingError := false, false, false, false;
    }

    /** Counters and flags of a new transfer. */
    method Reset()
      modifies this`waitCount, this`blockCount, this`sentCf, this`reservedStmin, this`paddingError
      ensures View() == old(View()).(waitCount := 0, blockCount := 0, sentCf := false,
                                     reservedStmin := false, paddingError := false)
    {
      waitCount, blockCount := 0, 0;
      sentCf, reservedStmin, paddingError := false, false, false;
    }

    method Start(data: seq<Byte>, now: Time) returns (rc: Rc)
      requires Valid()
      modifies this
      ensures Valid() && TxOut(View(), rc) == TxStart(old(View()), data, now)
    {
      hide Later, ValidConfig;
      if |data| == 0 || |data| > MAX_PAYLOAD || (config.functional && |data| > 7 - Addr(config)) {
        return ErrArgument;
      }
      if !phase.TxIdle? {
        return ErrBusy;
      }
      Reset();
      payload, offset, sequence := data, 0, 1;
      phase, deadline := TxReady, Later(now, config.timeoutA);
      return Ignored;
    }

    method CheckTimeout(now: Time) returns (rc: Rc)
      requires Valid()
      modifies this`phase
      ensures Valid() && TxOut(View(), rc) == TxCheckTimeout(old(View()), now)
    {
      if phase.TxIdle? || phase.TxCf? || !AtOrAfter(now, deadline) {
        return Ignored;
      }
      rc := if phase.TxFc? then ErrTimeoutBs else ErrTimeoutA;
      phase := TxIdle;
    }

    method FlowControl(f: Frame, now: Time) returns (rc: Rc)
      requires Valid()
      modifies this
      ensures Valid() && TxOut(View(), rc) == TxFlowControl(old(View()), f, now)
    {
      hide AtOrAfter, IsFlowControl, Obeyed, TxValid;
      rc := CheckTimeout(now);
      if rc.Negative() {
        return;
      }
      if !phase.TxFc? || !IsFlowControl(config, f) {
        return Ignored;
      }
      rc := Obey(f, now);
    }

    /** Does what the awaited flow control says. */
    method Obey(f: Frame, now: Time) returns (rc: Rc)
      requires Valid() && phase.TxFc?
      modifies this
      ensures Valid() && TxOut(View(), rc) == Obeyed(old(View()), f, now)
    {
      hide Later, AtOrAfter, TxValid, StminUs, Low, ContinueToSend;
      ObeyedValid(View(), f, now);
      var a := Addr(config);
      var status := Low(f.data[a]);
      paddingError := paddingError || f.dlc < 8;
      if status == 0 {
        GoAhead(f.data[a + 1], f.data[a + 2], now);
        return Handled;
      }
      if status == 1 {
        rc := Wait(now);
        return;
      }
      phase := TxIdle;
      return if status == 2 then ErrOverflow else ErrFlowStatus;
    }

    method Wait(now: Time) returns (rc: Rc)
      modifies this`waitCount, this`deadline, this`phase
      ensures var was := old(View());
              if was.waitCount + 1 <= config.waitLimit
              then TxOut(View(), rc) == TxOut(was.(waitCount := was.waitCount + 1,
                                                   deadline := Later(now, config.timeoutBs)), Handled)
              else TxOut(View(), rc) == TxOut(was.(waitCount := was.waitCount + 1, phase := TxIdle), ErrWaitLimit)
    {
      hide Later;
      waitCount := waitCount + 1;
      if waitCount <= config.waitLimit {
        deadline := Later(now, config.timeoutBs);
        return Handled;
      }
      phase := TxIdle;
      return ErrWaitLimit;
    }

    /** The parameters of the flow control. */
    method SetPace(size: Byte, stmin: Byte)
      modifies this`blockSize, this`reservedStmin, this`separation
      ensures var was := old(View());
              var reserved := was.reservedStmin || Reserved(stmin);
              View() == was.(blockSize := size, reservedStmin := reserved,
                             separation := if reserved then RESERVED_STMIN_US else StminUs(stmin))
    {
      hide StminUs, Reserved;
      blockSize := size;
      reservedStmin := reservedStmin || Reserved(stmin);
      separation := if reservedStmin then RESERVED_STMIN_US else StminUs(stmin);
    }

    method GoAhead(size: Byte, stmin: Byte, now: Time)
      modifies this
      ensures View() == ContinueToSend(old(View()), size, stmin, now)
    {
      hide Later, AtOrAfter, StminUs, Reserved;
      SetPace(size, stmin);
      blockCount, waitCount := 0, 0;
      var paced := Later(lastCf, separation);
      nextUs := if sentCf && !AtOrAfter(now, paced) then paced else now;
      phase := TxCf;
    }

    method NextFrame(now: Time) returns (rc: Rc, frames: seq<Frame>)
      requires Valid()
      modifies this
      ensures Valid() && TxFrameOut(View(), rc, frames) == TxNext(old(View()), now)
    {
      hide Later, AtOrAfter, ValidConfig, DataFrame;
      rc := CheckTimeout(now);
      if rc.Negative() {
        return rc, [];
      }
      if !phase.TxReady? && !phase.TxCf? {
        return Ignored, [];
      }
      if phase.TxCf? && !AtOrAfter(now, nextUs) {
        return Ignored, [];
      }
      var f := DataFrame(config, payload, offset, sequence);
      Advance(now);
      return Handled, [f];
    }

    /** Past the frame just handed out. */
    method Advance(now: Time)
      requires offset <= |payload|
      modifies this`pendingCf, this`sequence, this`offset, this`phase, this`deadline
      ensures View() == Emitted(old(View()), now)
    {
      hide Later, SizeAt;
      pendingCf := offset != 0;
      if offset != 0 {
        sequence := (sequence + 1) % 16;
      }
      offset := offset + SizeAt(config, |payload|, offset);
      phase, deadline := TxConfirming, Later(now, config.timeoutA);
    }

    method CountFrame(now: Time)
      modifies this`sentCf, this`lastCf, this`blockCount
      ensures View() == Counted(old(View()), now)
    {
      if pendingCf {
        sentCf, lastCf, blockCount := true, now, (blockCount + 1) % 256;
      }
    }

    method Confirm(success: bool, now: Time) returns (rc: Rc)
      requires Valid()
      modifies this
      ensures Valid() && TxOut(View(), rc) == TxConfirm(old(View()), success, now)
    {
      hide Later, AtOrAfter, ValidConfig;
      if !phase.TxConfirming? {
        return ErrArgument;
      }
      rc := CheckTimeout(now);
      if rc.Negative() {
        return;
      }
      if !success {
        phase := TxIdle;
        return ErrSend;
      }
      if offset == |payload| {
        phase := TxIdle;
        return Complete;
      }
      CountFrame(now);
      if !pendingCf || (blockSize > 0 && blockCount == blockSize) {
        phase, deadline := TxFc, Later(now, config.timeoutBs);
      } else {
        phase, nextUs := TxCf, Later(now, separation);
      }
      return Ignored;
    }
  }
}
