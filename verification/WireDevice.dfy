/** The device's end of the link: fixed buffers, updated byte by byte. */
module WireDevice {
  import opened Clock
  import opened Bytes
  import opened Wire

  /** What a frame does does not depend on what else the buffer held. */
  lemma {:induction false} FrameAside(s: State, b: seq<Byte>, core: Core)
    requires LinkValid(s.link) && Whole(b)
    ensures OnFrame(s.(frame := b), b, core) == OnFrame(s, b, core)
  {
  }

  class Device {
    const frame: array<Byte>
    const request: array<Byte>
    const response: array<Byte>
    var frameUsed: nat
    var requestLen: nat
    var responseLen: nat
    var sequence: Word
    var lastInput: Time
    var operation: Byte
    var assembling: bool
    var ready: bool
    // the world outside: frames written to the link, requests handed to the core
    var sent: seq<Fragment>
    var calls: seq<Call>

    ghost predicate Shaped()
      reads this
    {
      && frame.Length == FRAME_MAX && request.Length == RPC_MAX && response.Length == RPC_MAX
      && frame != request && request != response && frame != response
      && frameUsed <= FRAME_MAX && requestLen <= RPC_MAX && responseLen <= RPC_MAX
    }

    ghost function LinkView(): (l: Link)
      requires Shaped()
      reads this, request, response
      ensures LinkValid(l)
    {
      Link(request[..requestLen], response[..responseLen], sequence, operation, assembling, ready)
    }

    ghost function View(): (s: State)
      requires Shaped()
      reads this, frame, request, response
      ensures LinkValid(s.link)
    {
      State(frame[..frameUsed], LinkView(), sent, calls)
    }

    ghost predicate Valid()
      reads this, frame, request, response
    {
      Shaped() && StateValid(View())
    }

    constructor ()
      ensures Valid() && View() == State([], Link([], [], 0, 0, false, false), [], []) && lastInput == 0
      ensures fresh(frame) && fresh(request) && fresh(response)
    {
      frame := new Byte[FRAME_MAX](_ => 0);
      request := new Byte[RPC_MAX](_ => 0);
      response := new Byte[RPC_MAX](_ => 0);
      frameUsed, requestLen, responseLen, sequence, lastInput, operation := 0, 0, 0, 0, 0, 0;
      assembling, ready, sent, calls := false, false, [], [];
    }

    /** The resync loop: drops bytes from the front until what is left agrees
        with the magic. */
    method Align()
      requires Shaped()
      modifies this`frameUsed, frame
      ensures Shaped() && frame[..frameUsed] == Resync(old(frame[..frameUsed]))
    {
      hide Agrees;
      while frameUsed > 0 && !Agrees(frame[..frameUsed])
        invariant Shaped()
        invariant Resync(frame[..frameUsed]) == Resync(old(frame[..frameUsed]))
      {
        ghost var was := frame[..frameUsed];
        frameUsed := frameUsed - 1;
        forall i | 0 <= i < frameUsed {
          frame[i] := frame[i + 1];
        }
        assert frame[..frameUsed] == was[1..];
      }
    }

    /** `send_fragment`. */
    method SendFragment(flags: nat, offset: nat, data: seq<Byte>)
      requires flags < 0x80 && offset < 0x1_0000 && |data| <= FRAGMENT_MAX
      modifies this`sent
      ensures sent == old(sent) + [Fragment(operation, RESPONSE + flags, sequence, offset, data)]
    {
      sent := sent + [Fragment(operation, RESPONSE + flags, sequence, offset, data)];
    }

    /** `send_response_fragment`. */
    method SendResponse(offset: nat)
      requires Shaped()
      modifies this`sent
      ensures Shaped() && sent == old(sent) + ResponseAt(LinkView(), offset)
    {
      if offset > responseLen {
        return;
      }
      var len := responseLen - offset;
      if len > FRAGMENT_MAX {
        len := FRAGMENT_MAX;
      }
      assert response[offset..offset + len] == response[..responseLen][offset..offset + len];
      SendFragment(if offset + len < responseLen then MORE else 0, offset, response[offset..offset + len]);
    }

    /** Stores a response and offers its first fragment. */
    method Respond(data: Reply)
      requires Shaped()
      modifies this`assembling, this`ready, this`responseLen, this`sent, response
      ensures Shaped() && LinkView() == Responding(old(LinkView()), data)
      ensures sent == old(sent) + ResponseAt(LinkView(), 0)
    {
      hide ResponseAt;
      assembling := false;
      forall i | 0 <= i < |data| {
        response[i] := data[i];
      }
      responseLen := |data|;
      ready := true;
      assert response[..responseLen] == data;
      SendResponse(0);
    }

    /** `memcpy` behind the bytes assembled so far. */
    method Append(data: seq<Byte>)
      requires Shaped() && |data| <= RPC_MAX - requestLen
      modifies this`requestLen, request
      ensures Shaped() && LinkView() == old(LinkView()).(request := old(LinkView()).request + data)
    {
      ghost var was := request[..requestLen];
      forall i | 0 <= i < |data| {
        request[requestLen + i] := data[i];
      }
      requestLen := requestLen + |data|;
      assert request[..requestLen] == was + data;
    }

    method Restart(f: Fragment)
      requires Shaped()
      modifies this`requestLen, this`sequence, this`operation, this`assembling, this`ready
      ensures Shaped() && LinkView() == Restarted(old(LinkView()), f)
    {
      if f.offset == 0 {
        requestLen, sequence, operation := 0, f.sequence, f.op;
        assembling, ready := true, false;
      }
    }

    /** `process_frame` past its CRC check. */
    method Act(f: Fragment, core: Core)
      requires Shaped()
      modifies this`requestLen, this`responseLen, this`sequence, this`operation, this`assembling, this`ready,
               this`sent, this`calls, request, response
      ensures Shaped()
      ensures var e := Process(old(LinkView()), f, core(|old(calls)|));
              LinkView() == e.link && sent == old(sent) + e.sent && calls == old(calls) + e.calls
    {
      hide ResponseAt;
      if f.flags == FETCH {
        if |f.data| == 0 && ready && f.sequence == sequence && f.op == operation {
          SendResponse(f.offset);
        }
        return;
      }
      if f.flags != 0 && f.flags != MORE {
        return;
      }
      Restart(f);
      if !assembling || f.sequence != sequence || f.op != operation || f.offset != requestLen {
        return;
      }
      if |f.data| > RPC_MAX - requestLen || (f.flags == MORE && |f.data| == 0) {
        Respond(REJECTED);
        return;
      }
      Append(f.data);
      if f.flags == MORE {
        SendFragment(ACK, requestLen, []);
        return;
      }
      var reply := core(|calls|);
      calls := calls + [Call(operation, request[..requestLen])];
      Respond(reply);
    }

    /** One byte of the loop in `feed`. */
    method TakeOne(b: Byte, core: Core)
      requires Valid()
      modifies this, frame, request, response
      ensures Valid() && View() == TakeByte(old(View()), b, core) && lastInput == old(lastInput)
    {
      hide OnFrame, Resync, Agrees, Get16;
      ByteKeeps(View(), b, core);
      ghost var was := View();
      ghost var pushed := was.frame + [b];
      frame[frameUsed] := b;
      frameUsed := frameUsed + 1;
      assert frame[..frameUsed] == pushed;
      Align();
      assert LinkView() == was.link;
      if frameUsed < HEADER_SIZE {
        return;
      }
      ghost var held := frame[..frameUsed];
      var len := Get16(frame[14..16]);
      assert held[14..16] == frame[14..16];
      if frame[4] != VERSION || len > FRAGMENT_MAX {
        frameUsed := 0;
        return;
      }
      if frameUsed == HEADER_SIZE + len + CRC_SIZE {
        FrameAside(was, held, core);
        Judge(core);
      }
    }

    /** A whole frame is acted on if it is intact, and the buffer is free again. */
    method Judge(core: Core)
      requires Shaped() && Whole(frame[..frameUsed])
      modifies this`requestLen, this`responseLen, this`sequence, this`operation, this`assembling, this`ready,
               this`sent, this`calls, this`frameUsed, request, response
      ensures Shaped() && View() == OnFrame(old(View()), old(frame[..frameUsed]), core)
    {
      hide Process, Agrees, Crc32, Get16, Get32;
      var bytes := frame[..frameUsed];
      var end := HEADER_SIZE + Announced(bytes);
      var crc := ComputeCrc32(bytes[MAGIC_SIZE..end]);
      if Get32(bytes[end..end + CRC_SIZE]) == crc {
        Act(Parse(bytes), core);
      }
      frameUsed := 0;
    }

    /** `feed`: whatever the bytes, no index leaves the buffers. */
    method Feed(data: seq<Byte>, now: Time, core: Core)
      requires Valid()
      modifies this, frame, request, response
      ensures Valid() && lastInput == now
      ensures View() == FeedAll(Timed(old(View()), old(lastInput), now), data, core)
    {
      hide TakeByte;
      if Reading(now - lastInput) > TIMEOUT_US {
        frameUsed := 0;
        assembling := false;
      }
      lastInput := now;
      ghost var start := View();
      assert start == Timed(old(View()), old(lastInput), now);
      for i := 0 to |data|
        invariant Valid() && lastInput == now
        invariant View() == FeedAll(start, data[..i], core)
      {
        TakeOne(data[i], core);
        assert data[..i + 1][..i] == data[..i];
      }
      assert data[..|data|] == data;
    }
  }
}
