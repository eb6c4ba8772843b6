/** Which requests reach the core, and how responses get back. */
module WireCalls {
  import opened Bytes
  import opened Wire
  import opened WireRuns

  // ---- Every call is a whole request ----

  /** A byte arrives, or two seconds pass. */
  datatype Input = In(b: Byte) | Gap

  /** Bytes `from` up to `to` of the input. */
  datatype Span = Span(from: nat, to: nat)

  /** All bytes that came in; the intact request fragments heard among them, and
      where; which of them make up the request being assembled; and which made
      up each call. */
  datatype History = History(s: State, bytes: seq<Byte>, heard: seq<Fragment>, spans: seq<Span>,
                             parts: seq<nat>, origins: seq<seq<nat>>)

  predicate IsRequest(f: Fragment) { f.flags == 0 || f.flags == MORE }

  /** The frame that this byte completes, if any. */
  function Completed(s: State, b: Byte): (fs: seq<seq<Byte>>)
    ensures |fs| <= 1 && forall i :: 0 <= i < |fs| ==> Whole(fs[i])
  {
    var frame := Resync(s.frame + [b]);
    if Whole(frame) then [frame] else []
  }

  lemma {:induction false} ByteCompletes(s: State, b: Byte, core: Core)
    requires LinkValid(s.link)
    ensures var r := TakeByte(s, b, core);
            var fs := Completed(s, b);
            if fs == [] then r == s.(frame := r.frame) else r == OnFrame(s, fs[0], core)
  {
    hide OnFrame, Announced;
  }

  function HeardOf(s: State, b: Byte): (fs: seq<Fragment>)
    ensures |fs| <= 1
  {
    var frames := Completed(s, b);
    if frames != [] && Intact(frames[0]) && IsRequest(Parse(frames[0])) then [Parse(frames[0])] else []
  }

  ghost function Listened(h: History, f: Fragment, s': State): (r: History) {
    var base := if f.offset == 0 then [] else h.parts;
    var parts := if Continues(Restarted(h.s.link, f), f) then base + [|h.heard|] else base;
    h.(s := s', heard := h.heard + [f], parts := parts,
       origins := if |s'.calls| > |h.s.calls| then h.origins + [parts] else h.origins)
  }

  /** The bytes that have just become a fragment are the last ones in. */
  ghost function Located(h: History, frame: seq<Byte>): (r: History)
    requires |frame| <= |h.bytes|
  {
    h.(spans := h.spans + [Span(|h.bytes| - |frame|, |h.bytes|)])
  }

  ghost function After(h: History, x: Input, core: Core): (r: History)
    requires LinkValid(h.s.link) && |h.s.frame| <= |h.bytes|
    ensures LinkValid(r.s.link) && |r.s.frame| <= |r.bytes|
  {
    match x
    case Gap => h.(s := h.s.(frame := [], link := h.s.link.(assembling := false)))
    case In(b) =>
      var s' := TakeByte(h.s, b, core);
      ByteCompletes(h.s, b, core);
      FrameBounded(h.s, b, core);
      var got := h.(bytes := h.bytes + [b]);
      if HeardOf(h.s, b) == [] then got.(s := s')
      else Located(Listened(got, HeardOf(h.s, b)[0], s'), Completed(h.s, b)[0])
  }

  lemma {:induction false} FrameBounded(s: State, b: Byte, core: Core)
    requires LinkValid(s.link)
    ensures |TakeByte(s, b, core).frame| <= |s.frame| + 1
    ensures Completed(s, b) != [] ==> |Completed(s, b)[0]| <= |s.frame| + 1
  {
    hide OnFrame, Announced;
  }

  const START := State([], Link([], [], 0, 0, false, false), [], [])

  ghost function AfterAll(xs: seq<Input>, core: Core): (h: History)
    ensures LinkValid(h.s.link) && |h.s.frame| <= |h.bytes|
  {
    if xs == [] then History(START, [], [], [], [], [])
    else After(AfterAll(xs[..|xs| - 1], core), xs[|xs| - 1], core)
  }

  // ---- What makes up a request ----

  ghost predicate InOrder(idx: seq<nat>, n: nat) {
    && (forall i :: 0 <= i < |idx| ==> idx[i] < n)
    && (forall i, j :: 0 <= i < j < |idx| ==> idx[i] < idx[j])
  }

  ghost function Picked(heard: seq<Fragment>, idx: seq<nat>): (ps: seq<Fragment>)
    requires InOrder(idx, |heard|)
    ensures |ps| == |idx| && forall i :: 0 <= i < |idx| ==> ps[i] == heard[idx[i]]
  {
    seq(|idx|, i requires 0 <= i < |idx| => heard[idx[i]])
  }

  function Joined(ps: seq<Fragment>): (b: seq<Byte>) {
    if ps == [] then [] else Joined(ps[..|ps| - 1]) + ps[|ps| - 1].data
  }

  /** Fragments of one request, each where the last one ended, and all but the
      last announcing more. */
  ghost predicate Pieces(ps: seq<Fragment>, op: Byte, sequence: Word) {
    forall i :: 0 <= i < |ps| ==>
      && ps[i].op == op && ps[i].sequence == sequence && ps[i].offset == |Joined(ps[..i])|
      && (i < |ps| - 1 ==> ps[i].flags == MORE)
  }

  lemma {:induction false} PiecesAppend(ps: seq<Fragment>, op: Byte, sequence: Word, f: Fragment)
    requires Pieces(ps, op, sequence) && f.op == op && f.sequence == sequence && f.offset == |Joined(ps)|
    requires ps != [] ==> ps[|ps| - 1].flags == MORE
    ensures Pieces(ps + [f], op, sequence) && Joined(ps + [f]) == Joined(ps) + f.data
  {
    var qs := ps + [f];
    assert qs[..|ps|] == ps;
    forall i | 0 <= i < |qs|
      ensures && qs[i].op == op && qs[i].sequence == sequence && qs[i].offset == |Joined(qs[..i])|
              && (i < |qs| - 1 ==> qs[i].flags == MORE)
    {
      if i < |ps| {
        assert qs[..i] == ps[..i];
      }
    }
  }

  /** No other request began after fragment `i`, up to `j`. */
  ghost predicate NoRestart(heard: seq<Fragment>, i: nat, j: int) {
    forall k :: i < k <= j && k < |heard| ==> heard[k].offset != 0
  }

  /** The fragments at `idx` are the consecutive fragments of request `bytes`,
      from offset 0 on. */
  ghost predicate MakesUp(heard: seq<Fragment>, idx: seq<nat>, op: Byte, sequence: Word, bytes: seq<Byte>) {
    && idx != [] && InOrder(idx, |heard|) && NoRestart(heard, idx[0], idx[|idx| - 1])
    && Pieces(Picked(heard, idx), op, sequence) && bytes == Joined(Picked(heard, idx))
  }

  /** The call has the whole of a request, up to the fragment that ends it. */
  ghost predicate CallOk(heard: seq<Fragment>, c: Call, idx: seq<nat>) {
    && idx != [] && idx[0] < |heard| && idx[|idx| - 1] < |heard|
    && MakesUp(heard, idx, c.op, heard[idx[0]].sequence, c.request)
    && heard[idx[0]].offset == 0 && heard[idx[|idx| - 1]].flags == 0
  }

  ghost predicate Assembling(heard: seq<Fragment>, parts: seq<nat>, l: Link) {
    && MakesUp(heard, parts, l.operation, l.sequence, l.request)
    && heard[parts[|parts| - 1]].flags == MORE
    && NoRestart(heard, parts[0], |heard| - 1)
  }

  ghost predicate CallsOk(heard: seq<Fragment>, calls: seq<Call>, origins: seq<seq<nat>>) {
    |origins| == |calls| && forall i :: 0 <= i < |calls| ==> CallOk(heard, calls[i], origins[i])
  }

  ghost predicate Inv(h: History) {
    && CallsOk(h.heard, h.s.calls, h.origins)
    && (h.s.link.assembling ==> Assembling(h.heard, h.parts, h.s.link))
  }

  /** Hearing more changes nothing about what is already together. */
  lemma {:induction false} MoreHeard(heard: seq<Fragment>, f: Fragment, idx: seq<nat>, op: Byte, sequence: Word,
                                     bytes: seq<Byte>)
    requires MakesUp(heard, idx, op, sequence, bytes)
    ensures MakesUp(heard + [f], idx, op, sequence, bytes)
  {
    assert Picked(heard + [f], idx) == Picked(heard, idx);
    forall k | idx[0] < k <= idx[|idx| - 1] && k < |heard + [f]| ensures (heard + [f])[k].offset != 0 {
      assert (heard + [f])[k] == heard[k];
    }
  }

  lemma {:induction false} CallsStay(heard: seq<Fragment>, f: Fragment, calls: seq<Call>, origins: seq<seq<nat>>)
    requires CallsOk(heard, calls, origins)
    ensures CallsOk(heard + [f], calls, origins)
  {
    hide MakesUp;
    forall i | 0 <= i < |calls| ensures CallOk(heard + [f], calls[i], origins[i]) {
      var c, idx := calls[i], origins[i];
      assert CallOk(heard, c, idx);
      MoreHeard(heard, f, idx, c.op, heard[idx[0]].sequence, c.request);
    }
  }

  /** The next fragment of a request in progress, or the first of a new one. */
  lemma {:induction false} PartTaken(heard: seq<Fragment>, parts: seq<nat>, l: Link, f: Fragment)
    requires f.offset != 0 ==> Assembling(heard, parts, l)
    requires f.offset == 0 ==> parts == []
    requires l.operation == f.op && l.sequence == f.sequence && |l.request| == f.offset
    ensures MakesUp(heard + [f], parts + [|heard|], f.op, f.sequence, l.request + f.data)
    ensures NoRestart(heard + [f], (parts + [|heard|])[0], |heard|)
    ensures heard + [f] != [] && (heard + [f])[(parts + [|heard|])[0]].offset == 0
  {
    hide Pieces, Joined, Picked;
    NoPieces(f.op, f.sequence);
    var ps := Picked(heard, parts);
    PickedAppend(heard, parts, f);
    if parts == [] {
      assert ps == [] && l.request == [];
    } else {
      FirstPiece(ps, f.op, f.sequence);
    }
    PiecesAppend(ps, f.op, f.sequence, f);
  }

  lemma {:induction false} NoPieces(op: Byte, sequence: Word)
    ensures Pieces([], op, sequence) && Joined([]) == []
  {
  }

  lemma {:induction false} FirstPiece(ps: seq<Fragment>, op: Byte, sequence: Word)
    requires Pieces(ps, op, sequence) && ps != []
    ensures ps[0].offset == 0
  {
    assert ps[0].offset == |Joined(ps[..0])|;
  }

  lemma {:induction false} PickedAppend(heard: seq<Fragment>, parts: seq<nat>, f: Fragment)
    requires InOrder(parts, |heard|)
    ensures InOrder(parts + [|heard|], |heard| + 1)
    ensures Picked(heard + [f], parts + [|heard|]) == Picked(heard, parts) + [f]
  {
  }

  lemma {:induction false} HeardKeeps(h: History, f: Fragment, reply: Reply, s': State)
    requires Inv(h) && LinkValid(h.s.link) && IsRequest(f)
    requires var e := Process(h.s.link, f, reply);
             s'.link == e.link && s'.calls == h.s.calls + e.calls
    ensures Inv(Listened(h, f, s'))
  {
    hide CallOk, MakesUp, ResponseAt;
    var l := Restarted(h.s.link, f);
    CallsStay(h.heard, f, h.s.calls, h.origins);
    if !Continues(l, f) {
      if l.assembling {
        IgnoredKeeps(h.heard, h.parts, l, f);
      }
    } else {
      var base := if f.offset == 0 then [] else h.parts;
      var parts := base + [|h.heard|];
      PartTaken(h.heard, base, l, f);
      assert (h.heard + [f])[parts[|parts| - 1]] == f;
      if |s'.calls| > |h.s.calls| {
        CallMade(h.heard + [f], parts, Call(f.op, l.request + f.data), f.sequence);
        assert h.s.calls + [Call(f.op, l.request + f.data)] == s'.calls;
      } else {
        assert s'.calls == h.s.calls;
      }
    }
  }

  lemma {:induction false} CallMade(heard: seq<Fragment>, parts: seq<nat>, c: Call, sequence: Word)
    requires MakesUp(heard, parts, c.op, sequence, c.request)
    requires heard[parts[0]].offset == 0 && heard[parts[|parts| - 1]].flags == 0
    ensures CallOk(heard, c, parts)
  {
    assert Picked(heard, parts)[0].sequence == sequence;
  }

  lemma {:induction false} IgnoredKeeps(heard: seq<Fragment>, parts: seq<nat>, l: Link, f: Fragment)
    requires Assembling(heard, parts, l) && f.offset != 0
    ensures Assembling(heard + [f], parts, l)
  {
    MoreHeard(heard, f, parts, l.operation, l.sequence, l.request);
  }

  lemma {:induction false} InputKeeps(h: History, x: Input, core: Core)
    requires Inv(h) && LinkValid(h.s.link) && |h.s.frame| <= |h.bytes|
    ensures Inv(After(h, x, core))
  {
    hide CallsOk, Assembling, TakeByte, HeardOf, Process, Listened;
    match x
    case Gap =>
    case In(b) =>
      var fs := HeardOf(h.s, b);
      if fs == [] {
        QuietByte(h.s, b, core);
      } else {
        HeardByte(h.s, b, core);
        var got := h.(bytes := h.bytes + [b]);
        HeardKeeps(got, fs[0], core(|h.s.calls|), TakeByte(h.s, b, core));
      }
  }

  lemma {:induction false} HeardByte(s: State, b: Byte, core: Core)
    requires LinkValid(s.link) && HeardOf(s, b) != []
    ensures var r, f := TakeByte(s, b, core), HeardOf(s, b)[0];
            var e := Process(s.link, f, core(|s.calls|));
            IsRequest(f) && r.link == e.link && r.calls == s.calls + e.calls
  {
    hide TakeByte, Process, Intact, Parse, Resync;
    ByteCompletes(s, b, core);
  }

  /** A byte that completes no request fragment leaves the assembly alone. */
  lemma {:induction false} QuietByte(s: State, b: Byte, core: Core)
    requires LinkValid(s.link) && HeardOf(s, b) == []
    ensures var r := TakeByte(s, b, core); r.link == s.link && r.calls == s.calls
  {
    hide Resync, Intact, Parse, ResponseAt;
    ByteCompletes(s, b, core);
    var fs := Completed(s, b);
    if fs != [] && Intact(fs[0]) {
      FetchIsQuiet(s.link, Parse(fs[0]), core(|s.calls|));
    }
  }

  lemma {:induction false} FetchIsQuiet(l: Link, f: Fragment, reply: Reply)
    requires LinkValid(l) && !IsRequest(f)
    ensures Process(l, f, reply).link == l && Process(l, f, reply).calls == []
  {
  }

  // ---- Where the fragments lie ----

  /** A stretch of the input that is an intact frame with these fields. */
  ghost predicate Lies(bytes: seq<Byte>, p: Span, f: Fragment) {
    && p.from < p.to <= |bytes| && Whole(bytes[p.from..p.to])
    && Intact(bytes[p.from..p.to]) && Parse(bytes[p.from..p.to]) == f
  }

  /** Every fragment heard is a contiguous stretch of the input, no byte belongs
      to two of them, and the frame begun lies behind them all. */
  ghost predicate SpansOk(bytes: seq<Byte>, frame: seq<Byte>, heard: seq<Fragment>, spans: seq<Span>) {
    && |spans| == |heard| && |frame| <= |bytes| && bytes[|bytes| - |frame|..] == frame
    && (forall i :: 0 <= i < |spans| ==> Lies(bytes, spans[i], heard[i]))
    && (forall i, j :: 0 <= i < j < |spans| ==> spans[i].to <= spans[j].from)
    && (forall i :: 0 <= i < |spans| ==> spans[i].to <= |bytes| - |frame|)
  }

  ghost predicate Spanned(h: History) { SpansOk(h.bytes, h.s.frame, h.heard, h.spans) }

  /** A byte comes in and a shorter or one byte longer frame is begun. */
  lemma {:induction false} SpansGrow(bytes: seq<Byte>, frame: seq<Byte>, heard: seq<Fragment>, spans: seq<Span>,
                                     b: Byte, frame': seq<Byte>)
    requires SpansOk(bytes, frame, heard, spans) && |frame'| <= |frame| + 1
    requires (bytes + [b])[|bytes| + 1 - |frame'|..] == frame'
    ensures SpansOk(bytes + [b], frame', heard, spans)
  {
    hide Lies;
    forall i | 0 <= i < |spans| ensures Lies(bytes + [b], spans[i], heard[i]) {
      LiesStill(bytes, b, spans[i], heard[i]);
    }
  }

  /** The frame begun has become a fragment. */
  lemma {:induction false} SpansAdd(bytes: seq<Byte>, frame: seq<Byte>, heard: seq<Fragment>, spans: seq<Span>,
                                    f: Fragment)
    requires SpansOk(bytes, frame, heard, spans)
    requires Lies(bytes, Span(|bytes| - |frame|, |bytes|), f)
    ensures SpansOk(bytes, [], heard + [f], spans + [Span(|bytes| - |frame|, |bytes|)])
  {
    hide Lies;
  }

  lemma {:induction false} LiesStill(bytes: seq<Byte>, b: Byte, p: Span, f: Fragment)
    requires Lies(bytes, p, f)
    ensures Lies(bytes + [b], p, f)
  {
    assert (bytes + [b])[p.from..p.to] == bytes[p.from..p.to];
  }

  /** What is left after resynchronising still ends the input. */
  lemma {:induction false} TailResyncs(bytes: seq<Byte>, frame: seq<Byte>, b: Byte)
    requires |frame| <= |bytes| && bytes[|bytes| - |frame|..] == frame
    ensures var r := Resync(frame + [b]);
            var more := bytes + [b];
            |r| <= |more| && more[|more| - |r|..] == r
  {
    hide Resync;
    ResyncIsSuffix(frame + [b]);
    var r, more := Resync(frame + [b]), bytes + [b];
    assert more[|more| - |frame| - 1..] == frame + [b];
    assert more[|more| - |r|..] == (frame + [b])[|frame| + 1 - |r|..];
  }

  lemma {:induction false} InputSpans(h: History, x: Input, core: Core)
    requires Spanned(h) && LinkValid(h.s.link)
    ensures |h.s.frame| <= |h.bytes| && Spanned(After(h, x, core))
  {
    match x
    case Gap => assert h.bytes[|h.bytes|..] == [];
    case In(b) => ByteSpans(h, b, core);
  }

  lemma {:induction false} SpansNext(bytes: seq<Byte>, frame: seq<Byte>, heard: seq<Fragment>, spans: seq<Span>,
                                     b: Byte, frame': seq<Byte>)
    requires SpansOk(bytes, frame, heard, spans) && (frame' == [] || frame' == Resync(frame + [b]))
    ensures SpansOk(bytes + [b], frame', heard, spans)
    ensures |frame'| <= |bytes + [b]| && (bytes + [b])[|bytes| + 1 - |frame'|..] == frame'
  {
    hide Resync, Lies;
    TailResyncs(bytes, frame, b);
    SpansGrow(bytes, frame, heard, spans, b, frame');
  }

  lemma {:induction false} ByteSpans(h: History, b: Byte, core: Core)
    requires Spanned(h) && LinkValid(h.s.link) && |h.s.frame| <= |h.bytes|
    ensures Spanned(After(h, In(b), core))
  {
    hide SpansOk, Lies, Listened, OnFrame, Process, Resync, Intact, Parse, TakeByte, HeardOf, Completed;
    var tail, more := Resync(h.s.frame + [b]), h.bytes + [b];
    FrameAfter(h.s, b, core);
    ListenedKeeps(h.(bytes := more), b, core);
    if HeardOf(h.s, b) == [] {
      SpansNext(h.bytes, h.s.frame, h.heard, h.spans, b, TakeByte(h.s, b, core).frame);
    } else {
      SpansNext(h.bytes, h.s.frame, h.heard, h.spans, b, tail);
      HeardLies(more, h.s, b);
      SpansAdd(more, tail, h.heard, h.spans, HeardOf(h.s, b)[0]);
    }
  }

  /** Nothing, or what resynchronising left. */
  lemma {:induction false} FrameAfter(s: State, b: Byte, core: Core)
    requires LinkValid(s.link)
    ensures var r := TakeByte(s, b, core).frame; r == [] || r == Resync(s.frame + [b])
    ensures Completed(s, b) != [] ==> Completed(s, b)[0] == Resync(s.frame + [b]) && TakeByte(s, b, core).frame == []
    ensures HeardOf(s, b) != [] ==> Completed(s, b) != []
  {
    hide Resync, Announced;
    ByteCompletes(s, b, core);
  }

  lemma {:induction false} HeardLies(bytes: seq<Byte>, s: State, b: Byte)
    requires HeardOf(s, b) != [] && Completed(s, b) != [] && |Completed(s, b)[0]| <= |bytes|
    requires bytes[|bytes| - |Completed(s, b)[0]|..] == Completed(s, b)[0]
    ensures Lies(bytes, Span(|bytes| - |Completed(s, b)[0]|, |bytes|), HeardOf(s, b)[0])
  {
    hide Resync, Intact, Parse;
    var frame := Completed(s, b)[0];
    assert bytes[|bytes| - |frame|..|bytes|] == frame;
  }

  lemma {:induction false} ListenedKeeps(h: History, b: Byte, core: Core)
    requires LinkValid(h.s.link)
    ensures HeardOf(h.s, b) != [] ==>
      var r := Listened(h, HeardOf(h.s, b)[0], TakeByte(h.s, b, core));
      && r.s == TakeByte(h.s, b, core) && r.bytes == h.bytes && r.spans == h.spans
      && r.heard == h.heard + [HeardOf(h.s, b)[0]]
  {
    hide TakeByte, HeardOf;
  }

  lemma {:induction false} AllInputsKeep(xs: seq<Input>, core: Core)
    ensures Inv(AfterAll(xs, core)) && Spanned(AfterAll(xs, core))
  {
    hide After, Inv, Spanned;
    if xs == [] {
      StartInv();
    } else {
      AllInputsKeep(xs[..|xs| - 1], core);
      InputKeeps(AfterAll(xs[..|xs| - 1], core), xs[|xs| - 1], core);
      InputSpans(AfterAll(xs[..|xs| - 1], core), xs[|xs| - 1], core);
    }
  }

  lemma {:induction false} StartInv()
    ensures Inv(History(START, [], [], [], [], [])) && Spanned(History(START, [], [], [], [], []))
  {
  }

  /** For every byte stream, with any gaps: each request that reached the core
      is the exact concatenation of intact fragments, every one a stretch of the
      input that shares no byte with another, with one sequence number and
      operation, each beginning where the one before ended, the first at
      offset 0 and only the last without MORE, with no other request begun in
      between. */
  lemma {:induction false} CoreSeesWholeRequests(xs: seq<Input>, core: Core, i: nat)
    requires i < |AfterAll(xs, core).s.calls|
    ensures var h := AfterAll(xs, core);
            |h.origins| == |h.s.calls| && CallOk(h.heard, h.s.calls[i], h.origins[i]) && Spanned(h)
  {
    AllInputsKeep(xs, core);
  }
}
