/** A host's side of the exchange: a request sent in pieces through a noisy
    stream, and the response fetched until nothing more is announced. */
module WireRpc {
  import opened Bytes
  import opened Wire
  import opened WireRuns

  function Flat(pieces: seq<seq<Byte>>): (b: seq<Byte>) {
    if pieces == [] then [] else Flat(pieces[..|pieces| - 1]) + pieces[|pieces| - 1]
  }

  /** Any cut of a request: pieces that fit a frame, none empty but the last. */
  ghost predicate Cut(pieces: seq<seq<Byte>>) {
    && pieces != [] && |Flat(pieces)| <= RPC_MAX
    && (forall i :: 0 <= i < |pieces| ==> |pieces[i]| <= FRAGMENT_MAX)
    && (forall i :: 0 <= i < |pieces| - 1 ==> pieces[i] != [])
  }

  lemma {:induction false} FlatGrows(pieces: seq<seq<Byte>>, i: nat)
    requires i < |pieces|
    ensures Flat(pieces[..i + 1]) == Flat(pieces[..i]) + pieces[i]
    ensures |Flat(pieces[..i + 1])| <= |Flat(pieces)|
    decreases |pieces| - i
  {
    assert pieces[..i + 1][..i] == pieces[..i];
    if i + 1 < |pieces| {
      FlatGrows(pieces, i + 1);
    } else {
      assert pieces[..i + 1] == pieces;
    }
  }

  /** Piece `i` as a request fragment. */
  ghost function RequestPart(op: Byte, sequence: Word, pieces: seq<seq<Byte>>, i: nat): (f: Fragment)
    requires Cut(pieces) && i < |pieces|
    ensures FragmentOk(f)
  {
    FlatGrows(pieces, i);
    Fragment(op, if i < |pieces| - 1 then MORE else 0, sequence, |Flat(pieces[..i])|, pieces[i])
  }

  /** The stream carries these pieces, each behind some noise. */
  ghost predicate Carries(us: seq<Burst>, op: Byte, sequence: Word, pieces: seq<seq<Byte>>)
    requires Cut(pieces)
  {
    && |us| == |pieces| && AllClean(us)
    && forall i :: 0 <= i < |us| ==> us[i].frame == Framed(RequestPart(op, sequence, pieces, i))
  }

  /** With `i` pieces in and more to come. */
  ghost predicate Underway(s: State, r: State, op: Byte, sequence: Word, bytes: seq<Byte>) {
    && r.link == s.link.(request := bytes, sequence := sequence, operation := op, assembling := true, ready := false)
    && r.calls == s.calls && r.frame == []
  }

  lemma {:induction false} PartProcessed(l: Link, f: Fragment, reply: Reply, op: Byte, sequence: Word, done: seq<Byte>)
    requires LinkValid(l) && f.op == op && f.sequence == sequence && f.offset == |done|
    requires (f.flags == 0 || f.flags == MORE)
    requires |done + f.data| <= RPC_MAX && (f.flags == MORE ==> f.data != [])
    requires done != [] ==>
      l.request == done && l.sequence == sequence && l.operation == op && l.assembling && !l.ready
    ensures var e := Process(l, f, reply);
            var begun := l.(request := done + f.data, sequence := sequence, operation := op,
                            assembling := true, ready := false);
            if f.flags == MORE then
              e.link == begun && e.calls == []
              && e.sent == [Fragment(op, RESPONSE + ACK, sequence, |done + f.data|, [])]
            else
              e.link == Responding(begun, reply) && e.calls == [Call(op, done + f.data)]
              && e.sent == ResponseAt(e.link, 0)
  {
    hide ResponseAt;
    assert done == [] ==> done + f.data == [] + f.data;
  }

  /** Every piece but the last is acknowledged and kept. */
  lemma {:induction false} PiecesTaken(s: State, us: seq<Burst>, op: Byte, sequence: Word,
                                       pieces: seq<seq<Byte>>, i: nat, core: Core)
    requires LinkValid(s.link) && s.frame == [] && Cut(pieces) && Carries(us, op, sequence, pieces)
    requires 0 < i < |pieces|
    ensures AllClean(us[..i]) && Underway(s, OnFrames(s, us[..i], core), op, sequence, Flat(pieces[..i]))
  {
    hide OnFrame, Framed, Whole, RequestPart, Flat, HasMagic;
    var n := i - 1;
    assert us[..i][..n] == us[..n];
    if n > 0 {
      PiecesTaken(s, us, op, sequence, pieces, n, core);
    } else {
      assert OnFrames(s, us[..0], core) == s;
    }
    PieceTaken(s, OnFrames(s, us[..n], core), us[n].frame, op, sequence, pieces, n, core);
  }

  lemma {:induction false} PieceTaken(s: State, r: State, frame: seq<Byte>, op: Byte, sequence: Word,
                                      pieces: seq<seq<Byte>>, n: nat, core: Core)
    requires LinkValid(s.link) && Cut(pieces) && n < |pieces| && LinkValid(r.link)
    requires frame == Framed(RequestPart(op, sequence, pieces, n))
    requires if n == 0 then r == s && s.frame == [] else Underway(s, r, op, sequence, Flat(pieces[..n]))
    ensures Whole(frame)
    ensures n < |pieces| - 1 ==> Underway(s, OnFrame(r, frame, core), op, sequence, Flat(pieces[..n + 1]))
    ensures n == |pieces| - 1 ==> Answered(s, OnFrame(r, frame, core), op, sequence, Flat(pieces), core)
  {
    hide Process, Whole, Intact, Parse, Framed;
    var f := RequestPart(op, sequence, pieces, n);
    FramedParses(f);
    FlatGrows(pieces, n);
    var done := Flat(pieces[..n]);
    if n == 0 {
      assert done == [];
    } else {
      SomeFlat(pieces, n);
    }
    PartProcessed(r.link, f, core(|r.calls|), op, sequence, done);
    assert pieces[..|pieces|] == pieces;
  }

  lemma {:induction false} SomeFlat(pieces: seq<seq<Byte>>, n: nat)
    requires Cut(pieces) && 0 < n < |pieces|
    ensures Flat(pieces[..n]) != []
  {
    FlatGrows(pieces, n - 1);
  }

  /** The core has been asked, once, and its answer is ready. */
  ghost predicate Answered(s: State, r: State, op: Byte, sequence: Word, request: seq<Byte>, core: Core) {
    && r.calls == s.calls + [Call(op, request)] && r.frame == []
    && r.link == Link(request, core(|s.calls|), sequence, op, false, true)
    && LinkValid(r.link) && r.sent != [] && ResponseAt(r.link, 0) == [r.sent[|r.sent| - 1]]
  }

  /** However the request is cut, and whatever noise is around its frames, the
      core is asked exactly once and for exactly that request. */
  lemma {:induction false} RequestDelivered(s: State, us: seq<Burst>, op: Byte, sequence: Word,
                                            pieces: seq<seq<Byte>>, core: Core)
    requires LinkValid(s.link) && s.frame == [] && Cut(pieces) && Carries(us, op, sequence, pieces)
    ensures Answered(s, FeedAll(s, BytesOf(us), core), op, sequence, Flat(pieces), core)
  {
    EveryFrameOnce(s, us, core);
    var n := |pieces| - 1;
    if n > 0 {
      PiecesTaken(s, us, op, sequence, pieces, n, core);
    } else {
      assert OnFrames(s, us[..0], core) == s;
    }
    PieceTaken(s, OnFrames(s, us[..n], core), us[n].frame, op, sequence, pieces, n, core);
  }

  // ---- Fetching ----

  ghost function FetchAt(l: Link, offset: nat): (f: Fragment) {
    Fragment(l.operation, FETCH, l.sequence, offset, [])
  }

  /** A fetch is answered from the response, and changes nothing else. */
  lemma {:induction false} FetchAnswered(s: State, offset: nat, core: Core)
    requires LinkValid(s.link) && s.link.ready && offset <= |s.link.response|
    ensures Whole(Framed(FetchAt(s.link, offset)))
    ensures OnFrame(s, Framed(FetchAt(s.link, offset)), core)
         == State([], s.link, s.sent + ResponseAt(s.link, offset), s.calls)
  {
    hide Framed, Whole, Intact, Parse, ResponseAt;
    FramedParses(FetchAt(s.link, offset));
    assert s.calls + [] == s.calls;
  }

  /** The host has `got` and the last fragment said whether there is more: it
      fetches from there until one says there is not. */
  ghost function Fetched(s: State, got: seq<Byte>, more: bool, core: Core): (r: seq<Byte>)
    requires LinkValid(s.link) && s.link.ready
    requires |got| <= |s.link.response| && got == s.link.response[..|got|]
    requires more <==> |got| < |s.link.response|
    ensures r == s.link.response
    decreases |s.link.response| - |got|
  {
    if !more then got
    else
      FetchAnswered(s, |got|, core);
      var s' := OnFrame(s, Framed(FetchAt(s.link, |got|)), core);
      var reply := s'.sent[|s'.sent| - 1];
      Fetched(s', got + reply.data, reply.flags == RESPONSE + MORE, core)
  }

  /** A whole remote call: the host sends the request in any pieces through any
      noise without the magic in it, takes the first fragment of the response
      and fetches the rest. The core has then been asked once, for exactly that
      request, and the host holds exactly the core's answer. */
  lemma {:induction false} RpcRoundTrip(s: State, us: seq<Burst>, op: Byte, sequence: Word, pieces: seq<seq<Byte>>,
                                        core: Core)
    requires LinkValid(s.link) && s.frame == [] && Cut(pieces) && Carries(us, op, sequence, pieces)
    ensures var r := FeedAll(s, BytesOf(us), core);
            && r.calls == s.calls + [Call(op, Flat(pieces))] && r.sent != []
            && var first := r.sent[|r.sent| - 1];
            && r.link.ready && |first.data| <= |r.link.response|
            && first.data == r.link.response[..|first.data|]
            && (first.flags == RESPONSE + MORE <==> |first.data| < |r.link.response|)
            && Fetched(r, first.data, first.flags == RESPONSE + MORE, core) == core(|s.calls|)
  {
    hide FeedAll, Fetched, BytesOf, Flat, Cut, Carries, ResponseAt;
    RequestDelivered(s, us, op, sequence, pieces, core);
    var r := FeedAll(s, BytesOf(us), core);
    FirstFragment(r.link, r.sent[|r.sent| - 1]);
  }

  lemma {:induction false} FirstFragment(l: Link, f: Fragment)
    requires LinkValid(l) && ResponseAt(l, 0) == [f]
    ensures |f.data| <= |l.response| && f.data == l.response[..|f.data|]
    ensures f.flags == RESPONSE + MORE <==> |f.data| < |l.response|
  {
  }
}
