/** Streams of well-formed messages, and the requests that make them. */
module KLineStreams {
  import opened Bytes
  import opened KLine

  // ---- Deframing ----

  /** The message announces its own length. */
  predicate WellFormed(m: seq<Byte>) { m != [] && MsgLen(m) == |m| }

  function Joined(ms: seq<seq<Byte>>): (b: seq<Byte>) {
    if ms == [] then [] else Joined(ms[..|ms| - 1]) + ms[|ms| - 1]
  }

  /** The messages that the receiver lets through. */
  function Accepted(c: Setup, ms: seq<seq<Byte>>): (r: seq<seq<Byte>>) {
    if ms == [] then []
    else
      var m := ms[|ms| - 1];
      Accepted(c, ms[..|ms| - 1]) + if c.checksumRx && !FrameOk(m) then [] else [m]
  }

  ghost predicate AllIn(es: seq<Event>) { forall i :: 0 <= i < |es| ==> es[i].In? }

  lemma {:induction false} StreamAt(es: seq<Event>, n: nat)
    requires AllIn(es) && n <= |es|
    ensures |Stream(es)| == |es| && Stream(es[..n]) == Stream(es)[..n]
    ensures n < |es| ==> Stream(es)[n] == es[n].b
  {
    if es != [] {
      var k := |es| - 1;
      if n <= k {
        StreamAt(es[..k], n);
        assert es[..k][..n] == es[..n];
      } else {
        StreamAt(es[..k], k);
        assert es[..n] == es;
      }
    }
  }

  /** No proper beginning of a message looks like a whole one. */
  lemma {:induction false} PrefixWaits(c: Setup, m: seq<Byte>, k: nat)
    requires c.mode.Iso14230? && WellFormed(m) && 0 < k < |m|
    ensures Judged(c, m[..k], false).Wait? && |m| <= MAX_MSG
  {
    MsgLenStable(m, []);
    assert m[..k] + m[k..] == m;
    if MsgLen(m[..k]) != 0 {
      MsgLenStable(m[..k], m[k..]);
    }
  }

  /** A whole one is judged at once. */
  lemma {:induction false} WholeEnds(c: Setup, m: seq<Byte>)
    requires c.mode.Iso14230? && WellFormed(m)
    ensures Judged(c, m, false) == if c.checksumRx && !FrameOk(m) then Refuse else Deliver(false)
  {
  }

  /** With `k` bytes of `m` in, behind whole messages. */
  ghost predicate PartWay(r: Run, m: seq<Byte>, k: nat, out: seq<seq<Byte>>)
    requires k <= |m|
  {
    r.a.buf == m[..k] && Datas(r.out) == out
  }

  lemma {:induction false} ByteGathers(c: Setup, r: Run, m: seq<Byte>, k: nat, e: Event, out: seq<seq<Byte>>)
    requires c.mode.Iso14230? && WellFormed(m) && k < |m| && PartWay(r, m, k, out) && |r.a.buf| <= MAX_MSG
    requires e.In? && e.b == m[k]
    ensures k + 1 < |m| ==> PartWay(Step(c, r, e), m, k + 1, out)
    ensures k + 1 == |m| ==>
      && Step(c, r, e).a.buf == []
      && Datas(Step(c, r, e).out) == out + if c.checksumRx && !FrameOk(m) then [] else [m]
  {
    hide Judged, FrameOk, MsgLen;
    MsgLenStable(m, []);
    var a := Pushed(r.a, e.b, e.now);
    assert a.buf == m[..k + 1];
    assert r.out + [] == r.out;
    if k + 1 < |m| {
      PrefixWaits(c, m, k + 1);
    } else {
      assert m[..k + 1] == m;
      WholeEnds(c, m);
      var got := Message(m, false, a.start, a.last);
      assert (r.out + [got])[..|r.out|] == r.out;
    }
  }

  lemma {:induction false} MessageGathers(c: Setup, es: seq<Event>, n: nat, m: seq<Byte>, k: nat, out: seq<seq<Byte>>)
    requires c.mode.Iso14230? && WellFormed(m) && AllIn(es) && n + |m| <= |es| && k < |m|
    requires PartWay(RunAll(c, es[..n]), m, 0, out)
    requires forall i :: 0 <= i < |m| ==> es[n + i].In? && es[n + i].b == m[i]
    ensures PartWay(RunAll(c, es[..n + k]), m, k, out)
  {
    hide Step, WellFormed;
    if k > 0 {
      MessageGathers(c, es, n, m, k - 1, out);
      assert es[..n + k][..n + k - 1] == es[..n + k - 1];
      assert es[n + (k - 1)].b == m[k - 1];
      ByteGathers(c, RunAll(c, es[..n + k - 1]), m, k - 1, es[n + k - 1], out);
    }
  }

  /** Any concatenation of well-formed messages, fed byte by byte: out come
      exactly these messages, whole and in order, less those whose checksum is
      wrong when checksums are checked; and nothing is left behind. */
  lemma {:induction false} Deframes(c: Setup, ms: seq<seq<Byte>>, es: seq<Event>)
    requires c.mode.Iso14230? && AllIn(es) && Stream(es) == Joined(ms)
    requires forall i :: 0 <= i < |ms| ==> WellFormed(ms[i])
    ensures RunAll(c, es).a.buf == [] && Datas(RunAll(c, es).out) == Accepted(c, ms)
  {
    hide Step, WellFormed, FrameOk;
    StreamAt(es, |es|);
    if ms == [] {
      assert es == [];
    } else {
      var m, rest := ms[|ms| - 1], ms[..|ms| - 1];
      var n := |Joined(rest)|;
      StreamAt(es, n);
      assert Joined(ms)[..n] == Joined(rest);
      Deframes(c, rest, es[..n]);
      assert Joined(ms)[n..] == m;
      BytesAt(es, n, m);
      assert m != [] by { NotEmpty(m); }
      LastMessage(c, es, n, m, Accepted(c, rest));
    }
  }

  lemma {:induction false} BytesAt(es: seq<Event>, n: nat, m: seq<Byte>)
    requires AllIn(es) && n <= |Stream(es)| == |es| && Stream(es)[n..] == m
    ensures forall i :: 0 <= i < |m| ==> es[n + i].In? && es[n + i].b == m[i]
  {
    forall i | 0 <= i < |m| ensures es[n + i].In? && es[n + i].b == m[i] {
      StreamAt(es, n + i);
    }
  }

  lemma {:induction false} NotEmpty(m: seq<Byte>)
    requires WellFormed(m)
    ensures m != []
  {
  }

  lemma {:induction false} LastMessage(c: Setup, es: seq<Event>, n: nat, m: seq<Byte>, out: seq<seq<Byte>>)
    requires c.mode.Iso14230? && WellFormed(m) && m != [] && AllIn(es) && n + |m| == |es|
    requires RunAll(c, es[..n]).a.buf == [] && Datas(RunAll(c, es[..n]).out) == out
    requires forall i :: 0 <= i < |m| ==> es[n + i].In? && es[n + i].b == m[i]
    ensures RunAll(c, es).a.buf == []
    ensures Datas(RunAll(c, es).out) == out + if c.checksumRx && !FrameOk(m) then [] else [m]
  {
    hide Step, FrameOk, WellFormed, Datas;
    var k := |m| - 1;
    assert m[..0] == [];
    MessageGathers(c, es, n, m, k, out);
    assert es[..n + k] == es[..|es| - 1];
    assert es[n + k].b == m[k];
    ByteGathers(c, RunAll(c, es[..n + k]), m, k, es[n + k], out);
  }

  // ---- Requests ----

  function Fmt(id: Word): (b: Byte) { id / 0x1_0000 % 256 }
  function Target(id: Word): (b: Byte) { id / 256 % 256 }
  function Source(id: Word): (b: Byte) { id % 256 }

  /** `elm327_build_bus_request`; an empty result stands for 0. */
  function BuildRequest(kwp: bool, id: Word, data: seq<Byte>, cap: nat): (out: seq<Byte>) {
    if |data| == 0 || |data| > 0x3F then []
    else if !kwp then
      if |data| + 3 > cap then [] else [Fmt(id), Target(id), Source(id)] + data
    else if |data| + 4 > cap then []
    else if Fmt(id) % 64 != 0 then
      [Fmt(id) / 64 * 64 + |data|, Target(id), Source(id)] + data
    else
      [Fmt(id), Target(id), Source(id), |data|] + data
  }

  /** `frame_for_tx`. */
  function ForTx(add: bool, data: seq<Byte>): (out: seq<Byte>) {
    if data == [] || |data| + (if add then 1 else 0) > MAX_MSG then []
    else if add then data + [Checksum(data)] else data
  }

  /** The three bytes of the header word. */
  lemma {:induction false} HeaderBytes(id: Word)
    ensures id % 0x100_0000 == 0x1_0000 * Fmt(id) + 0x100 * Target(id) + Source(id)
  {
    SplitByte(id);
    SplitByte(id / 256);
    SplitByte(id / 256 / 256);
    assert id == 0x100_0000 * (id / 256 / 256 / 256) + (0x1_0000 * Fmt(id) + 0x100 * Target(id) + Source(id));
    RestOf(id, id / 256 / 256 / 256, 0x1_0000 * Fmt(id) + 0x100 * Target(id) + Source(id));
  }

  lemma {:induction false} SplitByte(x: nat)
    ensures x == 256 * (x / 256) + x % 256 && x / 0x1_0000 == x / 256 / 256
  {
  }

  lemma {:induction false} RestOf(x: nat, q: nat, r: nat)
    requires x == 0x100_0000 * q + r && r < 0x100_0000
    ensures x % 0x100_0000 == r
  {
  }

  /** A request is built of 1 to 63 data bytes and the header, if there is room;
      a KWP header carries the number of data bytes in the low bits of its format
      byte if these are in use, and else in a byte of its own. */
  lemma {:induction false} BuiltExactly(kwp: bool, id: Word, data: seq<Byte>, cap: nat)
    ensures var req := BuildRequest(kwp, id, data, cap);
            var header: seq<Byte> := [Fmt(id), Target(id), Source(id)];
            && (req == [] <==> |data| == 0 || |data| >= 64 || |data| + (if kwp then 4 else 3) > cap)
            && (req != [] && !kwp ==> req == header + data)
            && (req != [] && kwp && Fmt(id) % 64 == 0 ==> req == header + [|data|] + data)
            && (req != [] && kwp && Fmt(id) % 64 != 0 ==>
                  && req[1..] == header[1..] + data
                  && req[0] % 64 == |data| && req[0] / 64 == Fmt(id) / 64)
  {
  }

  /** What is sent is the request, and its checksum if one is to be added; at
      most 260 bytes in all. */
  lemma {:induction false} SentExactly(add: bool, data: seq<Byte>)
    ensures var m := ForTx(add, data);
            && (m == [] <==> data == [] || |data| > (if add then 259 else 260))
            && (m != [] ==> if add then m[..|m| - 1] == data && SumRight(m) else m == data)
  {
    ChecksumIsSum(data);
  }

  /** What a receiver will take for the length of a KWP request is its length
      exactly when its header has target and source addresses, or has none and
      happens to put the right number where the length is looked for. */
  lemma {:induction false} RequestLength(id: Word, data: seq<Byte>, cap: nat)
    requires BuildRequest(true, id, data, cap) != []
    ensures var m := ForTx(true, BuildRequest(true, id, data, cap));
            && FrameOk(m)
            && (WellFormed(m) <==>
                  || ModeOf(Fmt(id)).Physical? || ModeOf(Fmt(id)).Functional?
                  || (Fmt(id) == 0 && Target(id) == |data| + 2))
  {
    var req := BuildRequest(true, id, data, cap);
    var m := ForTx(true, req);
    assert m[..|m| - 1] == req;
    BuiltHeader(id, data, cap);
  }

  lemma {:induction false} BuiltHeader(id: Word, data: seq<Byte>, cap: nat)
    requires BuildRequest(true, id, data, cap) != []
    ensures var req := BuildRequest(true, id, data, cap);
            && 4 <= |req| && req[1] == Target(id)
            && (if Fmt(id) % 64 != 0 then |req| == 3 + |data| && req[0] == Fmt(id) / 64 * 64 + |data|
                else |req| == 4 + |data| && req[0] == Fmt(id) && req[3] == |data|)
            && ModeOf(req[0]) == ModeOf(Fmt(id))
  {
  }

  /** Requests of these kinds, built, completed and put on the line one behind
      the other, are received as exactly the same list. */
  lemma {:induction false} RequestsArrive(c: Setup, ms: seq<seq<Byte>>, es: seq<Event>)
    requires c.mode.Iso14230? && AllIn(es) && Stream(es) == Joined(ms)
    requires forall i :: 0 <= i < |ms| ==> IsRequest(ms[i])
    ensures RunAll(c, es).a.buf == [] && Datas(RunAll(c, es).out) == ms
  {
    forall i | 0 <= i < |ms| ensures WellFormed(ms[i]) && FrameOk(ms[i]) {
      RequestOk(ms[i]);
    }
    Deframes(c, ms, es);
    AllAccepted(c, ms);
  }

  /** Built from some header with addresses, some data, and completed. */
  ghost predicate IsRequest(m: seq<Byte>) {
    exists id: Word, data: seq<Byte>, cap: nat ::
      Fmt(id) >= 0x80 && BuildRequest(true, id, data, cap) != [] && m == ForTx(true, BuildRequest(true, id, data, cap))
  }

  lemma {:induction false} RequestOk(m: seq<Byte>)
    requires IsRequest(m)
    ensures WellFormed(m) && FrameOk(m)
  {
    var id: Word, data: seq<Byte>, cap: nat :|
      Fmt(id) >= 0x80 && BuildRequest(true, id, data, cap) != [] && m == ForTx(true, BuildRequest(true, id, data, cap));
    RequestLength(id, data, cap);
  }

  lemma {:induction false} AllAccepted(c: Setup, ms: seq<seq<Byte>>)
    requires forall i :: 0 <= i < |ms| ==> FrameOk(ms[i])
    ensures Accepted(c, ms) == ms
  {
    if ms != [] {
      AllAccepted(c, ms[..|ms| - 1]);
      assert ms[..|ms| - 1] + [ms[|ms| - 1]] == ms;
    }
  }
}
