/** ISO 9141-2 and ISO 14230 messages on the K-Line: how long a message is, and
    how a stream of bytes is cut back into messages. */
module KLine {
  import opened Bytes

  const MAX_MSG := 260
  const CARB_MAX_MSG := 11
  const MIN_MSG := 3

  // ---- Grammar ----

  /** Bits A1 and A0 of the format byte. */
  datatype AddrMode = NoAddress | Carb | Physical | Functional

  function ModeOf(fmt: Byte): (m: AddrMode) {
    if fmt < 0x40 then NoAddress else if fmt < 0x80 then Carb else if fmt < 0xC0 then Physical else Functional
  }

  /** `kline_msg_len`: whole length that the bytes so far announce, or 0. */
  function MsgLen(buf: seq<Byte>): (n: nat) {
    if buf == [] || ModeOf(buf[0]).Carb? then 0
    else
      var hdr := if ModeOf(buf[0]).NoAddress? then 1 else 3;
      var data := buf[0] % 64;
      if data != 0 then hdr + data + 1
      else if |buf| < hdr + 1 || buf[hdr] == 0 then 0
      else hdr + 1 + buf[hdr] + 1
  }

  /** The two top bits of the format byte give the header: one byte (0), none
      (1), or three (2 and 3); the others the number of data bytes, or, if they are
      0, the byte behind the header does. */
  lemma {:induction false} MsgLenExactly(buf: seq<Byte>)
    ensures buf == [] ==> MsgLen(buf) == 0
    ensures buf != [] ==>
      var m, top := ModeOf(buf[0]), buf[0] / 64;
      && (m.NoAddress? <==> top == 0) && (m.Carb? <==> top == 1)
      && (m.Physical? <==> top == 2) && (m.Functional? <==> top == 3)
    ensures buf != [] ==>
      var top, low := buf[0] / 64, buf[0] % 64;
      var header := if top == 0 then 1 else 3;
      MsgLen(buf) ==
        if top == 1 then 0
        else if low > 0 then header + low + 1
        else if |buf| > header && buf[header] > 0 then header + 1 + buf[header] + 1
        else 0
  {
  }

  /** Once a length is announced, more bytes do not change it, and it is one
      that the standard allows. */
  lemma {:induction false} MsgLenStable(buf: seq<Byte>, more: seq<Byte>)
    requires MsgLen(buf) != 0
    ensures MsgLen(buf + more) == MsgLen(buf)
    ensures MIN_MSG <= MsgLen(buf) <= MAX_MSG
  {
    var hdr := if ModeOf(buf[0]).NoAddress? then 1 else 3;
    assert (buf + more)[0] == buf[0];
    assert hdr < |buf| ==> (buf + more)[hdr] == buf[hdr];
  }

  function Checksum(data: seq<Byte>): (s: Byte) {
    if data == [] then 0 else (Checksum(data[..|data| - 1]) + data[|data| - 1]) % 256
  }

  /** `kline_checksum`. */
  method ComputeChecksum(data: seq<Byte>) returns (s: Byte)
    ensures s == Checksum(data)
  {
    s := 0;
    for i := 0 to |data|
      invariant s == Checksum(data[..i])
    {
      s := (s + data[i]) % 256;
      assert data[..i + 1][..i] == data[..i];
    }
    assert data[..|data|] == data;
  }

  function Sum(data: seq<Byte>): (n: nat) {
    if data == [] then 0 else Sum(data[..|data| - 1]) + data[|data| - 1]
  }

  /** The checksum is the sum of the bytes modulo 256. */
  lemma {:induction false} ChecksumIsSum(data: seq<Byte>)
    ensures Checksum(data) == Sum(data) % 256
  {
    if data != [] {
      ChecksumIsSum(data[..|data| - 1]);
    }
  }

  predicate SumOk(buf: seq<Byte>)
    requires buf != []
  {
    Checksum(buf[..|buf| - 1]) == buf[|buf| - 1]
  }

  /** `kline_frame_ok`. */
  predicate FrameOk(buf: seq<Byte>) {
    MIN_MSG <= |buf| <= MAX_MSG && SumOk(buf)
  }

  /** Damage to one byte, wherever it is, never passes the checksum. */
  lemma {:induction false} SumTells(buf: seq<Byte>, i: nat, b: Byte)
    requires i < |buf| && b != buf[i]
    ensures Checksum(buf[i := b]) != Checksum(buf)
  {
    var n := |buf| - 1;
    var e := buf[i := b];
    if i < n {
      assert e[..n] == buf[..n][i := b];
      SumTells(buf[..n], i, b);
      SumsApart(Checksum(e[..n]), Checksum(buf[..n]), buf[n]);
    } else {
      assert e[..n] == buf[..n];
      SumsApart(b, buf[n], Checksum(buf[..n]));
    }
  }

  lemma {:induction false} SumsApart(x: Byte, y: Byte, b: Byte)
    requires x != y
    ensures (x + b) % 256 != (y + b) % 256
  {
  }

  lemma {:induction false} OneByteErrorCaught(buf: seq<Byte>, i: nat, b: Byte)
    requires i < |buf| && b != buf[i] && SumOk(buf)
    ensures !SumOk(buf[i := b])
  {
    var n := |buf| - 1;
    if i < n {
      assert buf[i := b][..n] == buf[..n][i := b];
      SumTells(buf[..n], i, b);
    } else {
      assert buf[i := b][..n] == buf[..n];
    }
  }

  // ---- Assembly ----

  datatype FrameMode = Discovery | Iso9141 | Iso14230

  datatype Setup = Setup(mode: FrameMode, checksumRx: bool)

  datatype Message = Message(data: seq<Byte>, badSum: bool, start: int, end: int)

  /** `g.asm_*` and the counters. */
  datatype Asm = Asm(buf: seq<Byte>, start: int, last: int, tooLong: nat, short: nat, badSum: nat)

  /** `asm_push`. */
  function Pushed(a: Asm, b: Byte, now: int): (r: Asm)
    requires |a.buf| <= MAX_MSG
    ensures 0 < |r.buf| <= MAX_MSG
  {
    if |a.buf| < MAX_MSG then a.(buf := a.buf + [b], start := if a.buf == [] then now else a.start, last := now)
    else a.(buf := [b], start := now, last := now, tooLong := a.tooLong + 1)
  }

  /** The bytes so far are a whole message without waiting for silence. */
  predicate Settled(c: Setup, buf: seq<Byte>)
    requires buf != []
  {
    && !c.mode.Iso9141?
    && (|| (MsgLen(buf) == |buf| && (c.mode.Iso14230? || (c.checksumRx && FrameOk(buf))))
        || (c.mode.Discovery? && c.checksumRx && ModeOf(buf[0]).Carb? && |buf| == CARB_MAX_MSG && FrameOk(buf)))
  }

  function Least(c: Setup): (n: nat) {
    if !c.mode.Iso9141? then MIN_MSG else if c.checksumRx then 2 else 1
  }

  predicate Sums(c: Setup, buf: seq<Byte>)
    requires buf != []
  {
    if c.mode.Iso9141? then |buf| >= 2 && SumOk(buf) else FrameOk(buf)
  }

  datatype Fate = Wait | Scrap | Refuse | Deliver(badSum: bool)

  /** `asm_complete`, as a verdict on the buffer. */
  function Judged(c: Setup, buf: seq<Byte>, silence: bool): (f: Fate) {
    if buf == [] then Wait
    else if !Settled(c, buf) && !silence then Wait
    else if !Settled(c, buf) && |buf| < Least(c) then Scrap
    else if (c.checksumRx || c.mode.Discovery?) && !Sums(c, buf) then
      if c.checksumRx then Refuse else Deliver(true)
    else Deliver(false)
  }

  function Ended(a: Asm, f: Fate): (r: Asm) {
    match f
    case Wait => a
    case Scrap => a.(buf := [], short := a.short + 1)
    case Refuse => a.(buf := [], badSum := a.badSum + 1)
    case Deliver(bad) => a.(buf := [], badSum := a.badSum + if bad then 1 else 0)
  }

  function Given(a: Asm, f: Fate): (ms: seq<Message>) {
    if f.Deliver? then [Message(a.buf, f.badSum, a.start, a.last)] else []
  }

  class Assembler {
    const setup: Setup
    const buf: array<Byte>
    var len: nat
    var start: int
    var last: int
    var tooLong: nat
    var short: nat
    var badSum: nat

    ghost predicate Valid()
      reads this
    {
      buf.Length == MAX_MSG && len <= MAX_MSG
    }

    ghost function View(): (a: Asm)
      requires Valid()
      reads this, buf
    {
      Asm(buf[..len], start, last, tooLong, short, badSum)
    }

    constructor (setup: Setup)
      ensures Valid() && View() == Asm([], 0, 0, 0, 0, 0) && this.setup == setup && fresh(buf)
    {
      this.setup := setup;
      buf := new Byte[MAX_MSG](_ => 0);
      len, start, last, tooLong, short, badSum := 0, 0, 0, 0, 0, 0;
    }

    method Push(b: Byte, now: int)
      requires Valid()
      modifies this`len, this`start, this`last, this`tooLong, buf
      ensures Valid() && View() == Pushed(old(View()), b, now)
    {
      ghost var was := buf[..len];
      if len == 0 {
        start := now;
      }
      if len < MAX_MSG {
        buf[len] := b;
        len := len + 1;
        assert buf[..len] == was + [b];
      } else {
        tooLong := tooLong + 1;
        start, len := now, 1;
        buf[0] := b;
        assert buf[..len] == [b];
      }
      last := now;
    }

    method Complete(silence: bool) returns (out: seq<Message>)
      requires Valid()
      modifies this`len, this`short, this`badSum
      ensures Valid() && View() == Ended(old(View()), Judged(setup, old(View()).buf, silence))
      ensures out == Given(old(View()), Judged(setup, old(View()).buf, silence))
    {
      hide FrameOk, SumOk, MsgLen, ModeOf;
      out := [];
      if len == 0 {
        return;
      }
      var bytes := buf[..len];
      if !Settled(setup, bytes) {
        if !silence {
          return;
        }
        if len < Least(setup) {
          short, len := short + 1, 0;
          return;
        }
      }
      var bad := false;
      if (setup.checksumRx || setup.mode.Discovery?) && !Sums(setup, bytes) {
        badSum := badSum + 1;
        if setup.checksumRx {
          len := 0;
          return;
        }
        bad := true;
      }
      out := [Message(bytes, bad, start, last)];
      len := 0;
    }
  }

  // ---- Whole runs ----

  /** A byte is read from the line, or the line stays silent for P1max. */
  datatype Event = In(b: Byte, now: int) | Silence

  /** A stretch of the stream that was dealt with as one, how, and whether because
      of silence. */
  datatype Block = Block(data: seq<Byte>, fate: Fate, silence: bool) | Overlong(data: seq<Byte>)

  datatype Run = Run(a: Asm, out: seq<Message>, blocks: seq<Block>)

  /** What has been dealt with in this step. */
  function Ending(buf: seq<Byte>, f: Fate, silence: bool): (bs: seq<Block>) {
    if f.Wait? then [] else [Block(buf, f, silence)]
  }

  function Step(c: Setup, r: Run, e: Event): (r': Run)
    requires |r.a.buf| <= MAX_MSG
    ensures |r'.a.buf| <= MAX_MSG
  {
    match e
    case Silence =>
      var f := Judged(c, r.a.buf, true);
      Run(Ended(r.a, f), r.out + Given(r.a, f), r.blocks + Ending(r.a.buf, f, true))
    case In(b, now) =>
      var a := Pushed(r.a, b, now);
      var f := Judged(c, a.buf, false);
      var before := if |r.a.buf| == MAX_MSG then [Overlong(r.a.buf)] else [];
      Run(Ended(a, f), r.out + Given(a, f), r.blocks + before + Ending(a.buf, f, false))
  }

  const FRESH := Run(Asm([], 0, 0, 0, 0, 0), [], [])

  ghost function RunAll(c: Setup, es: seq<Event>): (r: Run)
    ensures |r.a.buf| <= MAX_MSG
  {
    if es == [] then FRESH else Step(c, RunAll(c, es[..|es| - 1]), es[|es| - 1])
  }

  function Heard(e: Event): (b: seq<Byte>) { if e.In? then [e.b] else [] }

  function Stream(es: seq<Event>): (b: seq<Byte>)
    ensures |b| <= |es|
  {
    if es == [] then [] else Stream(es[..|es| - 1]) + Heard(es[|es| - 1])
  }

  function Flat(bs: seq<Block>): (b: seq<Byte>) {
    if bs == [] then [] else Flat(bs[..|bs| - 1]) + bs[|bs| - 1].data
  }

  /** When each byte of the stream came in. */
  function Stamps(es: seq<Event>): (at: seq<int>)
    ensures |at| == |Stream(es)|
  {
    if es == [] then []
    else
      var e := es[|es| - 1];
      Stamps(es[..|es| - 1]) + if e.In? then [e.now] else []
  }

  /** The messages that were delivered, in order, with the times of their first
      and last bytes. */
  ghost function Delivered(bs: seq<Block>, at: seq<int>): (ms: seq<Message>)
    requires |Flat(bs)| <= |at|
  {
    if bs == [] then []
    else
      var b, from := bs[|bs| - 1], |Flat(bs[..|bs| - 1])|;
      Delivered(bs[..|bs| - 1], at) +
      if b.Block? && b.fate.Deliver? && b.data != []
      then [Message(b.data, b.fate.badSum, at[from], at[from + |b.data| - 1])] else []
  }

  /** How many stretches were overlong, too short, and wrong in their checksum. */
  datatype Tally = Tally(tooLong: nat, short: nat, badSum: nat)

  function TallyOf(bs: seq<Block>): (t: Tally) {
    if bs == [] then Tally(0, 0, 0)
    else
      var b, t := bs[|bs| - 1], TallyOf(bs[..|bs| - 1]);
      if b.Overlong? then t.(tooLong := t.tooLong + 1)
      else if b.fate == Scrap then t.(short := t.short + 1)
      else if b.fate == Refuse || b.fate == Deliver(true) then t.(badSum := t.badSum + 1)
      else t
  }

  function Datas(ms: seq<Message>): (ds: seq<seq<Byte>>)
    ensures |ds| == |ms|
  {
    if ms == [] then [] else Datas(ms[..|ms| - 1]) + [ms[|ms| - 1].data]
  }

  /** The last byte is the sum of the others, modulo 256. */
  ghost predicate SumRight(d: seq<Byte>) { d != [] && d[|d| - 1] == Sum(d[..|d| - 1]) % 256 }

  /** A whole message by its own length; while the framing is still being found
      out, only with the right sum, and also one of 11 bytes with a format byte of
      the CARB kind. With ISO 9141-2 only silence ends a message. */
  ghost predicate IsWhole(c: Setup, d: seq<Byte>) {
    match c.mode
    case Iso9141 => false
    case Iso14230 => d != [] && MsgLen(d) == |d|
    case Discovery =>
      c.checksumRx && |d| >= 3 && SumRight(d) && (MsgLen(d) == |d| || (|d| == 11 && d[0] / 64 == 1))
  }

  /** A stretch that is over: too short, refused for its sum where sums are
      checked, or delivered, and marked if its sum is wrong and only wanted. */
  ghost function FateOf(c: Setup, d: seq<Byte>): (f: Fate) {
    if |d| < (if !c.mode.Iso9141? then 3 else if c.checksumRx then 2 else 1) then Scrap
    else if c.checksumRx && !SumRight(d) then Refuse
    else Deliver(c.mode.Discovery? && !SumRight(d))
  }

  /** No beginning of it was whole. */
  ghost predicate Unfinished(c: Setup, d: seq<Byte>, n: nat)
    requires n <= |d|
  {
    forall k :: 0 < k <= n ==> !IsWhole(c, d[..k])
  }

  /** A stretch ends at the first byte that makes it whole, or by silence, or at
      260 bytes; and then as its bytes deserve. */
  ghost predicate Proper(c: Setup, b: Block) {
    match b
    case Overlong(data) => |data| == 260 && Unfinished(c, data, 260)
    case Block(data, fate, silence) =>
      && 0 < |data| <= 260 && Unfinished(c, data, |data| - 1) && silence == !IsWhole(c, data) && fate == FateOf(c, data)
  }

  /** Nothing heard is lost or invented, and all of it is accounted for. */
  ghost predicate Conserved(c: Setup, es: seq<Event>, r: Run) {
    && Stream(es) == Flat(r.blocks) + r.a.buf
    && r.out == Delivered(r.blocks, Stamps(es))
    && (forall i :: 0 <= i < |r.blocks| ==> Proper(c, r.blocks[i]))
    && TallyOf(r.blocks) == Tally(r.a.tooLong, r.a.short, r.a.badSum)
    && Pending(c, es, r)
  }

  /** What is in the buffer is not whole yet, and its times are right. */
  ghost predicate Pending(c: Setup, es: seq<Event>, r: Run) {
    && |r.a.buf| <= 260 && Unfinished(c, r.a.buf, |r.a.buf|)
    && (r.a.buf != [] ==> |Flat(r.blocks)| < |Stamps(es)|
                          && r.a.start == Stamps(es)[|Flat(r.blocks)|] && r.a.last == Stamps(es)[|Stamps(es)| - 1])
  }

  lemma {:induction false} SumRightExactly(d: seq<Byte>)
    requires d != []
    ensures SumOk(d) <==> SumRight(d)
  {
    ChecksumIsSum(d[..|d| - 1]);
  }

  /** The judgement waits for a whole message or for silence, and is then exactly
      what the bytes deserve. */
  lemma {:induction false} JudgedExactly(c: Setup, d: seq<Byte>, silence: bool)
    requires d != [] && |d| <= 260
    ensures Settled(c, d) <==> IsWhole(c, d)
    ensures Judged(c, d, silence) == if silence || IsWhole(c, d) then FateOf(c, d) else Wait
  {
    hide Checksum, Sum;
    SumRightExactly(d);
    if MsgLen(d) == |d| {
      MsgLenStable(d, []);
    }
  }

  /** The end of a stretch is noted, and what is delivered of it. */
  lemma {:induction false} BlockAdded(blocks: seq<Block>, b: Block, at: seq<int>)
    requires |Flat(blocks)| + |b.data| <= |at|
    ensures Flat(blocks + [b]) == Flat(blocks) + b.data
    ensures Delivered(blocks + [b], at) ==
      Delivered(blocks, at) +
      if b.Block? && b.fate.Deliver? && b.data != []
      then [Message(b.data, b.fate.badSum, at[|Flat(blocks)|], at[|Flat(blocks)| + |b.data| - 1])] else []
    ensures TallyOf(blocks + [b]) ==
      var t := TallyOf(blocks);
      if b.Overlong? then t.(tooLong := t.tooLong + 1)
      else if b.fate == Scrap then t.(short := t.short + 1)
      else if b.fate == Refuse || b.fate == Deliver(true) then t.(badSum := t.badSum + 1)
      else t
  {
    hide Flat, Delivered, TallyOf;
    FlatNext(blocks, b);
    DeliveredNext(blocks, b, at);
    TallyNext(blocks, b);
  }

  lemma {:induction false} FlatNext(blocks: seq<Block>, b: Block)
    ensures Flat(blocks + [b]) == Flat(blocks) + b.data
  {
    assert (blocks + [b])[..|blocks|] == blocks;
  }

  lemma {:induction false} DeliveredNext(blocks: seq<Block>, b: Block, at: seq<int>)
    requires |Flat(blocks)| + |b.data| <= |at| && Flat(blocks + [b]) == Flat(blocks) + b.data
    ensures Delivered(blocks + [b], at) ==
      Delivered(blocks, at) +
      if b.Block? && b.fate.Deliver? && b.data != []
      then [Message(b.data, b.fate.badSum, at[|Flat(blocks)|], at[|Flat(blocks)| + |b.data| - 1])] else []
  {
    hide Flat;
    assert (blocks + [b])[..|blocks|] == blocks;
  }

  lemma {:induction false} TallyNext(blocks: seq<Block>, b: Block)
    ensures TallyOf(blocks + [b]) ==
      var t := TallyOf(blocks);
      if b.Overlong? then t.(tooLong := t.tooLong + 1)
      else if b.fate == Scrap then t.(short := t.short + 1)
      else if b.fate == Refuse || b.fate == Deliver(true) then t.(badSum := t.badSum + 1)
      else t
  {
    assert (blocks + [b])[..|blocks|] == blocks;
  }

  /** Times of later bytes do not change what was delivered before. */
  lemma {:induction false} DeliveredBefore(blocks: seq<Block>, at: seq<int>, more: seq<int>)
    requires |Flat(blocks)| <= |at|
    ensures Delivered(blocks, at + more) == Delivered(blocks, at)
  {
    if blocks != [] {
      DeliveredBefore(blocks[..|blocks| - 1], at, more);
    }
  }

  /** Everything is accounted for but the buffer, which may just have become whole. */
  ghost predicate Filled(c: Setup, es: seq<Event>, r: Run) {
    && Stream(es) == Flat(r.blocks) + r.a.buf
    && r.out == Delivered(r.blocks, Stamps(es))
    && (forall i :: 0 <= i < |r.blocks| ==> Proper(c, r.blocks[i]))
    && TallyOf(r.blocks) == Tally(r.a.tooLong, r.a.short, r.a.badSum)
    && |r.a.buf| <= 260 && (r.a.buf != [] ==> Unfinished(c, r.a.buf, |r.a.buf| - 1))
    && (r.a.buf != [] ==> |Flat(r.blocks)| < |Stamps(es)|
                          && r.a.start == Stamps(es)[|Flat(r.blocks)|] && r.a.last == Stamps(es)[|Stamps(es)| - 1])
  }

  /** One stretch ends, or the buffer waits. */
  lemma {:induction false} EndingConserves(c: Setup, es: seq<Event>, a: Asm, out: seq<Message>, blocks: seq<Block>,
                                           f: Fate, silence: bool)
    requires |a.buf| <= MAX_MSG && f == Judged(c, a.buf, silence) && Filled(c, es, Run(a, out, blocks))
    requires silence ==> Unfinished(c, a.buf, |a.buf|)
    ensures Conserved(c, es, Run(Ended(a, f), out + Given(a, f), blocks + Ending(a.buf, f, silence)))
  {
    hide Judged, IsWhole, Stream, Flat, Delivered, Stamps, TallyOf, FateOf;
    if a.buf == [] {
      WaitsEmpty(c, silence);
      assert out + [] == out && blocks + [] == blocks;
    } else {
      JudgedExactly(c, a.buf, silence);
      FateNotWait(c, a.buf);
      assert a.buf[..|a.buf|] == a.buf;
      if f.Wait? {
        assert out + [] == out && blocks + [] == blocks;
      } else {
        var b := Block(a.buf, f, silence);
        BlockAdded(blocks, b, Stamps(es));
        assert Flat(blocks) + a.buf + [] == Flat(blocks) + a.buf;
        assert out + [] == out;
      }
    }
  }

  lemma {:induction false} FateNotWait(c: Setup, d: seq<Byte>)
    ensures !FateOf(c, d).Wait?
  {
  }

  lemma {:induction false} WaitsEmpty(c: Setup, silence: bool)
    ensures Judged(c, [], silence).Wait?
  {
  }

  lemma {:induction false} PushFills(c: Setup, es: seq<Event>, r: Run, b: Byte, now: int)
    requires |r.a.buf| <= MAX_MSG && Conserved(c, es, r)
    ensures var before := if |r.a.buf| == MAX_MSG then [Overlong(r.a.buf)] else [];
            Filled(c, es + [In(b, now)], Run(Pushed(r.a, b, now), r.out, r.blocks + before))
  {
    hide IsWhole, Stream, Flat, Delivered, Stamps, TallyOf, FateOf;
    var es', at := es + [In(b, now)], Stamps(es);
    InHeard(es, b, now);
    var buf := r.a.buf;
    if |buf| == MAX_MSG {
      var o := Overlong(buf);
      assert buf[..260] == buf;
      BlockAdded(r.blocks, o, at);
      DeliveredBefore(r.blocks + [o], at, [now]);
      assert Flat(r.blocks) + buf + [b] == (Flat(r.blocks) + buf) + [b];
    } else {
      DeliveredBefore(r.blocks, at, [now]);
      assert r.blocks + [] == r.blocks;
      assert Flat(r.blocks) + buf + [b] == Flat(r.blocks) + (buf + [b]);
      assert forall k :: 0 < k <= |buf| ==> (buf + [b])[..k] == buf[..k];
    }
  }

  lemma {:induction false} InHeard(es: seq<Event>, b: Byte, now: int)
    ensures Stream(es + [In(b, now)]) == Stream(es) + [b]
    ensures Stamps(es + [In(b, now)]) == Stamps(es) + [now]
  {
    assert (es + [In(b, now)])[..|es|] == es;
  }

  lemma {:induction false} SilenceHeard(es: seq<Event>)
    ensures Stream(es + [Silence]) == Stream(es) && Stamps(es + [Silence]) == Stamps(es)
  {
    assert (es + [Silence])[..|es|] == es;
  }

  lemma {:induction false} StepConserves(c: Setup, es: seq<Event>, r: Run, e: Event)
    requires |r.a.buf| <= MAX_MSG && Conserved(c, es, r)
    ensures Conserved(c, es + [e], Step(c, r, e))
  {
    hide Judged, IsWhole, Stream, Flat, Delivered, Stamps, TallyOf, Proper, Pushed, Ended, Given, Ending;
    match e
    case Silence =>
      SilenceHeard(es);
      EndingConserves(c, es + [e], r.a, r.out, r.blocks, Judged(c, r.a.buf, true), true);
    case In(b, now) =>
      var a := Pushed(r.a, b, now);
      var before := if |r.a.buf| == MAX_MSG then [Overlong(r.a.buf)] else [];
      PushFills(c, es, r, b, now);
      EndingConserves(c, es + [e], a, r.out, r.blocks + before, Judged(c, a.buf, false), false);
  }

  /** In every mode, for every stream and any pauses in it: the stream is, byte
      for byte and in order, the messages delivered, the ones refused for their
      checksum, the scraps ended by silence, the stretches of 260 bytes that no
      message explains, and what is still in the buffer; and every message that
      got out is one that the mode allows. */
  lemma {:induction false} NothingLost(c: Setup, es: seq<Event>)
    ensures Conserved(c, es, RunAll(c, es))
  {
    hide Step, Conserved;
    if es == [] {
      NothingYet(c);
    } else {
      var n := |es| - 1;
      NothingLost(c, es[..n]);
      StepConserves(c, es[..n], RunAll(c, es[..n]), es[n]);
      assert es[..n] + [es[n]] == es;
    }
  }

  lemma {:induction false} NothingYet(c: Setup)
    ensures Conserved(c, [], FRESH)
  {
  }

  /** After silence nothing is left waiting, in any mode. */
  lemma {:induction false} SilenceSettles(c: Setup, es: seq<Event>)
    ensures RunAll(c, es + [Silence]).a.buf == []
    ensures var buf := RunAll(c, es).a.buf;
            RunAll(c, es + [Silence]).blocks == RunAll(c, es).blocks
              + if buf == [] then [] else [Block(buf, FateOf(c, buf), true)]
  {
    hide Judged, FateOf;
    assert (es + [Silence])[..|es|] == es;
    NothingLost(c, es);
    var r := RunAll(c, es);
    if r.a.buf == [] {
      WaitsEmpty(c, true);
      assert r.blocks + [] == r.blocks;
    } else {
      JudgedExactly(c, r.a.buf, true);
      FateNotWait(c, r.a.buf);
    }
  }

  // ---- Messages between silences ----

  /** Bytes on the line, without a pause. */
  ghost predicate Spoken(es: seq<Event>) { forall i :: 0 <= i < |es| ==> es[i].In? }

  lemma {:induction false} Gathers(c: Setup, es: seq<Event>, g: seq<Event>)
    requires c.mode.Iso9141? && RunAll(c, es).a.buf == [] && Spoken(g) && |g| <= MAX_MSG
    ensures RunAll(c, es + g).a.buf == Stream(g) && |Stream(g)| == |g|
    ensures RunAll(c, es + g).out == RunAll(c, es).out
  {
    hide Step, Stream;
    NothingHeard();
    if g == [] {
      assert es + g == es;
    } else {
      var n := |g| - 1;
      Gathers(c, es, g[..n]);
      assert (es + g)[..|es| + n] == es + g[..n];
      assert (es + g)[|es| + n] == g[n];
      StreamNext(g);
      OneGathered(c, RunAll(c, es + g[..n]), g[n]);
    }
  }

  lemma {:induction false} OneGathered(c: Setup, r: Run, e: Event)
    requires c.mode.Iso9141? && |r.a.buf| < MAX_MSG && e.In?
    ensures Step(c, r, e).a.buf == r.a.buf + [e.b] && Step(c, r, e).out == r.out
  {
    hide Judged;
    OnlySilence(c, r.a.buf + [e.b]);
    assert r.out + [] == r.out;
  }

  lemma {:induction false} NothingHeard()
    ensures Stream([]) == []
  {
  }

  lemma {:induction false} StreamNext(g: seq<Event>)
    requires g != [] && g[|g| - 1].In?
    ensures Stream(g) == Stream(g[..|g| - 1]) + [g[|g| - 1].b]
  {
  }

  lemma {:induction false} OnlySilence(c: Setup, d: seq<Byte>)
    requires c.mode.Iso9141?
    ensures Judged(c, d, false).Wait?
  {
  }

  /** With ISO 9141-2 silence is what ends a message: whatever 260 bytes at most
      lie between two silences come out as one, or are refused or scrapped, as
      their number and sum deserve. */
  lemma {:induction false} SilenceDelimits(c: Setup, es: seq<Event>, g: seq<Event>)
    requires c.mode.Iso9141? && RunAll(c, es).a.buf == [] && Spoken(g) && 0 < |g| <= MAX_MSG
    ensures var r, d := RunAll(c, es + g + [Silence]), Stream(g);
            && r.a.buf == []
            && Datas(r.out) == Datas(RunAll(c, es).out)
                 + if |d| >= (if c.checksumRx then 2 else 1) && (c.checksumRx ==> SumRight(d)) then [d] else []
  {
    hide Judged, Datas, SumRight, Stream, Step;
    var was := es + g;
    Gathers(c, es, g);
    assert (was + [Silence])[..|was|] == was;
    SilenceEnds(c, RunAll(c, was));
  }

  lemma {:induction false} SilenceEnds(c: Setup, r: Run)
    requires c.mode.Iso9141? && 0 < |r.a.buf| <= MAX_MSG
    ensures var r', d := Step(c, r, Silence), r.a.buf;
            && r'.a.buf == []
            && Datas(r'.out) == Datas(r.out)
                 + if |d| >= (if c.checksumRx then 2 else 1) && (c.checksumRx ==> SumRight(d)) then [d] else []
  {
    hide Judged, Datas, SumRight;
    JudgedExactly(c, r.a.buf, true);
    DatasNext(r.out, Given(r.a, FateOf(c, r.a.buf)));
  }

  lemma {:induction false} DatasNext(ms: seq<Message>, more: seq<Message>)
    requires |more| <= 1
    ensures Datas(ms + more) == Datas(ms) + if more == [] then [] else [more[0].data]
  {
    if more == [] {
      assert ms + more == ms;
    } else {
      assert (ms + more)[..|ms|] == ms;
    }
  }
}
