/** The link between host and device: requests and responses cut into framed,
    CRC-protected fragments on a byte stream. */
module Wire {
  import opened Clock
  import opened Bytes
  import opened Numbers

  /** "J253". */
  const M0: Byte := 0x4A
  const M1: Byte := 0x32
  const M2: Byte := 0x35
  const M3: Byte := 0x33
  const MAGIC_SIZE := 4
  const VERSION := 1
  const HEADER_SIZE := 16
  const CRC_SIZE := 4
  const FRAGMENT_MAX := 192
  const FRAME_MAX := HEADER_SIZE + FRAGMENT_MAX + CRC_SIZE
  const RPC_MAX := 4608
  const TIMEOUT_US := 2000000

  const MORE := 1
  const FETCH := 2
  const ACK := 4
  const RESPONSE := 128

  // ---- CRC-32 ----

  /** Exclusive or of the `n` lowest bits. */
  function XorBits(x: nat, y: nat, n: nat): (r: nat)
    ensures r < Pow2(n)
  {
    if n == 0 then 0 else (x % 2 + y % 2) % 2 + 2 * XorBits(x / 2, y / 2, n - 1)
  }

  lemma {:induction false} WordBits()
    ensures Pow2(32) == WRAP
  {
    assert Pow2(8) == 0x100;
    assert Pow2(16) == 0x1_0000;
    assert Pow2(24) == 0x100_0000;
  }

  function Xor(x: Word, y: Word): (r: Word) {
    WordBits();
    XorBits(x, y, 32)
  }

  function Turned(c: Word): (r: Word) { Xor(c / 2, if c % 2 == 1 then 0xedb8_8320 else 0) }

  function Turns(c: Word, n: nat): (r: Word) {
    if n == 0 then c else Turned(Turns(c, n - 1))
  }

  function Register32(data: seq<Byte>): (c: Word) {
    if data == [] then WRAP - 1 else Turns(Xor(Register32(data[..|data| - 1]), data[|data| - 1]), 8)
  }

  function Crc32(data: seq<Byte>): (c: Word) { WRAP - 1 - Register32(data) }

  /** `crc32`: the register, byte by byte and bit by bit. */
  method ComputeCrc32(data: seq<Byte>) returns (c: Word)
    ensures c == Crc32(data)
  {
    hide Turned, Xor;
    var crc: Word := WRAP - 1;
    for i := 0 to |data|
      invariant crc == Register32(data[..i])
    {
      var start := Xor(crc, data[i]);
      crc := start;
      for bit := 0 to 8
        invariant crc == Turns(start, bit)
      {
        crc := Turned(crc);
      }
      assert data[..i + 1][..i] == data[..i];
    }
    assert data[..|data|] == data;
    return WRAP - 1 - crc;
  }

  // ---- Frames ----

  /** The fields of a frame. */
  datatype Fragment = Fragment(op: Byte, flags: nat, sequence: Word, offset: nat, data: seq<Byte>)

  predicate FragmentOk(f: Fragment) {
    f.flags < 0x1_0000 && f.offset < 0x1_0000 && |f.data| <= FRAGMENT_MAX
  }

  /** Everything the CRC covers. */
  function Covered(f: Fragment): (b: seq<Byte>)
    requires FragmentOk(f)
    ensures |b| == 12 + |f.data|
  {
    var head: seq<Byte> := [VERSION, f.op];
    head + Put16(f.flags) + Put32(f.sequence) + Put16(f.offset) + Put16(|f.data|) + f.data
  }

  function Framed(f: Fragment): (b: seq<Byte>)
    requires FragmentOk(f)
    ensures |b| == HEADER_SIZE + |f.data| + CRC_SIZE
  {
    [M0, M1, M2, M3] + Covered(f) + Put32(Crc32(Covered(f)))
  }

  /** The bytes so far agree with the magic, as far as they go. */
  predicate Agrees(b: seq<Byte>) {
    && (|b| > 0 ==> b[0] == M0) && (|b| > 1 ==> b[1] == M1)
    && (|b| > 2 ==> b[2] == M2) && (|b| > 3 ==> b[3] == M3)
  }

  /** Payload length that a header announces. */
  function Announced(b: seq<Byte>): (n: nat)
    requires |b| >= HEADER_SIZE
  {
    Get16(b[14..16])
  }

  /** The bytes of one whole frame, intact or not. */
  predicate Whole(b: seq<Byte>) {
    && |b| >= HEADER_SIZE && Agrees(b) && b[4] == VERSION && Announced(b) <= FRAGMENT_MAX
    && |b| == HEADER_SIZE + Announced(b) + CRC_SIZE
  }

  predicate Intact(b: seq<Byte>)
    requires Whole(b)
  {
    var end := HEADER_SIZE + Announced(b);
    Get32(b[end..end + CRC_SIZE]) == Crc32(b[MAGIC_SIZE..end])
  }

  function Parse(b: seq<Byte>): (f: Fragment)
    requires Whole(b)
    ensures FragmentOk(f)
  {
    Fragment(b[5], Get16(b[6..8]), Get32(b[8..12]), Get16(b[12..14]), b[HEADER_SIZE..HEADER_SIZE + Announced(b)])
  }

  // ---- Requests and responses ----

  type Reply = s: seq<Byte> | |s| <= RPC_MAX

  datatype Call = Call(op: Byte, request: seq<Byte>)

  datatype Link = Link(request: seq<Byte>, response: seq<Byte>, sequence: Word, operation: Byte,
                       assembling: bool, ready: bool)

  predicate LinkValid(l: Link) { |l.request| <= RPC_MAX && |l.response| <= RPC_MAX }

  const REJECTED: Reply := [8, 10]

  /** What one frame makes of the link: its new state, the frames that go out,
      and the request handed to the core, if any. */
  datatype Effect = Effect(link: Link, sent: seq<Fragment>, calls: seq<Call>)

  function PieceAt(response: seq<Byte>, offset: nat): (d: seq<Byte>)
    requires offset <= |response|
    ensures |d| <= FRAGMENT_MAX
  {
    response[offset..offset + Min(|response| - offset, FRAGMENT_MAX)]
  }

  /** `send_response_fragment`. */
  function ResponseAt(l: Link, offset: nat): (fs: seq<Fragment>)
    requires LinkValid(l)
    ensures |fs| <= 1 && forall i :: 0 <= i < |fs| ==> FragmentOk(fs[i])
  {
    if offset > |l.response| then []
    else
      var piece := PieceAt(l.response, offset);
      var more := if offset + |piece| < |l.response| then MORE else 0;
      [Fragment(l.operation, RESPONSE + more, l.sequence, offset, piece)]
  }

  function Restarted(l: Link, f: Fragment): (r: Link) {
    if f.offset == 0
    then l.(request := [], sequence := f.sequence, operation := f.op, assembling := true, ready := false)
    else l
  }

  /** The fragment is the next one of the request being assembled. */
  predicate Continues(l: Link, f: Fragment) {
    l.assembling && f.sequence == l.sequence && f.op == l.operation && f.offset == |l.request|
  }

  function Responding(l: Link, response: seq<Byte>): (r: Link) {
    l.(assembling := false, response := response, ready := true)
  }

  /** `process_frame` on an intact frame; `reply` is what the core would answer. */
  function Process(l: Link, f: Fragment, reply: Reply): (e: Effect)
    requires LinkValid(l)
    ensures LinkValid(e.link)
  {
    if f.flags == FETCH then
      if f.data == [] && l.ready && f.sequence == l.sequence && f.op == l.operation
      then Effect(l, ResponseAt(l, f.offset), [])
      else Effect(l, [], [])
    else if f.flags != 0 && f.flags != MORE then Effect(l, [], [])
    else
      var begun := Restarted(l, f);
      if !Continues(begun, f) then Effect(begun, [], [])
      else if |f.data| > RPC_MAX - |begun.request| || (f.flags == MORE && f.data == []) then
        var r := Responding(begun, REJECTED);
        Effect(r, ResponseAt(r, 0), [])
      else
        var taken := begun.(request := begun.request + f.data);
        if f.flags == MORE then
          Effect(taken, [Fragment(taken.operation, RESPONSE + ACK, taken.sequence, |taken.request|, [])], [])
        else
          var r := Responding(taken, reply);
          Effect(r, ResponseAt(r, 0), [Call(taken.operation, taken.request)])
  }

  // ---- The byte stream ----

  /** `sent` and `calls` stand for the world outside: the frames written to the
      link and the requests handed to the core. */
  datatype State = State(frame: seq<Byte>, link: Link, sent: seq<Fragment>, calls: seq<Call>)

  /** Answers of the core, by the number of the call. */
  type Core = nat -> Reply

  function Resync(b: seq<Byte>): (r: seq<Byte>)
    ensures |r| <= |b| && Agrees(r)
  {
    if b == [] || Agrees(b) then b else Resync(b[1..])
  }

  /** A frame begun: it agrees with the magic, and once its header is in, that
      is one the device accepts. */
  predicate Begun(b: seq<Byte>) {
    && Agrees(b)
    && (|b| >= HEADER_SIZE ==>
          b[4] == VERSION && Announced(b) <= FRAGMENT_MAX && |b| < HEADER_SIZE + Announced(b) + CRC_SIZE)
  }

  ghost predicate StateValid(s: State) { Begun(s.frame) && LinkValid(s.link) }

  function OnFrame(s: State, b: seq<Byte>, core: Core): (r: State)
    requires LinkValid(s.link) && Whole(b)
    ensures LinkValid(r.link) && r.frame == []
  {
    if !Intact(b) then s.(frame := [])
    else
      var e := Process(s.link, Parse(b), core(|s.calls|));
      State([], e.link, s.sent + e.sent, s.calls + e.calls)
  }

  function TakeByte(s: State, b: Byte, core: Core): (r: State)
    requires LinkValid(s.link)
    ensures LinkValid(r.link)
  {
    var frame := Resync(s.frame + [b]);
    if |frame| < HEADER_SIZE then s.(frame := frame)
    else if frame[4] != VERSION || Announced(frame) > FRAGMENT_MAX then s.(frame := [])
    else if |frame| == HEADER_SIZE + Announced(frame) + CRC_SIZE then OnFrame(s, frame, core)
    else s.(frame := frame)
  }

  function FeedAll(s: State, data: seq<Byte>, core: Core): (r: State)
    requires LinkValid(s.link)
    ensures LinkValid(r.link)
  {
    if data == [] then s else TakeByte(FeedAll(s, data[..|data| - 1], core), data[|data| - 1], core)
  }

  /** Input that comes more than two seconds after the last starts afresh. */
  function Timed(s: State, last: Time, now: Time): (r: State)
    requires LinkValid(s.link)
    ensures LinkValid(r.link)
  {
    if Reading(now - last) > TIMEOUT_US then s.(frame := [], link := s.link.(assembling := false)) else s
  }

  /** The buffer index stays in range, whatever the bytes are. */
  lemma {:induction false} ByteKeeps(s: State, b: Byte, core: Core)
    requires StateValid(s)
    ensures StateValid(TakeByte(s, b, core))
    ensures |s.frame| < FRAME_MAX
  {
    hide OnFrame;
    var pushed := s.frame + [b];
    if !Agrees(pushed) {
      MagicOnce(pushed);
    } else if |s.frame| >= HEADER_SIZE {
      assert pushed[14..16] == s.frame[14..16];
    }
  }

  /** Whatever no longer agrees with the magic is too short for a header. */
  lemma {:induction false} MagicOnce(pushed: seq<Byte>)
    requires pushed != [] && Agrees(pushed[..|pushed| - 1]) && !Agrees(pushed)
    ensures |Resync(pushed)| < MAGIC_SIZE
  {
  }

  /** So it does over every stream. */
  lemma {:induction false} FeedKeeps(s: State, data: seq<Byte>, core: Core)
    requires StateValid(s)
    ensures StateValid(FeedAll(s, data, core)) && |FeedAll(s, data, core).frame| < FRAME_MAX
  {
    hide TakeByte;
    if data != [] {
      var n := |data| - 1;
      FeedKeeps(s, data[..n], core);
      ByteKeeps(FeedAll(s, data[..n], core), data[n], core);
    }
  }
}
