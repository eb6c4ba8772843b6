/** The receive queue of a J2534 channel: messages of any length packed one
    behind the other into a byte ring. */
module RxRing {
  import opened Bytes

  const RX_BYTES := 8192
  const MSG_HEADER := 28
  const RX_OVERFLOW := 64

  datatype Message = Message(protocol: Word, handle: Word, status: Word, txFlags: Word, stamp: Word,
                             data: seq<Byte>, extra: Word)

  function Size(m: Message): (n: nat) { MSG_HEADER + |m.data| }

  predicate Storable(m: Message) { Size(m) <= RX_BYTES }

  /** `status | (overflow ? J2534_RX_OVERFLOW : 0)`. */
  function Marked(status: Word, overflow: bool): (r: Word)
    ensures (r / RX_OVERFLOW) % 2 == 1 <==> overflow || (status / RX_OVERFLOW) % 2 == 1
  {
    if overflow && (status / RX_OVERFLOW) % 2 == 0 then status + RX_OVERFLOW else status
  }

  // ---- The queue of messages ----

  datatype Fifo = Fifo(queue: seq<Message>, overflow: bool)

  datatype Request = Request(handle: Word, status: Word, stamp: Word, data: seq<Byte>, indication: bool)

  function Room(queue: seq<Message>): (n: int) { RX_BYTES - Stored(queue) }

  /** Bytes that the messages take. */
  function Stored(queue: seq<Message>): (n: nat) {
    if queue == [] then 0 else Stored(queue[..|queue| - 1]) + Size(queue[|queue| - 1])
  }

  predicate Fits(queue: seq<Message>, q: Request) { MSG_HEADER + |q.data| <= Room(queue) }

  function Made(protocol: Word, q: Request, overflow: bool): (m: Message)
    requires MSG_HEADER + |q.data| <= RX_BYTES
  {
    Message(protocol, q.handle, Marked(q.status, overflow), 0, q.stamp, q.data,
            if q.indication then 0 else |q.data|)
  }

  /** A message that does not fit is dropped whole and leaves a mark; one that
      does carries the mark away. */
  function Enqueued(f: Fifo, protocol: Word, q: Request): (r: Fifo)
    requires Stored(f.queue) <= RX_BYTES
  {
    if Fits(f.queue, q) then Fifo(f.queue + [Made(protocol, q, f.overflow)], false) else f.(overflow := true)
  }

  datatype Answer = Got(m: Message) | Overflow | Empty

  function Taken(f: Fifo): (r: Fifo) {
    if f.queue == [] then f.(overflow := false) else f.(queue := f.queue[1..])
  }

  function Told(f: Fifo): (a: Answer) {
    if f.queue != [] then Got(f.queue[0]) else if f.overflow then Overflow else Empty
  }

  // ---- Its bytes ----

  function Header(m: Message): (b: seq<Byte>)
    requires Storable(m)
    ensures |b| == MSG_HEADER
  {
    Words([m.protocol, m.handle, m.status, m.txFlags, m.stamp, |m.data|, m.extra])
  }

  function Coded(m: Message): (b: seq<Byte>)
    requires Storable(m)
    ensures |b| == Size(m)
  {
    Header(m) + m.data
  }

  ghost predicate AllStorable(queue: seq<Message>) {
    forall i :: 0 <= i < |queue| ==> Storable(queue[i])
  }

  ghost function CodedAll(queue: seq<Message>): (b: seq<Byte>)
    requires AllStorable(queue)
    ensures |b| == Stored(queue)
  {
    if queue == [] then [] else CodedAll(queue[..|queue| - 1]) + Coded(queue[|queue| - 1])
  }

  /** Adding a message adds its bytes behind all others. */
  lemma {:induction false} CodedAppend(queue: seq<Message>, m: Message)
    requires AllStorable(queue) && Storable(m)
    ensures AllStorable(queue + [m]) && CodedAll(queue + [m]) == CodedAll(queue) + Coded(m)
    ensures Stored(queue + [m]) == Stored(queue) + Size(m)
  {
    assert (queue + [m])[..|queue|] == queue;
  }

  /** The oldest message lies in front. */
  lemma {:induction false} CodedHead(queue: seq<Message>)
    requires AllStorable(queue) && queue != []
    ensures CodedAll(queue) == Coded(queue[0]) + CodedAll(queue[1..])
    ensures Stored(queue) == Size(queue[0]) + Stored(queue[1..])
  {
    hide Coded, Size;
    var n := |queue| - 1;
    if n == 0 {
      assert queue[..n] == [] && queue[1..] == [];
    } else {
      CodedHead(queue[..n]);
      assert queue[..n][1..] == queue[1..][..n - 1];
      var first, mid, last := Coded(queue[0]), CodedAll(queue[1..][..n - 1]), Coded(queue[n]);
      assert first + mid + last == first + (mid + last);
    }
  }

  /** The fields a reader takes from the header. */
  lemma {:induction false} HeaderReads(m: Message, b: seq<Byte>)
    requires Storable(m) && b == Header(m)
    ensures Get32(b[0..4]) == m.protocol && Get32(b[4..8]) == m.handle && Get32(b[8..12]) == m.status
    ensures Get32(b[12..16]) == m.txFlags && Get32(b[16..20]) == m.stamp
    ensures Get32(b[20..24]) == |m.data| && Get32(b[24..28]) == m.extra
  {
    hide Words, Get32;
    var ws: seq<Word> := [m.protocol, m.handle, m.status, m.txFlags, m.stamp, |m.data|, m.extra];
    WordAt(ws, 0);
    WordAt(ws, 1);
    WordAt(ws, 2);
    WordAt(ws, 3);
    WordAt(ws, 4);
    WordAt(ws, 5);
    WordAt(ws, 6);
  }

  // ---- The ring ----

  function Place(head: nat, i: nat): (p: nat)
    ensures p < RX_BYTES
  {
    (head + i) % RX_BYTES
  }

  lemma {:induction false} PlacesApart(head: nat, i: nat, j: nat)
    requires i < RX_BYTES && j < RX_BYTES && i != j
    ensures Place(head, i) != Place(head, j)
  {
  }

  lemma {:induction false} PlaceMoves(head: nat, n: nat, i: nat)
    ensures Place(Place(head, n), i) == Place(head, n + i)
  {
  }

  /** The byte at distance `i` from the head. */
  ghost predicate Holds(rx: seq<Byte>, head: nat, offset: nat, b: seq<Byte>)
    requires |rx| == RX_BYTES
  {
    forall i :: 0 <= i < |b| ==> rx[Place(head, offset + i)] == b[i]
  }

  lemma {:induction false} HoldsParts(rx: seq<Byte>, head: nat, offset: nat, a: seq<Byte>, b: seq<Byte>)
    requires |rx| == RX_BYTES
    ensures Holds(rx, head, offset, a + b) <==> Holds(rx, head, offset, a) && Holds(rx, head, offset + |a|, b)
  {
    hide Place;
    if Holds(rx, head, offset, a + b) {
      forall i | 0 <= i < |a| ensures rx[Place(head, offset + i)] == a[i] {
        assert (a + b)[i] == a[i];
      }
      forall i | 0 <= i < |b| ensures rx[Place(head, offset + |a| + i)] == b[i] {
        assert (a + b)[|a| + i] == b[i];
        assert rx[Place(head, offset + (|a| + i))] == b[i];
      }
    }
    if Holds(rx, head, offset, a) && Holds(rx, head, offset + |a|, b) {
      forall i | 0 <= i < |a + b| ensures rx[Place(head, offset + i)] == (a + b)[i] {
        if i >= |a| {
          assert rx[Place(head, offset + |a| + (i - |a|))] == b[i - |a|];
        }
      }
    }
  }

  lemma {:induction false} HoldsMoved(rx: seq<Byte>, head: nat, n: nat, b: seq<Byte>)
    requires |rx| == RX_BYTES && Holds(rx, head, n, b)
    ensures Holds(rx, Place(head, n), 0, b)
  {
    hide Place;
    forall i | 0 <= i < |b| ensures rx[Place(Place(head, n), 0 + i)] == b[i] {
      PlaceMoves(head, n, i);
    }
  }

  class Ring {
    const protocol: Word
    const rx: array<Byte>
    var head: nat
    var used: nat
    var overflow: bool
    ghost var queue: seq<Message>

    /** The bytes from the head on are those of the queued messages. */
    ghost predicate Valid()
      reads this, rx
    {
      && rx.Length == RX_BYTES && head < RX_BYTES
      && AllStorable(queue) && used == Stored(queue) <= RX_BYTES
      && Holds(rx[..], head, 0, CodedAll(queue))
    }

    ghost function View(): (f: Fifo)
      reads this
    {
      Fifo(queue, overflow)
    }

    constructor (protocol: Word)
      ensures Valid() && View() == Fifo([], false) && this.protocol == protocol && fresh(rx)
    {
      this.protocol := protocol;
      rx := new Byte[RX_BYTES](_ => 0);
      head, used, overflow, queue := 0, 0, false, [];
    }

    /** `ring_copy` to the ring: nothing before `offset` is touched. */
    method Put(offset: nat, data: seq<Byte>)
      requires rx.Length == RX_BYTES && head < RX_BYTES && offset + |data| <= RX_BYTES
      modifies rx
      ensures Holds(rx[..], head, offset, data)
      ensures forall i :: 0 <= i < offset ==> rx[Place(head, i)] == old(rx[Place(head, i)])
    {
      hide Place;
      var pos := Place(head, offset);
      var i := 0;
      while i < |data|
        invariant 0 <= i <= |data| && pos == Place(head, offset + i)
        invariant forall k :: 0 <= k < i ==> rx[Place(head, offset + k)] == data[k]
        invariant forall k :: 0 <= k < offset ==> rx[Place(head, k)] == old(rx[Place(head, k)])
      {
        forall k | 0 <= k < offset + i ensures Place(head, k) != pos {
          PlacesApart(head, k, offset + i);
        }
        rx[pos] := data[i];
        PlaceMoves(head, offset + i, 1);
        pos := Place(pos, 1);
        i := i + 1;
      }
    }

    /** `ring_copy` from the ring. */
    method Get(offset: nat, len: nat) returns (data: seq<Byte>)
      requires rx.Length == RX_BYTES && head < RX_BYTES
      ensures |data| == len && Holds(rx[..], head, offset, data)
    {
      hide Place;
      var pos := Place(head, offset);
      data := [];
      while |data| < len
        invariant |data| <= len && pos == Place(head, offset + |data|)
        invariant forall k :: 0 <= k < |data| ==> rx[Place(head, offset + k)] == data[k]
      {
        PlaceMoves(head, offset + |data|, 1);
        data := data + [rx[pos]];
        pos := Place(pos, 1);
      }
    }

    method Mark()
      requires Valid()
      modifies this`overflow
      ensures Valid() && View() == old(View()).(overflow := true)
    {
      overflow := true;
    }

    /** `enqueue_rx`. */
    method Enqueue(q: Request)
      requires Valid()
      modifies this, rx
      ensures Valid() && View() == Enqueued(old(View()), protocol, q)
    {
      hide Place, Holds, Header, CodedAll, Stored;
      var total := MSG_HEADER + |q.data|;
      if total > RX_BYTES - used {
        overflow := true;
        return;
      }
      var m := Made(protocol, q, overflow);
      ghost var was := rx[..];
      Put(used, Header(m));
      KeepsFront(was, rx[..], head, used, CodedAll(queue));
      ghost var mid := rx[..];
      Put(used + MSG_HEADER, m.data);
      KeepsFront(mid, rx[..], head, used + MSG_HEADER, CodedAll(queue));
      KeepsMiddle(mid, rx[..], head, used, Header(m));
      HoldsParts(rx[..], head, used, Header(m), m.data);
      HoldsParts(rx[..], head, 0, CodedAll(queue), Coded(m));
      CodedAppend(queue, m);
      used := used + total;
      overflow := false;
      queue := queue + [m];
    }

    /** `read_message`. */
    method Read() returns (a: Answer)
      requires Valid()
      modifies this
      ensures Valid() && View() == Taken(old(View())) && a == Told(old(View()))
    {
      hide Place, Holds, Header, CodedAll, Coded, Get32, AllStorable;
      if used == 0 {
        QueueEmpty(queue);
        if overflow {
          overflow := false;
          return Overflow;
        }
        return Empty;
      }
      QueueHead(rx[..], head, queue);
      ghost var m := queue[0];
      var header := Get(0, MSG_HEADER);
      SameBytes(rx[..], head, 0, header, Header(m));
      HeaderReads(m, header);
      var len := Get32(header[20..24]);
      var data := Get(MSG_HEADER, len);
      SameBytes(rx[..], head, MSG_HEADER, data, m.data);
      a := Got(Message(Get32(header[0..4]), Get32(header[4..8]), Get32(header[8..12]), Get32(header[12..16]),
                       Get32(header[16..20]), data, Get32(header[24..28])));
      var total := MSG_HEADER + len;
      HoldsMoved(rx[..], head, total, CodedAll(queue[1..]));
      head := Place(head, total);
      used := used - total;
      queue := queue[1..];
    }
  }

  lemma {:induction false} KeepsFront(was: seq<Byte>, now: seq<Byte>, head: nat, n: nat, b: seq<Byte>)
    requires |was| == |now| == RX_BYTES && |b| <= n && Holds(was, head, 0, b)
    requires forall i :: 0 <= i < n ==> now[Place(head, i)] == was[Place(head, i)]
    ensures Holds(now, head, 0, b)
  {
    hide Place;
    forall i | 0 <= i < |b| ensures now[Place(head, 0 + i)] == b[i] {
      assert was[Place(head, 0 + i)] == b[i];
    }
  }

  lemma {:induction false} KeepsMiddle(was: seq<Byte>, now: seq<Byte>, head: nat, offset: nat, b: seq<Byte>)
    requires |was| == |now| == RX_BYTES && Holds(was, head, offset, b)
    requires forall i :: 0 <= i < offset + |b| ==> now[Place(head, i)] == was[Place(head, i)]
    ensures Holds(now, head, offset, b)
  {
    hide Place;
  }

  lemma {:induction false} SameBytes(rx: seq<Byte>, head: nat, offset: nat, a: seq<Byte>, b: seq<Byte>)
    requires |rx| == RX_BYTES && |a| == |b| && Holds(rx, head, offset, a) && Holds(rx, head, offset, b)
    ensures a == b
  {
    hide Place;
    forall i | 0 <= i < |a| ensures a[i] == b[i] {
      assert rx[Place(head, offset + i)] == a[i];
    }
  }

  lemma {:induction false} QueueEmpty(queue: seq<Message>)
    requires Stored(queue) == 0
    ensures queue == []
  {
  }

  /** What the ring holds in front: the oldest message, and then the others. */
  lemma {:induction false} QueueHead(rx: seq<Byte>, head: nat, queue: seq<Message>)
    requires |rx| == RX_BYTES && AllStorable(queue) && Stored(queue) > 0 && Holds(rx, head, 0, CodedAll(queue))
    ensures queue != [] && AllStorable(queue[1..])
    ensures Holds(rx, head, 0, Header(queue[0])) && Holds(rx, head, MSG_HEADER, queue[0].data)
    ensures Holds(rx, head, Size(queue[0]), CodedAll(queue[1..]))
    ensures Stored(queue) == Size(queue[0]) + Stored(queue[1..])
  {
    hide Place, Holds, Header;
    CodedHead(queue);
    HoldsParts(rx, head, 0, Coded(queue[0]), CodedAll(queue[1..]));
    HoldsParts(rx, head, 0, Header(queue[0]), queue[0].data);
  }

  // ---- Whole runs ----

  /** Messages arrive, the bus driver reports a loss of its own, the host reads. */
  datatype Op = Arrive(q: Request) | BusLoss | Fetch

  /** What becomes of each. */
  datatype Seen = Kept(m: Message) | Dropped | Answered(a: Answer)

  function Apply(f: Fifo, protocol: Word, op: Op): (r: Fifo)
    requires Stored(f.queue) <= RX_BYTES
  {
    match op
    case Arrive(q) => Enqueued(f, protocol, q)
    case BusLoss => f.(overflow := true)
    case Fetch => Taken(f)
  }

  function Shown(f: Fifo, protocol: Word, op: Op): (s: Seen)
    requires Stored(f.queue) <= RX_BYTES
  {
    match op
    case Arrive(q) => if Fits(f.queue, q) then Kept(Made(protocol, q, f.overflow)) else Dropped
    case BusLoss => Dropped
    case Fetch => Answered(Told(f))
  }

  lemma {:induction false} StoredParts(a: seq<Message>, b: seq<Message>)
    ensures Stored(a + b) == Stored(a) + Stored(b)
  {
    if b == [] {
      assert a + b == a;
    } else {
      var n := |b| - 1;
      StoredParts(a, b[..n]);
      assert (a + b)[..|a| + n] == a + b[..n];
    }
  }

  lemma {:induction false} ApplyFits(f: Fifo, protocol: Word, op: Op)
    requires Stored(f.queue) <= RX_BYTES
    ensures Stored(Apply(f, protocol, op).queue) <= RX_BYTES
  {
    if op.Arrive? && Fits(f.queue, op.q) {
      StoredParts(f.queue, [Made(protocol, op.q, f.overflow)]);
    } else if f.queue != [] {
      StoredParts(f.queue[..1], f.queue[1..]);
      assert f.queue == f.queue[..1] + f.queue[1..];
    }
  }

  ghost function After(protocol: Word, ops: seq<Op>): (f: Fifo)
    ensures Stored(f.queue) <= RX_BYTES
  {
    if ops == [] then Fifo([], false)
    else
      var f := After(protocol, ops[..|ops| - 1]);
      ApplyFits(f, protocol, ops[|ops| - 1]);
      Apply(f, protocol, ops[|ops| - 1])
  }

  ghost function Trace(protocol: Word, ops: seq<Op>): (t: seq<Seen>)
    ensures |t| == |ops|
  {
    if ops == [] then []
    else
      var n := |ops| - 1;
      Trace(protocol, ops[..n]) + [Shown(After(protocol, ops[..n]), protocol, ops[n])]
  }

  /** The messages that went into the ring, and those that came out. */
  ghost function KeptOf(t: seq<Seen>): (ms: seq<Message>) {
    if t == [] then []
    else KeptOf(t[..|t| - 1]) + (match t[|t| - 1] case Kept(m) => [m] case _ => [])
  }

  ghost function ReadOf(t: seq<Seen>): (ms: seq<Message>) {
    if t == [] then []
    else ReadOf(t[..|t| - 1]) + (match t[|t| - 1] case Answered(Got(m)) => [m] case _ => [])
  }

  /** Something was lost since the last message was stored or the host last
      found the ring empty. */
  ghost predicate Owed(t: seq<Seen>) {
    t != [] &&
    match t[|t| - 1]
    case Dropped => true
    case Answered(Got(_)) => Owed(t[..|t| - 1])
    case _ => false
  }

  /** The message as it was handed in, field by field: on this protocol, without
      transmit flags, with bit 6 of the status set if it was or an overflow is to
      be reported and its other bits as they were, and counted as extra data
      unless it is an indication. */
  ghost predicate StoredAs(m: Message, protocol: Word, q: Request, overflow: bool) {
    && m.protocol == protocol && m.handle == q.handle && m.stamp == q.stamp && m.data == q.data
    && m.txFlags == 0 && m.extra == (if q.indication then 0 else |q.data|)
    && m.status % 64 == q.status % 64 && m.status / 128 == q.status / 128
    && (m.status / 64 % 2 == 1 <==> overflow || q.status / 64 % 2 == 1)
  }

  /** What the trace so far makes of the next operation; the ring has 8192 bytes,
      and a message takes 28 more than its data. */
  ghost predicate Expected(t: seq<Seen>, protocol: Word, op: Op, s: Seen)
    requires |ReadOf(t)| <= |KeptOf(t)|
  {
    var waiting := KeptOf(t)[|ReadOf(t)|..];
    match op
    case Arrive(q) =>
      if 28 + |q.data| + Stored(waiting) <= 8192 then s.Kept? && StoredAs(s.m, protocol, q, Owed(t)) else s.Dropped?
    case BusLoss => s.Dropped?
    case Fetch =>
      s == Answered(if waiting != [] then Got(waiting[0]) else if Owed(t) then Overflow else Empty)
  }

  lemma {:induction false} MadeAsStored(protocol: Word, q: Request, overflow: bool)
    requires MSG_HEADER + |q.data| <= RX_BYTES
    ensures StoredAs(Made(protocol, q, overflow), protocol, q, overflow)
  {
    var r := Marked(q.status, overflow);
    if r != q.status {
      assert q.status == 128 * (q.status / 128) + q.status % 64;
    }
  }

  lemma {:induction false} Follows(protocol: Word, ops: seq<Op>)
    ensures var t, f := Trace(protocol, ops), After(protocol, ops);
            KeptOf(t) == ReadOf(t) + f.queue && f.overflow == Owed(t)
  {
    if ops != [] {
      var n := |ops| - 1;
      Follows(protocol, ops[..n]);
      FollowsStep(Trace(protocol, ops[..n]), After(protocol, ops[..n]), protocol, ops[n], Trace(protocol, ops));
    }
  }

  lemma {:induction false} FollowsStep(t: seq<Seen>, f: Fifo, protocol: Word, op: Op, t': seq<Seen>)
    requires Stored(f.queue) <= RX_BYTES && KeptOf(t) == ReadOf(t) + f.queue && f.overflow == Owed(t)
    requires t' == t + [Shown(f, protocol, op)]
    ensures var f' := Apply(f, protocol, op); KeptOf(t') == ReadOf(t') + f'.queue && f'.overflow == Owed(t')
  {
    hide Made, Fits;
    var s := Shown(f, protocol, op);
    assert t'[..|t|] == t && t'[|t|] == s;
    if s.Kept? {
      assert ReadOf(t) + f.queue + [s.m] == ReadOf(t) + (f.queue + [s.m]);
    } else if s.Answered? && s.a.Got? {
      assert f.queue == [s.a.m] + f.queue[1..];
    }
  }

  /** The ring is a FIFO of messages, over every run: what becomes of each
      operation depends only on what was seen before it. A read gives the oldest
      message kept and not yet read, exactly as it was stored; a message is kept
      if and only if it fits beside those waiting; and a message that is stored
      carries the overflow mark, and an empty ring answers "overflow", exactly
      when something was lost since the last time either could have said so. */
  lemma {:induction false} RingIsFifo(protocol: Word, ops: seq<Op>, i: nat)
    requires i < |ops|
    ensures var t := Trace(protocol, ops);
            |ReadOf(t[..i])| <= |KeptOf(t[..i])| && Expected(t[..i], protocol, ops[i], t[i])
  {
    var n := |ops| - 1;
    var t := Trace(protocol, ops);
    assert t[..n] == Trace(protocol, ops[..n]);
    if i < n {
      RingIsFifo(protocol, ops[..n], i);
      assert t[..n][..i] == t[..i] && t[i] == t[..n][i];
    } else {
      var f := After(protocol, ops[..n]);
      Follows(protocol, ops[..n]);
      assert KeptOf(t[..n])[|ReadOf(t[..n])|..] == f.queue;
      if ops[n].Arrive? && Fits(f.queue, ops[n].q) {
        MadeAsStored(protocol, ops[n].q, f.overflow);
      }
    }
  }

  /** Times that the ring began to owe a report, and that it gave one. */
  ghost function Episodes(t: seq<Seen>): (n: nat) {
    if t == [] then 0
    else Episodes(t[..|t| - 1]) + if t[|t| - 1].Dropped? && !Owed(t[..|t| - 1]) then 1 else 0
  }

  ghost function Reports(t: seq<Seen>): (n: nat) {
    if t == [] then 0
    else
      var was, s := t[..|t| - 1], t[|t| - 1];
      Reports(was) + if Owed(was) && (s.Kept? || s == Answered(Overflow)) then 1 else 0
  }

  /** Every overflow episode is reported once, and none that did not happen. */
  lemma {:induction false} EveryEpisodeReportedOnce(protocol: Word, ops: seq<Op>)
    ensures var t := Trace(protocol, ops);
            Episodes(t) == Reports(t) + (if Owed(t) then 1 else 0)
  {
    if ops != [] {
      var n := |ops| - 1;
      var t := Trace(protocol, ops);
      assert t[..n] == Trace(protocol, ops[..n]);
      EveryEpisodeReportedOnce(protocol, ops[..n]);
      RingIsFifo(protocol, ops, n);
    }
  }
}
