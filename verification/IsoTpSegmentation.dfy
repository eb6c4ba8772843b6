/** How a payload is cut into frames: the independent, index-based reference
    that the sender's running offset and the receiver's reassembly are compared with. */
module IsoTpSegmentation {
  import opened Bytes
  import opened Numbers
  import opened IsoTp

  /** `count` full consecutive frames carry this many bytes. */
  function Full(c: Config, count: int): (n: int) {
    if c.extended then 6 * count else 7 * count
  }

  /** Frames needed for `n` bytes: 1, or 1 + ceil((n - (6-a)) / (7-a)). */
  function FrameCount(c: Config, n: nat): (count: nat)
    ensures count >= 1
    ensures n <= 7 - Addr(c) ==> count == 1
    ensures n > 7 - Addr(c) ==>
      count >= 2 && Full(c, count - 2) < n - (6 - Addr(c)) <= Full(c, count - 1)
  {
    if n <= 7 - Addr(c) then 1 else if c.extended then 1 + n / 6 else 1 + n / 7
  }

  /** Where frame `k` starts in a payload of `n` bytes. */
  function OffsetOf(c: Config, n: nat, k: nat): (offset: nat)
    ensures offset <= n
  {
    if k == 0 then 0
    else if n <= 7 - Addr(c) then n
    else Min(n, 6 - Addr(c) + Full(c, k - 1))
  }

  /** Frame `k` of the transfer of `payload`. */
  function NthFrame(c: Config, payload: seq<Byte>, k: nat): (f: Frame)
    requires |payload| <= MAX_PAYLOAD
  {
    DataFrame(c, payload, OffsetOf(c, |payload|, k), k % 16)
  }

  lemma {:induction false} OffsetBounds(c: Config, n: nat, k: nat)
    requires n > 0
    ensures k < FrameCount(c, n) ==> OffsetOf(c, n, k) < n
    ensures k >= FrameCount(c, n) ==> OffsetOf(c, n, k) == n
  {
  }

  /** Consecutive frames are adjacent: none overlaps and none leaves a hole. */
  lemma {:induction false} OffsetStep(c: Config, n: nat, k: nat)
    requires k < FrameCount(c, n) && n > 0
    ensures OffsetOf(c, n, k) + SizeAt(c, n, OffsetOf(c, n, k)) == OffsetOf(c, n, k + 1)
    ensures k > 0 ==> OffsetOf(c, n, k) > 0
  {
  }

  /** A prefix and the bytes behind it are a longer prefix. */
  lemma {:induction false} PrefixGrows(p: seq<Byte>, offset: nat, size: nat)
    requires offset + size <= |p|
    ensures p[..offset] + p[offset..offset + size] == p[..offset + size]
    ensures offset + size == |p| ==> p[..offset + size] == p
  {
  }

  /** What a reader finds in a data frame: address, header, body, length. */
  ghost predicate Reads(c: Config, payload: seq<Byte>, offset: nat, sequence: nat, f: Frame)
    requires offset < |payload| <= MAX_PAYLOAD && sequence < 16
  {
    var a := Addr(c);
    var h := if offset == 0 && |payload| > 7 - a then 2 else 1;
    var size := SizeAt(c, |payload|, offset);
    && f.id == c.txId && (c.pad ==> f.dlc == 8) && a + h + size <= f.dlc <= 8
    && (c.extended ==> f.data[0] == c.txAddress)
    && f.data[a + h..a + h + size] == payload[offset..offset + size]
    && (offset > 0 ==> f.data[a] == 0x20 + sequence)
    && (offset == 0 && h == 1 ==> f.data[a] == |payload|)
    && (h == 2 ==> f.data[a] == 0x10 + |payload| / 256 && f.data[a + 1] == |payload| % 256
                   && f.dlc == 8)
  }

  lemma {:induction false} DataFrameReads(c: Config, payload: seq<Byte>, offset: nat, sequence: nat)
    requires offset < |payload| <= MAX_PAYLOAD && sequence < 16
    ensures Reads(c, payload, offset, sequence, DataFrame(c, payload, offset, sequence))
  {
    hide Overlay;
    var f := DataFrame(c, payload, offset, sequence);
    var a := Addr(c);
    var header := HeaderAt(c, |payload|, offset, sequence);
    var size := SizeAt(c, |payload|, offset);
    var body := payload[offset..offset + size];
    assert |body| == size;
    OverlayReads(Prepared(c), a, header, body);
  }

  lemma {:induction false} OverlayReads(base: seq<Byte>, a: nat, header: seq<Byte>, body: seq<Byte>)
    requires 1 <= |header| <= 2 && a + |header| + |body| <= |base|
    ensures var r := Overlay(base, a, header + body);
            && r[a] == header[0] && (|header| == 2 ==> r[a + 1] == header[1])
            && r[a + |header|..a + |header| + |body|] == body
            && (a > 0 ==> r[0] == base[0])
  {
  }

  /** Every frame the sender builds is one the receiver listens to. */
  ghost predicate Linked(sender: Config, receiver: Config) {
    && sender.extended == receiver.extended
    && ValidId(sender.txId)
    && IdMatches(sender.txId, receiver.rxId, receiver.rxMask)
    && (sender.extended ==> sender.txAddress == receiver.rxAddress)
  }

  lemma {:induction false} LinkedMatches(sender: Config, receiver: Config, f: Frame)
    requires Linked(sender, receiver)
    requires f.id == sender.txId && Addr(sender) < f.dlc <= 8
    requires sender.extended ==> f.data[0] == sender.txAddress
    ensures Matches(receiver, f)
  {
  }

  /** `f` reads as frame `k` of the transfer of `p`. */
  ghost predicate Carries(c: Config, p: seq<Byte>, k: nat, f: Frame)
    requires 0 < |p| <= MAX_PAYLOAD && k < FrameCount(c, |p|)
  {
    var a := Addr(c);
    var offset := OffsetOf(c, |p|, k);
    var size := SizeAt(c, |p|, offset);
    var body := if k == 0 && |p| > 7 - a then a + 2 else a + 1;
    && body + size <= f.dlc <= 8 && (c.pad ==> f.dlc == 8)
    && f.data[body..body + size] == p[offset..offset + size]
    && if k > 0 then High(f.data[a]) == 2 && Low(f.data[a]) == k % 16
       else if |p| <= 7 - a then High(f.data[a]) == 0 && Low(f.data[a]) == |p|
       else High(f.data[a]) == 1 && Low(f.data[a]) * 256 + f.data[a + 1] == |p| && f.dlc == 8
  }

  lemma {:induction false} ReadsCarries(c: Config, p: seq<Byte>, k: nat, f: Frame)
    requires 0 < |p| <= MAX_PAYLOAD && k < FrameCount(c, |p|)
    requires OffsetOf(c, |p|, k) < |p| && (k > 0 ==> OffsetOf(c, |p|, k) > 0)
    requires Reads(c, p, OffsetOf(c, |p|, k), k % 16, f)
    ensures Carries(c, p, k, f)
  {
    if k > 0 {
      assert High(0x20 + k % 16) == 2 && Low(0x20 + k % 16) == k % 16;
    } else if |p| > 7 - Addr(c) {
      assert High(0x10 + |p| / 256) == 1 && Low(0x10 + |p| / 256) == |p| / 256;
    }
  }

  /** Every frame of a transfer carries its part and reaches the linked peer. */
  lemma {:induction false} NthFrameCarries(sender: Config, receiver: Config, p: seq<Byte>, k: nat)
    requires Linked(sender, receiver)
    requires 0 < |p| <= MAX_PAYLOAD && k < FrameCount(sender, |p|)
    ensures Carries(sender, p, k, NthFrame(sender, p, k))
    ensures Matches(receiver, NthFrame(sender, p, k))
  {
    var offset := OffsetOf(sender, |p|, k);
    OffsetBounds(sender, |p|, k);
    OffsetStep(sender, |p|, k);
    DataFrameReads(sender, p, offset, k % 16);
    ReadsCarries(sender, p, k, NthFrame(sender, p, k));
    LinkedMatches(sender, receiver, NthFrame(sender, p, k));
  }
}
