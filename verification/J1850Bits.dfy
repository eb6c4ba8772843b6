/** Bits, most significant first, and the accumulator that packs them back into
    the bytes of a message. */
module J1850Bits {
  import opened J1850Crc

  const MAX_FRAME := 12

  /** `1 << (7 - n)`. */
  function Mask(n: nat): (m: Octet)
    requires n < 8
  {
    if n == 0 then 0x80 else Mask(n - 1) >> 1
  }

  function MaskTable(n: nat): (m: Octet)
    requires n < 8
  {
    if n == 0 then 0x80 else if n == 1 then 0x40 else if n == 2 then 0x20 else if n == 3 then 0x10
    else if n == 4 then 0x08 else if n == 5 then 0x04 else if n == 6 then 0x02 else 0x01
  }

  lemma {:induction false} MaskIsTable(n: nat)
    requires n < 8
    ensures Mask(n) == MaskTable(n)
  {
    if n > 0 {
      MaskIsTable(n - 1);
    }
  }

  /** Bit `n` of a byte, counted from the top. */
  predicate Bit(b: Octet, n: nat)
    requires n < 8
    decreases n
  {
    if n == 0 then b & 0x80 != 0 else Bit(b << 1, n - 1)
  }

  predicate Hits(b: Octet, m: Octet) { b & m != 0 }

  lemma {:induction false} BitIsMasked(b: Octet, n: nat)
    requires n < 8
    ensures Bit(b, n) <==> Hits(b, MaskTable(n))
    decreases n
  {
    if n > 0 {
      BitIsMasked(b << 1, n - 1);
      assert (b << 1) & MaskTable(n - 1) != 0 <==> b & MaskTable(n) != 0;
    }
  }

  /** The `n` highest bits of a byte. */
  function TopBits(b: Octet, n: nat): (s: seq<bool>)
    requires n <= 8
    ensures |s| == n
    ensures forall i :: 0 <= i < n ==> s[i] == Bit(b, i)
  {
    if n == 0 then [] else TopBits(b, n - 1) + [Bit(b, n - 1)]
  }

  lemma {:induction false} TopBitsAgree(b: Octet, c: Octet, n: nat)
    requires n <= 8 && forall i :: 0 <= i < n ==> Bit(b, i) == Bit(c, i)
    ensures TopBits(b, n) == TopBits(c, n)
  {
    if n > 0 {
      TopBitsAgree(b, c, n - 1);
    }
  }

  lemma {:induction false} ByteBitsInjective(b: Octet, c: Octet)
    requires TopBits(b, 8) == TopBits(c, 8)
    ensures b == c
  {
    forall i | 0 <= i < 8 ensures Bit(b, i) == Bit(c, i) {
      assert TopBits(b, 8)[i] == TopBits(c, 8)[i];
    }
    SameBits(b, c);
  }

  lemma {:induction false} SameBits(b: Octet, c: Octet)
    requires forall i :: 0 <= i < 8 ==> Bit(b, i) == Bit(c, i)
    ensures b == c
  {
    forall i | 0 <= i < 8 ensures b & MaskTable(i) != 0 <==> c & MaskTable(i) != 0 {
      BitIsMasked(b, i);
      BitIsMasked(c, i);
    }
    SameMasked(b, c);
  }

  lemma {:induction false} SameMasked(b: Octet, c: Octet)
    requires forall i :: 0 <= i < 8 ==> (b & MaskTable(i) != 0 <==> c & MaskTable(i) != 0)
    ensures b == c
  {
    assert MaskTable(0) == 0x80 && MaskTable(1) == 0x40 && MaskTable(2) == 0x20 && MaskTable(3) == 0x10;
    assert MaskTable(4) == 0x08 && MaskTable(5) == 0x04 && MaskTable(6) == 0x02 && MaskTable(7) == 0x01;
  }

  /** All bits of a message in the order they go on the wire. */
  function AllBits(d: seq<Octet>): (s: seq<bool>)
    ensures |s| == 8 * |d|
  {
    if d == [] then [] else AllBits(d[..|d| - 1]) + TopBits(d[|d| - 1], 8)
  }

  /** Bit `i` of the message is bit `i % 8` of byte `i / 8`. */
  lemma {:induction false} AllBitsAt(d: seq<Octet>, i: nat)
    requires i < 8 * |d|
    ensures AllBits(d)[i] == Bit(d[i / 8], i % 8)
  {
    if i < 8 * (|d| - 1) {
      AllBitsAt(d[..|d| - 1], i);
    } else {
      assert i / 8 == |d| - 1;
    }
  }

  lemma {:induction false} AllBitsInjective(d: seq<Octet>, e: seq<Octet>)
    requires AllBits(d) == AllBits(e)
    ensures d == e
  {
    assert |d| == |e|;
    if d != [] {
      var n := |d| - 1;
      var dh, eh := AllBits(d[..n]), AllBits(e[..n]);
      assert dh == AllBits(d)[..8 * n] == eh;
      assert TopBits(d[n], 8) == AllBits(d)[8 * n..] == TopBits(e[n], 8);
      AllBitsInjective(d[..n], e[..n]);
      ByteBitsInjective(d[n], e[n]);
      assert d == d[..n] + [d[n]] && e == e[..n] + [e[n]];
    }
  }

  /** Whole bytes, and `count` bits of the next one. */
  datatype Packer = Packer(bytes: seq<Octet>, cur: Octet, count: nat)

  const EMPTY := Packer([], 0, 0)

  /** The bits of `cur` below the `count` highest are clear. */
  ghost predicate PackerValid(p: Packer) {
    p.count < 8 && ClearFrom(p.cur, p.count)
  }

  predicate Full(p: Packer) { p.count == 0 && |p.bytes| >= MAX_FRAME }

  /** `push_bit`, when there is room. */
  function Push(p: Packer, one: bool): (r: Packer)
    requires p.count < 8
    ensures r.count < 8
  {
    var cur := Settled(p.cur, p.count, one);
    if p.count == 7 then Packer(p.bytes + [cur], 0, 0) else Packer(p.bytes, cur, p.count + 1)
  }

  /** Every bit pushed so far. */
  ghost function Content(p: Packer): (s: seq<bool>)
    requires p.count < 8
    ensures |s| == 8 * |p.bytes| + p.count
  {
    AllBits(p.bytes) + TopBits(p.cur, p.count)
  }

  lemma {:induction false} MaskBits(cur: Octet, n: nat, i: nat)
    requires n < 8 && i < 8
    ensures i != n ==> Bit(cur | Mask(n), i) == Bit(cur, i)
    ensures Bit(cur | Mask(n), n)
  {
    hide *;
    MaskIsTable(n);
    BitIsMasked(cur | MaskTable(n), i);
    BitIsMasked(cur, i);
    BitIsMasked(cur | MaskTable(n), n);
    MasksApart(cur, MaskTable(n), MaskTable(i));
    MasksApart(cur, MaskTable(n), MaskTable(n));
    MaskTables(n, i);
    MaskTables(n, n);
  }

  lemma {:induction false} MasksApart(cur: Octet, a: Octet, b: Octet)
    ensures Hits(cur | a, b) <==> Hits(cur, b) || Hits(a, b)
  {
  }

  lemma {:induction false} MaskTables(n: nat, i: nat)
    requires n < 8 && i < 8
    ensures Hits(MaskTable(n), MaskTable(i)) <==> n == i
  {
  }

  lemma {:induction false} NoBits(i: nat)
    requires i < 8
    ensures !Bit(0, i)
  {
    BitIsMasked(0, i);
  }

  /** The byte being packed, with bit `n` settled. */
  function Settled(cur: Octet, n: nat, one: bool): (r: Octet)
    requires n < 8
  {
    if one then cur | Mask(n) else cur
  }

  /** The bits of `b` from `n` down are clear. */
  ghost predicate ClearFrom(b: Octet, n: nat) {
    forall i :: n <= i < 8 ==> !Bit(b, i)
  }

  lemma {:induction false} SettledBits(cur: Octet, n: nat, one: bool)
    requires n < 8 && ClearFrom(cur, n)
    ensures TopBits(Settled(cur, n, one), n) == TopBits(cur, n)
    ensures Bit(Settled(cur, n, one), n) == one
    ensures ClearFrom(Settled(cur, n, one), n + 1)
  {
    var r := Settled(cur, n, one);
    forall i | 0 <= i < 8 ensures i != n ==> Bit(r, i) == Bit(cur, i) {
      MaskBits(cur, n, i);
    }
    MaskBits(cur, n, n);
    TopBitsAgree(r, cur, n);
  }

  lemma {:induction false} ZeroIsClear()
    ensures ClearFrom(0, 0)
  {
    forall i | 0 <= i < 8 ensures !Bit(0, i) { NoBits(i); }
  }

  /** Packing a bit appends it to the content and disturbs none before it. */
  lemma {:induction false} PushAppends(p: Packer, one: bool)
    requires PackerValid(p)
    ensures PackerValid(Push(p, one))
    ensures Content(Push(p, one)) == Content(p) + [one]
  {
    SettledBits(p.cur, p.count, one);
    PushedContent(p, one, Settled(p.cur, p.count, one));
  }

  lemma {:induction false} PushedContent(p: Packer, one: bool, cur: Octet)
    requires PackerValid(p) && cur == Settled(p.cur, p.count, one)
    requires TopBits(cur, p.count) == TopBits(p.cur, p.count) && Bit(cur, p.count) == one
    requires ClearFrom(cur, p.count + 1)
    ensures PackerValid(Push(p, one))
    ensures Content(Push(p, one)) == Content(p) + [one]
  {
    var n, top := p.count, TopBits(p.cur, p.count);
    assert TopBits(cur, n + 1) == top + [one];
    if n == 7 {
      ByteDone(p.bytes, cur, top, one);
      ZeroIsClear();
    } else {
      ByteOpen(p.bytes, cur, n, top, one);
    }
  }

  lemma {:induction false} ByteDone(bytes: seq<Octet>, cur: Octet, top: seq<bool>, one: bool)
    requires TopBits(cur, 8) == top + [one]
    ensures Content(Packer(bytes + [cur], 0, 0)) == AllBits(bytes) + top + [one]
  {
    AllBitsAppend(bytes, cur);
    assert TopBits(0, 0) == [];
    assert AllBits(bytes) + (top + [one]) == AllBits(bytes) + top + [one];
  }

  lemma {:induction false} ByteOpen(bytes: seq<Octet>, cur: Octet, n: nat, top: seq<bool>, one: bool)
    requires n < 7 && TopBits(cur, n + 1) == top + [one]
    ensures Content(Packer(bytes, cur, n + 1)) == AllBits(bytes) + top + [one]
  {
    assert AllBits(bytes) + (top + [one]) == AllBits(bytes) + top + [one];
  }

  lemma {:induction false} AllBitsAppend(d: seq<Octet>, b: Octet)
    ensures AllBits(d + [b]) == AllBits(d) + TopBits(b, 8)
  {
    assert (d + [b])[..|d|] == d;
  }

  /** The packer after these bits. */
  ghost function PackAll(bits: seq<bool>): (p: Packer)
    ensures p.count < 8 && 8 * |p.bytes| + p.count == |bits|
  {
    if bits == [] then EMPTY else Push(PackAll(bits[..|bits| - 1]), bits[|bits| - 1])
  }

  lemma {:induction false} PackNext(bits: seq<bool>, one: bool)
    ensures Push(PackAll(bits), one) == PackAll(bits + [one])
  {
    assert (bits + [one])[..|bits|] == bits;
  }

  lemma {:induction false} PackedContent(bits: seq<bool>)
    ensures PackerValid(PackAll(bits)) && Content(PackAll(bits)) == bits
  {
    if bits == [] {
      ZeroIsClear();
    } else {
      var init, last := bits[..|bits| - 1], bits[|bits| - 1];
      PackedContent(init);
      PushAppends(PackAll(init), last);
      assert bits == init + [last];
    }
  }

  /** Packing the bits of a message gives back the message. */
  lemma {:induction false} PackUnpacks(d: seq<Octet>)
    ensures PackAll(AllBits(d)).count == 0 && PackAll(AllBits(d)).bytes == d
  {
    hide Push, TopBits;
    var p := PackAll(AllBits(d));
    PackedContent(AllBits(d));
    assert Content(p) == AllBits(p.bytes);
    AllBitsInjective(p.bytes, d);
  }

  /** Whole bytes that came out of the packer have the bits that went in. */
  lemma {:induction false} UnpackPacks(bits: seq<bool>)
    requires PackAll(bits).count == 0
    ensures AllBits(PackAll(bits).bytes) == bits
  {
    PackedContent(bits);
    assert Content(PackAll(bits)) == AllBits(PackAll(bits).bytes);
  }

  // ---- Shifting in, as the stream and quick decoders do ----

  /** `(byte << 1) | one`. */
  function ShiftIn(b: Octet, one: bool): (r: Octet) {
    (b << 1) | (if one then 1 else 0)
  }

  ghost function ShiftAll(bits: seq<bool>): (b: Octet) {
    if bits == [] then 0 else ShiftIn(ShiftAll(bits[..|bits| - 1]), bits[|bits| - 1])
  }

  lemma {:induction false} ShiftNext(bits: seq<bool>, one: bool)
    ensures ShiftIn(ShiftAll(bits), one) == ShiftAll(bits + [one])
  {
    assert (bits + [one])[..|bits|] == bits;
  }

  /** Eight bits shifted in, first one on top. */
  function Octet8(b0: bool, b1: bool, b2: bool, b3: bool, b4: bool, b5: bool, b6: bool, b7: bool): (r: Octet)
  {
    ShiftIn(ShiftIn(ShiftIn(ShiftIn(ShiftIn(ShiftIn(ShiftIn(ShiftIn(0, b0), b1), b2), b3), b4), b5), b6), b7)
  }

  lemma {:induction false} EightIn(b0: bool, b1: bool, b2: bool, b3: bool, b4: bool, b5: bool, b6: bool, b7: bool)
    ensures var r := Octet8(b0, b1, b2, b3, b4, b5, b6, b7);
            && (r & 0x80 != 0) == b0 && (r & 0x40 != 0) == b1 && (r & 0x20 != 0) == b2 && (r & 0x10 != 0) == b3
            && (r & 0x08 != 0) == b4 && (r & 0x04 != 0) == b5 && (r & 0x02 != 0) == b6 && (r & 0x01 != 0) == b7
  {
  }

  lemma {:induction false} ShiftPrefix(bits: seq<bool>, k: nat)
    requires k < |bits|
    ensures ShiftAll(bits[..k + 1]) == ShiftIn(ShiftAll(bits[..k]), bits[k])
  {
    assert bits[..k + 1][..k] == bits[..k];
  }

  lemma {:induction false} ShiftUnrolled(bits: seq<bool>)
    requires |bits| == 8
    ensures ShiftAll(bits) == Octet8(bits[0], bits[1], bits[2], bits[3], bits[4], bits[5], bits[6], bits[7])
  {
    hide ShiftIn;
    assert ShiftAll(bits[..0]) == 0;
    ShiftPrefix(bits, 0);
    ShiftPrefix(bits, 1);
    ShiftPrefix(bits, 2);
    ShiftPrefix(bits, 3);
    ShiftPrefix(bits, 4);
    ShiftPrefix(bits, 5);
    ShiftPrefix(bits, 6);
    ShiftPrefix(bits, 7);
    assert bits[..8] == bits;
  }

  lemma {:induction false} ShiftAllEight(bits: seq<bool>)
    requires |bits| == 8
    ensures TopBits(ShiftAll(bits), 8) == bits
  {
    hide *;
    ShiftUnrolled(bits);
    EightIn(bits[0], bits[1], bits[2], bits[3], bits[4], bits[5], bits[6], bits[7]);
    BitsOfOctet(ShiftAll(bits), bits);
  }

  lemma {:induction false} BitsOfOctet(r: Octet, bits: seq<bool>)
    requires |bits| == 8
    requires && (r & 0x80 != 0) == bits[0] && (r & 0x40 != 0) == bits[1] && (r & 0x20 != 0) == bits[2]
             && (r & 0x10 != 0) == bits[3] && (r & 0x08 != 0) == bits[4] && (r & 0x04 != 0) == bits[5]
             && (r & 0x02 != 0) == bits[6] && (r & 0x01 != 0) == bits[7]
    ensures TopBits(r, 8) == bits
  {
    forall i | 0 <= i < 8 ensures TopBits(r, 8)[i] == bits[i] {
      BitIsMasked(r, i);
    }
  }

  /** A byte shifted in is the byte packed: the whole bytes of `bits` and
      eight more are those of `bits` and then the eight. */
  lemma {:induction false} WholeByte(bits: seq<bool>, eight: seq<bool>)
    requires |bits| % 8 == 0 && |eight| == 8
    ensures PackAll(bits + eight).count == 0
    ensures PackAll(bits + eight).bytes == PackAll(bits).bytes + [ShiftAll(eight)]
  {
    PackedWhole(bits);
    ShiftAllEight(eight);
    JoinByte(PackAll(bits).bytes, ShiftAll(eight), bits, eight, bits + eight);
  }

  lemma {:induction false} PackedWhole(bits: seq<bool>)
    requires |bits| % 8 == 0
    ensures AllBits(PackAll(bits).bytes) == bits
  {
    var p := PackAll(bits);
    assert p.count < 8 && 8 * |p.bytes| + p.count == |bits|;
    assert p.count == 0;
    UnpackPacks(bits);
  }

  lemma {:induction false} JoinByte(head: seq<Octet>, last: Octet, hb: seq<bool>, lb: seq<bool>, bits: seq<bool>)
    requires AllBits(head) == hb && TopBits(last, 8) == lb && bits == hb + lb
    ensures PackAll(bits).count == 0 && PackAll(bits).bytes == head + [last]
  {
    AllBitsAppend(head, last);
    PackUnpacks(head + [last]);
  }

  /** Bits short of a byte do not change the whole bytes. */
  lemma {:induction false} PartByte(bits: seq<bool>, n: nat)
    requires n % 8 == 0 && n <= |bits| < n + 8
    ensures PackAll(bits).bytes == PackAll(bits[..n]).bytes && PackAll(bits).count == |bits| - n
  {
    if |bits| == n {
      assert bits[..n] == bits;
    } else {
      var init := bits[..|bits| - 1];
      PartByte(init, n);
      assert init[..n] == bits[..n];
    }
  }
}
