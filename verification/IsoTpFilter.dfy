/** Which frames the transport listens to, bit by bit, and that all others pass
    it by. */
module IsoTpFilter {
  import opened Clock
  import opened Numbers
  import opened IsoTp
  import opened IsoTpReceiver
  import opened IsoTpTimeouts

  ghost predicate SameUnder(x: nat, y: nat, mask: nat) {
    forall i: nat :: BitOf(mask, i) ==> (BitOf(x, i) <==> BitOf(y, i))
  }

  lemma {:induction false} NoBits(i: nat)
    ensures !BitOf(0, i)
    decreases i
  {
    if i > 0 {
      NoBits(i - 1);
    }
  }

  /** The comparison under a mask compares every bit of the mask. */
  lemma {:induction false} AgreeOnBits(x: nat, y: nat, mask: nat)
    ensures AgreeOn(x, y, mask) <==> SameUnder(x, y, mask)
    decreases mask
  {
    if mask == 0 {
      forall i: nat ensures !BitOf(mask, i) { NoBits(i); }
    } else {
      AgreeOnBits(x / 2, y / 2, mask / 2);
      if SameUnder(x, y, mask) {
        LowestSame(x, y, mask);
        forall i: nat | BitOf(mask / 2, i) ensures BitOf(x / 2, i) <==> BitOf(y / 2, i) {
          assert BitOf(mask, i + 1);
          assert BitOf(x, i + 1) <==> BitOf(y, i + 1);
        }
      }
      if AgreeOn(x, y, mask) {
        forall i: nat | BitOf(mask, i) ensures BitOf(x, i) <==> BitOf(y, i) {
          if i > 0 {
            assert BitOf(mask / 2, i - 1);
          }
        }
      }
    }
  }

  lemma {:induction false} LowestSame(x: nat, y: nat, mask: nat)
    requires SameUnder(x, y, mask)
    ensures mask % 2 == 1 ==> x % 2 == y % 2
  {
    if mask % 2 == 1 {
      assert BitOf(mask, 0);
      assert BitOf(x, 0) <==> BitOf(y, 0);
    }
  }

  ghost predicate NoneIn(x: nat, k: nat, n: nat) { forall i: nat :: k <= i < n ==> !BitOf(x, i) }

  /** Bits from `k` on are clear in exactly the numbers below `2^k`. */
  lemma {:induction false} ClearAbove(x: nat, k: nat, n: nat)
    requires x < Pow2(n) && k <= n
    ensures x < Pow2(k) <==> NoneIn(x, k, n)
    decreases n
  {
    if k == n {
    } else if k == 0 {
      ClearAbove(x / 2, 0, n - 1);
      NoneShifted(x, 0, n);
      assert BitOf(x, 0) <==> x % 2 == 1;
      assert NoneIn(x, 0, n) <==> !BitOf(x, 0) && NoneIn(x, 1, n);
    } else {
      ClearAbove(x / 2, k - 1, n - 1);
      NoneShifted(x, k - 1, n);
    }
  }

  lemma {:induction false} NoneShifted(x: nat, k: nat, n: nat)
    requires n > 0
    ensures NoneIn(x / 2, k, n - 1) <==> NoneIn(x, k + 1, n)
  {
    if NoneIn(x / 2, k, n - 1) {
      forall i: nat | k + 1 <= i < n ensures !BitOf(x, i) {
        assert !BitOf(x / 2, i - 1);
      }
    }
    if NoneIn(x, k + 1, n) {
      forall i: nat | k <= i < n - 1 ensures !BitOf(x / 2, i) {
        assert !BitOf(x, i + 1);
      }
    }
  }

  lemma {:induction false} Powers()
    ensures Pow2(11) == SFF_LIMIT && Pow2(29) == EFF_LIMIT && Pow2(31) == EFF_FLAG && Pow2(32) == WRAP
  {
    assert Pow2(8) == 0x100;
    assert Pow2(16) == 0x1_0000;
    assert Pow2(24) == 0x100_0000;
  }

  lemma {:induction false} TopBit(x: nat, n: nat)
    requires x < Pow2(n + 1)
    ensures BitOf(x, n) <==> x >= Pow2(n)
    decreases n
  {
    if n > 0 {
      TopBit(x / 2, n - 1);
    }
  }

  lemma {:induction false} BelowTop(x: nat, n: nat, i: nat)
    requires Pow2(n) <= x && i < n
    ensures BitOf(x, i) <==> BitOf(x - Pow2(n), i)
    decreases n
  {
    if i > 0 {
      BelowTop(x / 2, n - 1, i - 1);
    }
  }

  /** Two words are the same if all their bits are. */
  lemma {:induction false} SameWord(x: nat, y: nat, n: nat)
    requires x < Pow2(n) && y < Pow2(n) && forall i: nat :: i < n ==> (BitOf(x, i) <==> BitOf(y, i))
    ensures x == y
    decreases n
  {
    if n > 0 {
      assert BitOf(x, 0) <==> BitOf(y, 0);
      forall i: nat | i < n - 1 ensures BitOf(x / 2, i) <==> BitOf(y / 2, i) {
        assert BitOf(x, i + 1) <==> BitOf(y, i + 1);
      }
      SameWord(x / 2, y / 2, n - 1);
    }
  }

  // ---- Identifiers ----

  /** An identifier of 29 bits, flagged in bit 31, or of 11. */
  ghost predicate IsId(id: Time) {
    forall i: nat :: (if BitOf(id, 31) then 29 else 11) <= i < 31 ==> !BitOf(id, i)
  }

  lemma {:induction false} ValidIdBits(id: Time)
    ensures ValidId(id) <==> IsId(id)
    ensures id >= EFF_FLAG <==> BitOf(id, 31)
  {
    Powers();
    TopBit(id, 31);
    if id >= EFF_FLAG {
      ClearAbove(id - EFF_FLAG, 29, 31);
      var rest := id - EFF_FLAG;
      if NoneIn(id, 29, 31) {
        forall i: nat | 29 <= i < 31 ensures !BitOf(rest, i) {
          BelowTop(id, 31, i);
        }
      }
      forall i: nat | 29 <= i < 31 && NoneIn(rest, 29, 31) ensures !BitOf(id, i) {
        BelowTop(id, 31, i);
      }
    } else {
      ClearAbove(id, 11, 31);
    }
  }

  /** The two words differ in bit `i`. */
  predicate DifferAt(x: nat, y: nat, i: nat) { BitOf(x, i) != BitOf(y, i) }

  /** The frame is for somebody else, or malformed: it differs from the wanted
      identifier in a bit of the mask or in width, is for another address, or has
      an impossible identifier or length. */
  ghost predicate Stranger(c: Config, f: Frame) {
    || (exists i: nat :: i < 32 && (BitOf(c.rxMask, i) || i == 31) && DifferAt(f.id, c.rxId, i))
    || (c.extended && f.data[0] != c.rxAddress)
    || !IsId(f.id) || f.dlc > 8 || f.dlc < (if c.extended then 2 else 1)
  }

  lemma {:induction false} MaskedDiffer(x: Time, y: Time, mask: Time)
    ensures !AgreeOn(x, y, mask) <==> exists i: nat :: i < 32 && BitOf(mask, i) && DifferAt(x, y, i)
  {
    AgreeOnBits(x, y, mask);
    Powers();
    if !SameUnder(x, y, mask) {
      var i: nat :| BitOf(mask, i) && BitOf(x, i) != BitOf(y, i);
      if i >= 32 {
        BeyondWord(mask, 32, i);
      }
      assert DifferAt(x, y, i);
    }
  }

  lemma {:induction false} BeyondWord(x: nat, n: nat, i: nat)
    requires x < Pow2(n) && i >= n
    ensures !BitOf(x, i)
    decreases i
  {
    if n == 0 {
      NoBits(i);
    } else {
      BeyondWord(x / 2, n - 1, i - 1);
    }
  }

  /** A receiver listens to exactly the frames that are not a stranger's. */
  lemma {:induction false} ListensExactly(c: Config, f: Frame)
    ensures Matches(c, f) <==> !Stranger(c, f)
  {
    hide AgreeOn, BitOf, IsId, ValidId;
    MaskedDiffer(f.id, c.rxId, c.rxMask);
    ValidIdBits(f.id);
    ValidIdBits(c.rxId);
    if BitOf(f.id, 31) != BitOf(c.rxId, 31) {
      assert DifferAt(f.id, c.rxId, 31);
    }
  }

  /** With all bits in the mask it is the one identifier. */
  lemma {:induction false} FullMask(x: Time, y: Time)
    ensures AgreeOn(x, y, WRAP - 1) <==> x == y
  {
    Powers();
    AgreeOnBits(x, y, WRAP - 1);
    if AgreeOn(x, y, WRAP - 1) {
      forall i: nat | i < 32 ensures BitOf(x, i) <==> BitOf(y, i) {
        AllOnes(32, i);
      }
      SameWord(x, y, 32);
    }
  }

  lemma {:induction false} AllOnes(n: nat, i: nat)
    requires i < n
    ensures BitOf(Pow2(n) - 1, i)
  {
    if i > 0 {
      AllOnes(n - 1, i - 1);
      assert (Pow2(n) - 1) / 2 == Pow2(n - 1) - 1;
    }
  }

  lemma {:induction false} PassedBy(rx: Rx, f: Frame, now: Time)
    requires RxValid(rx) && !Matches(rx.config, f)
    ensures var o := RxApply(rx, Arrive(f, now));
            if !rx.phase.RxIdle? && AtOrAfter(now, rx.deadline)
            then o == RxFeedOut(rx.(phase := RxIdle), RxExpiry(rx.phase), NO_SEGMENT)
            else o == RxFeedOut(rx, Ignored, NO_SEGMENT)
  {
  }

  /** In every run a stranger's frame changes nothing and is ignored, unless the
      wait that is going on is over, which it then ends like any other call. */
  lemma {:induction false} StrangersIgnored(start: RxRun, es: seq<RxEvent>, ats: seq<int>, f: Frame, at: int)
    requires Sound(start.rx, start.seen) && start.rx.phase.RxIdle? && Stamped(es, ats)
    requires Stranger(start.rx.config, f)
    ensures var rx := After(start, es).rx;
            var w := RxSince(start, es, ats);
            var o := RxApply(rx, Arrive(f, Reading(at)));
            && (o == RxFeedOut(rx, Ignored, NO_SEGMENT)
                || (!rx.phase.RxIdle? && o == RxFeedOut(rx.(phase := RxIdle), RxExpiry(rx.phase), NO_SEGMENT)))
            && (!rx.phase.RxIdle? ==> w.Once?)
            && (!rx.phase.RxIdle? && w.at <= at < w.at + RxWait(rx.config, rx.phase) ==> o.rc == Ignored)
  {
    hide Stranger, Reading, AtOrAfter, Matches, RxSince, Stamped;
    var rx := After(start, es).rx;
    var e := Arrive(f, Reading(at));
    ListensExactly(rx.config, f);
    ReceiverTimesOut(start, es, ats, e, at);
    PassedBy(rx, f, Reading(at));
  }
}
