/** The smaller and the larger of two numbers. */
module Numbers {
  function Min(x: int, y: int): (m: int) { if x < y then x else y }

  function Max(x: int, y: int): (m: int) { if x > y then x else y }

  function Pow2(n: nat): (p: nat)
    ensures p > 0
  {
    if n == 0 then 1 else 2 * Pow2(n - 1)
  }

  /** Bit `i` of a number, counted from the lowest. */
  predicate BitOf(x: nat, i: nat) {
    if i == 0 then x % 2 == 1 else BitOf(x / 2, i - 1)
  }

  /** A multiple is no smaller than what it is a multiple of. */
  lemma {:induction false} Times(n: nat, x: int)
    ensures x > 0 ==> n * x >= n
    ensures x < 0 ==> n * x + n <= 0
  {
    if x > 0 {
      OneMoreTime(n, x - 1);
    } else if x < 0 {
      OneMoreTime(n, -x - 1);
      assert n * -x == -(n * x);
    }
  }

  lemma {:induction false} OneMoreTime(n: nat, k: nat)
    ensures n * (k + 1) >= n
  {
  }
}
