/** Go's int64, powers of two and decimal digits. */
module Numbers {
  const MAX_INT64 := 0x7fff_ffff_ffff_ffff

  type int64 = x: int | -MAX_INT64 - 1 <= x <= MAX_INT64

  /** What int64 arithmetic keeps of a result. */
  function Wrap(x: int): int64 {
    (x + MAX_INT64 + 1) % 0x1_0000_0000_0000_0000 - MAX_INT64 - 1
  }

  function Pow2(n: nat): nat {
    if n == 0 then 1 else 2 * Pow2(n - 1)
  }

  lemma {:induction false} PositivePow2(n: nat)
    ensures Pow2(n) >= 1
  {
    if n > 0 {
      PositivePow2(n - 1);
    }
  }

  predicate IsDigit(c: char) {
    '0' <= c <= '9'
  }

  function DigitValue(c: char): int {
    c as int - '0' as int
  }

  predicate AllDigits(s: string) {
    forall i :: 0 <= i < |s| ==> IsDigit(s[i])
  }
}
