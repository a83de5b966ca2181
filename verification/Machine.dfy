/** Machine words and powers. */
module Machine {

  /** 2^64, the range of an `unsigned long`. */
  const WORD := 0x1_0000_0000_0000_0000

  function Pow(b: nat, n: nat): (p: nat)
    ensures b > 0 ==> p > 0
  {
    if n == 0 then 1 else b * Pow(b, n - 1)
  }

  lemma {:induction false} PowAdd(b: nat, m: nat, n: nat)
    ensures Pow(b, m + n) == Pow(b, m) * Pow(b, n)
  {
    if m > 0 {
      PowAdd(b, m - 1, n);
      Assoc(b, Pow(b, m - 1), Pow(b, n));
    }
  }

  lemma Assoc(x: nat, y: nat, z: nat)
    ensures x * (y * z) == x * y * z
  {
  }
}
