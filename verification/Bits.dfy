/** The tag and alignment macros of src/heap.c on 64-bit words, bit by bit, and the plain arithmetic
    the model uses in their place. */
module Bits {
  import opened BlockList
  import opened BoundaryTags
  import opened Machine

  function And(x: nat, y: nat): nat {
    if x == 0 then 0 else x % 2 * (y % 2) + 2 * And(x / 2, y / 2)
  }

  function Or(x: nat, y: nat): nat
    decreases x + y
  {
    if x == 0 && y == 0 then 0
    else (if x % 2 == 1 || y % 2 == 1 then 1 else 0) + 2 * Or(x / 2, y / 2)
  }

  function Not(x: nat): nat
    requires x < WORD
  { WORD - 1 - x }

  /** `ALIGN_UP(n, a)` with the sum wrapping at 2^64. */
  function AlignUp(n: nat, a: nat): nat
    requires 0 < a <= WORD
  {
    And((n + a - 1) % WORD, Not(a - 1))
  }

  // ---------------------------------------------------------------- masks

  lemma AndDouble(x: nat, y: nat)
    ensures And(x, 2 * y) == 2 * And(x / 2, y)
    ensures And(x, 2 * y + 1) == x % 2 + 2 * And(x / 2, y)
  {
    assert (2 * y) / 2 == y && (2 * y + 1) / 2 == y;
    assert (2 * y) % 2 == 0 && (2 * y + 1) % 2 == 1;
    if x == 0 { assert And(x / 2, y) == 0; }
  }

  lemma {:induction false} AndOnes(x: nat, n: nat)
    requires x < Pow(2, n)
    ensures And(x, Pow(2, n) - 1) == x
  {
    if n > 0 {
      AndOnes(x / 2, n - 1);
      AndDouble(x, Pow(2, n - 1) - 1);
    }
  }

  lemma {:induction false} AndHigh(x: nat, n: nat, k: nat)
    requires k <= n && x < Pow(2, n)
    ensures Pow(2, k) <= Pow(2, n)
    ensures And(x, Pow(2, n) - Pow(2, k)) == x - x % Pow(2, k)
    decreases k
  {
    if k == 0 {
      AndOnes(x, n);
    } else {
      AndHigh(x / 2, n - 1, k - 1);
      AndDouble(x, Pow(2, n - 1) - Pow(2, k - 1));
      HalfMod(x, Pow(2, k - 1));
    }
  }

  lemma HalfMod(x: nat, p: nat)
    requires p > 0
    ensures x % (2 * p) == x % 2 + 2 * (x / 2 % p)
  {
    var q := x / 2 / p;
    var r := x % 2 + 2 * (x / 2 % p);
    assert x / 2 == p * q + x / 2 % p;
    assert x == 2 * (p * q) + r == (2 * p) * q + r;
    Remainder(2 * p, q, r);
  }

  lemma Remainder(d: nat, q: nat, r: nat)
    requires r < d
    ensures (d * q + r) % d == r && (d * q + r) / d == q
  {
    var x := d * q + r;
    Unique(d, q, r, x / d, x % d);
  }

  lemma Unique(d: nat, q: nat, r: nat, q': nat, r': nat)
    requires r < d && r' < d && d * q + r == d * q' + r'
    ensures q == q' && r == r'
  {
    if q > q' { Apart(d, q, q'); } else if q < q' { Apart(d, q', q); }
  }

  lemma Apart(d: nat, q: nat, q': nat)
    requires q > q'
    ensures d * q >= d * q' + d
  {
    var k := q - q' - 1;
    assert d * q == d * (q' + 1 + k) == d * q' + d + d * k;
  }

  lemma Pow2Values()
    ensures Pow(2, 1) == 2 && Pow(2, 2) == 4 && Pow(2, 3) == 8 && Pow(2, 4) == 16
    ensures Pow(2, 12) == 4096 && Pow(2, 64) == WORD
  {
    assert Pow(2, 16) == 0x1_0000;
    PowAdd(2, 16, 16);
    PowAdd(2, 32, 32);
  }

  lemma {:induction false} OrDisjoint(x: nat, f: nat, k: nat)
    requires x % Pow(2, k) == 0 && f < Pow(2, k)
    ensures Or(x, f) == x + f
    decreases k
  {
    if k == 0 {
      OrZero(x);
    } else {
      HalfMod(x, Pow(2, k - 1));
      assert x % 2 == 0 && x / 2 % Pow(2, k - 1) == 0;
      OrDisjoint(x / 2, f / 2, k - 1);
    }
  }

  lemma {:induction false} OrZero(x: nat)
    ensures Or(x, 0) == x
  {
    if x > 0 { OrZero(x / 2); }
  }

  // ---------------------------------------------------------------- the macros

  /** Every tag expression of the source, against the arithmetic used by BoundaryTags. */
  lemma TagMacros(s: nat)
    requires s < WORD
    ensures And(s, Not(7)) == GetSize(s)
    ensures And(s, 1) == if IsAlloc(s) then 1 else 0
    ensures And(s, 2) == PrevFreeBit(s)
    ensures And(s, Not(2)) == ClearPrevFree(s)
    ensures Or(And(s, Not(7)), 2) == MarkPrevFree(false, s)
    ensures Or(s, 2) == MarkPrevFree(true, s)
  {
    hide And, Or;
    SizeMask(s);
    LowMasks(s);
    ClearBit(s);
    SetBit(s);
  }

  lemma SizeMask(s: nat)
    requires s < WORD
    ensures And(s, Not(7)) == GetSize(s)
    ensures Or(GetSize(s), 2) == GetSize(s) + 2
  {
    hide And, Or, Pow;
    Pow2Values();
    AndHigh(s, 64, 3);
    RoundDown(s, 8);
    OrDisjoint(GetSize(s), 2, 3);
  }

  lemma LowMasks(s: nat)
    ensures And(s, 1) == s % 2
    ensures And(s, 2) == PrevFreeBit(s)
  {
    AndDouble(s, 0);
    AndDouble(s, 1);
    AndDouble(s / 2, 0);
    hide And;
    AndZero(s / 2);
    AndZero(s / 2 / 2);
  }

  lemma {:induction false} AndZero(x: nat)
    ensures And(x, 0) == 0
  {
    if x > 0 { AndZero(x / 2); }
  }

  lemma ClearBit(s: nat)
    requires s < WORD
    ensures And(s, Not(2)) == ClearPrevFree(s)
  {
    var m := WORD / 4 - 1;
    assert Not(2) == 2 * (2 * m) + 1;
    AndDouble(s, 2 * m);
    AndDouble(s / 2, m);
    Pow2Values();
    PowAdd(2, 2, 62);
    AndOnes(s / 2 / 2, 62);
  }

  lemma SetBit(s: nat)
    ensures Or(s, 2) == MarkPrevFree(true, s)
  {
    var h := s / 2;
    OrZero(h / 2);
    assert Or(h, 1) == 1 + 2 * (h / 2);
    assert Or(s, 2) == s % 2 + 2 * Or(h, 1);
  }

  /** A tag assembled with `|` from a size and two flags is the sum the model writes. */
  lemma TagOr(size: nat, alloc: bool, prevFree: bool)
    requires size % 16 == 0
    ensures Or(Or(size, if alloc then 1 else 0), if prevFree then 2 else 0) == Tag(size, alloc, prevFree)
  {
    hide Or, Pow, PrevFreeBit, IsAlloc, GetSize;
    Pow2Values();
    var f := if alloc then 1 else 0;
    OrDisjoint(size, f, 4);
    TagParts(size, alloc, false);
    SetBit(size + f);
    OrZero(size + f);
  }

  // ---------------------------------------------------------------- ALIGN_UP

  lemma Pow2Bound(k: nat)
    requires k <= 64
    ensures Pow(2, k) <= WORD
  {
    Pow2Values();
    AndHigh(0, 64, k);
  }

  lemma AlignUpValue(n: nat, k: nat)
    requires n < WORD && k <= 64
    ensures Pow(2, k) <= WORD
    ensures var x := (n + Pow(2, k) - 1) % WORD; AlignUp(n, Pow(2, k)) == x - x % Pow(2, k)
  {
    hide And, Pow;
    Pow2Values();
    Pow2Bound(k);
    AndHigh((n + Pow(2, k) - 1) % WORD, 64, k);
  }

  /** ALIGN_UP(n, 2^k) reaches n exactly when the sum does not wrap, and is then the least multiple
      of 2^k that does. */
  lemma AlignUpLeast(n: nat, k: nat)
    requires n < WORD && k <= 64
    ensures Pow(2, k) <= WORD
    ensures AlignUp(n, Pow(2, k)) >= n <==> n + Pow(2, k) - 1 < WORD
    ensures AlignUp(n, Pow(2, k)) >= n ==>
      && AlignUp(n, Pow(2, k)) % Pow(2, k) == 0
      && forall m: nat :: n <= m && m % Pow(2, k) == 0 ==> AlignUp(n, Pow(2, k)) <= m
  {
    hide And, Pow, AlignUp;
    AlignUpValue(n, k);
    LeastOrZero(n, Pow(2, k), AlignUp(n, Pow(2, k)));
  }

  lemma LeastOrZero(n: nat, a: nat, v: nat)
    requires n < WORD && 0 < a <= WORD
    requires var x := (n + a - 1) % WORD; v == x - x % a
    ensures v >= n <==> n + a - 1 < WORD
    ensures v >= n ==> v % a == 0 && forall m: nat :: n <= m && m % a == 0 ==> v <= m
  {
    if n + a - 1 < WORD {
      Unwrapped(n + a - 1);
      LeastMultiple(n, a);
    } else {
      WrappedToZero(n, a);
    }
  }

  lemma Unwrapped(y: nat)
    requires y < WORD
    ensures y % WORD == y
  {
  }

  lemma LeastMultiple(n: nat, a: nat)
    requires a > 0
    ensures var v := n + a - 1 - (n + a - 1) % a;
      v >= n && v % a == 0 && forall m: nat :: n <= m && m % a == 0 ==> v <= m
  {
    var y := n + a - 1;
    RoundDown(y, a);
    forall m: nat | n <= m && m % a == 0
      ensures y - y % a <= m
    {
      RoundDownLeast(y, a, m);
    }
  }

  lemma WrappedToZero(n: nat, a: nat)
    requires n < WORD <= n + a - 1 && a <= WORD
    ensures var x := (n + a - 1) % WORD; x - x % a == 0 && n > 0
  {
    var x := n + a - 1 - WORD;
    Remainder(WORD, 1, x);
    Remainder(a, 0, x);
  }

  lemma RoundDown(y: nat, a: nat)
    requires a > 0
    ensures 0 <= y % a < a && (y - y % a) % a == 0
  {
    assert y - y % a == a * (y / a) + 0;
    Remainder(a, y / a, 0);
  }

  lemma RoundDownLeast(y: nat, a: nat, m: nat)
    requires a > 0 && m % a == 0 && m + a > y
    ensures y - y % a <= m
  {
    var q, p := y / a, m / a;
    assert y == a * q + y % a && m == a * p;
    if q > p { Apart(a, q, p); } else if q < p { Apart(a, p, q); }
  }

  /** The model's page rounding is the macro, whenever the macro does not wrap. */
  lemma PageUpIsAlignUp(n: nat)
    requires n + PAGE - 1 < WORD
    ensures PageUp(n) == AlignUp(n, PAGE)
  {
    hide And, Pow, AlignUp;
    Pow2Values();
    AlignUpValue(n, 12);
    var x := n + PAGE - 1;
    assert x % WORD == x;
    assert x == 4096 * (x / 4096) + x % 4096;
  }

  /** The length requested from mmap for `sz` bytes, with both additions wrapping. */
  function MmapTotal(sz: nat): nat { AlignUp((sz + HDR_SZ) % WORD, PAGE) }

  const MAX_REQUEST := WORD - PAGE - HDR_SZ

  /** The mapping is large enough for the request and its header exactly up to MAX_REQUEST. */
  lemma MmapTotalExact(sz: nat)
    requires sz < WORD
    ensures MmapTotal(sz) >= sz + 8 <==> sz <= 0x1_0000_0000_0000_0000 - 4104
    ensures sz <= MAX_REQUEST ==> MmapTotal(sz) == PageUp(sz + HDR_SZ)
    ensures sz <= MAX_REQUEST ==> MmapTotal(sz) % 4096 == 0 && sz + 8 <= MmapTotal(sz) < sz + 8 + 4096
  {
    hide And, Pow, AlignUp, PageUp;
    Pow2Values();
    var x := sz + HDR_SZ;
    if x < WORD {
      assert x % WORD == x;
      AlignUpLeast(x, 12);
      if sz <= MAX_REQUEST {
        PageUpBounds(x);
        PageUpIsAlignUp(x);
      }
    } else {
      assert x % WORD == x - WORD;
      AlignUpValue(x - WORD, 12);
      assert (x - WORD + PAGE - 1) % WORD == x - WORD + PAGE - 1;
    }
  }
}
