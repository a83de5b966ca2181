/** Little-endian 64-bit words inside a byte array. */
module Bytes {
  import opened Str
  import opened BoundaryTags
  import opened Machine
  import Bits

  const WORD_BYTES := 8

  function LE(s: seq<byte>): nat {
    if s == [] then 0 else s[0] + 256 * LE(s[1..])
  }

  function ToLE(v: nat, n: nat): (s: seq<byte>)
    ensures |s| == n
  {
    if n == 0 then [] else [v % 256] + ToLE(v / 256, n - 1)
  }

  lemma {:induction false} RoundTrip(v: nat, n: nat)
    requires v < Pow(256, n)
    ensures LE(ToLE(v, n)) == v
  {
    if n > 0 {
      RoundTrip(v / 256, n - 1);
      assert ToLE(v, n)[1..] == ToLE(v / 256, n - 1);
    }
  }

  /** Byte `k` has the weight 256^k. */
  lemma {:induction false} ByteOf(v: nat, n: nat, k: nat)
    requires k < n
    ensures ToLE(v, n)[k] == v / Pow(256, k) % 256
  {
    if k > 0 {
      ByteOf(v / 256, n - 1, k - 1);
      DivideTwice(v, Pow(256, k - 1));
    } else {
      assert Pow(256, 0) == 1 && v / 1 == v;
    }
  }

  lemma DivideTwice(v: nat, b: nat)
    requires b > 0
    ensures v / 256 / b == v / (256 * b)
  {
    var q, r := v / 256, v % 256;
    var p, s := q / b, q % b;
    Quotient(q, b);
    Assoc(256, b, p);
    Bits.Remainder(256 * b, p, 256 * s + r);
  }

  lemma Quotient(x: nat, d: nat)
    requires d > 0
    ensures x == d * (x / d) + x % d && 0 <= x / d && 0 <= x % d < d
  {
  }

  lemma {:induction false} LEBound(s: seq<byte>)
    ensures LE(s) < Pow(256, |s|)
  {
    if s != [] { LEBound(s[1..]); }
  }

  lemma {:induction false} LEInjective(s: seq<byte>, t: seq<byte>)
    requires |s| == |t| && LE(s) == LE(t)
    ensures s == t
  {
    if s != [] {
      var x, y := LE(s[1..]), LE(t[1..]);
      assert s[0] == LE(s) - 256 * x && t[0] == LE(t) - 256 * y;
      assert x == y;
      LEInjective(s[1..], t[1..]);
      assert s == [s[0]] + s[1..] && t == [t[0]] + t[1..];
    }
  }

  predicate Aligned(a: int) { a % WORD_BYTES == 0 }

  function WordAt(s: seq<byte>, a: nat): nat
    requires a + WORD_BYTES <= |s|
  {
    LE(s[a..a + WORD_BYTES])
  }

  /** The aligned words of a memory. */
  function View(s: seq<byte>): Words {
    map a: nat | a < |s| && a + WORD_BYTES <= |s| && Aligned(a) :: WordAt(s, a)
  }

  function Patched(s: seq<byte>, a: nat, v: nat): seq<byte>
    requires a + WORD_BYTES <= |s|
  {
    s[..a] + ToLE(v, WORD_BYTES) + s[a + WORD_BYTES..]
  }

  lemma Bound(s: seq<byte>, a: int)
    ensures At(View(s), a) < WORD
  {
    if a in View(s) {
      LEBound(s[a..a + WORD_BYTES]);
      assert Pow(256, 8) == WORD;
    }
  }

  /** A word store changes one word of the view and no other. */
  lemma ViewPatched(s: seq<byte>, a: nat, v: nat)
    requires a + WORD_BYTES <= |s| && Aligned(a) && v < WORD
    ensures View(Patched(s, a, v)) == View(s)[a := v]
  {
    hide WordAt, Patched;
    var t := Patched(s, a, v);
    PatchedWord(s, a, v);
    forall b: nat | b + WORD_BYTES <= |s| && Aligned(b) && b != a
      ensures WordAt(t, b) == WordAt(s, b)
    {
      PatchedOther(s, a, v, b);
    }
  }

  lemma PatchedWord(s: seq<byte>, a: nat, v: nat)
    requires a + WORD_BYTES <= |s| && v < WORD
    ensures var t := Patched(s, a, v); |t| == |s| && WordAt(t, a) == v
  {
    assert Pow(256, 8) == WORD;
    hide LE, ToLE, Pow;
    RoundTrip(v, WORD_BYTES);
    assert Patched(s, a, v)[a..a + WORD_BYTES] == ToLE(v, WORD_BYTES);
  }

  lemma PatchedOther(s: seq<byte>, a: nat, v: nat, b: nat)
    requires a + WORD_BYTES <= |s| && b + WORD_BYTES <= |s| && Aligned(a) && Aligned(b) && b != a
    ensures var t := Patched(s, a, v); |t| == |s| && WordAt(t, b) == WordAt(s, b)
  {
    hide LE, ToLE;
    assert b + WORD_BYTES <= a || a + WORD_BYTES <= b;
    assert Patched(s, a, v)[b..b + WORD_BYTES] == s[b..b + WORD_BYTES];
  }

  /** Equal words mean equal bytes. */
  lemma SameByte(s: seq<byte>, t: seq<byte>, a: nat)
    requires |s| == |t| && |s| % WORD_BYTES == 0 && a < |s|
    requires At(View(s), a - a % WORD_BYTES) == At(View(t), a - a % WORD_BYTES)
    ensures s[a] == t[a]
  {
    var b := a - a % WORD_BYTES;
    assert Aligned(b) && b + WORD_BYTES <= |s|;
    LEInjective(s[b..b + WORD_BYTES], t[b..b + WORD_BYTES]);
    assert s[b..b + WORD_BYTES][a - b] == s[a] && t[b..b + WORD_BYTES][a - b] == t[a];
  }

  /** Words all of whose bytes agree are equal. */
  lemma SameWord(s: seq<byte>, t: seq<byte>, a: int)
    requires |s| == |t|
    requires forall k :: a <= k < a + WORD_BYTES && 0 <= k < |s| ==> s[k] == t[k]
    ensures At(View(s), a) == At(View(t), a)
  {
    if a in View(s) {
      assert s[a..a + WORD_BYTES] == t[a..a + WORD_BYTES];
    }
  }

  method LoadWord(mem: array<byte>, a: nat) returns (v: nat)
    requires a + WORD_BYTES <= mem.Length && Aligned(a)
    ensures v == At(View(mem[..]), a) < WORD
  {
    v := WordAt(mem[..], a);
    Bound(mem[..], a);
  }

  method StoreWord(mem: array<byte>, a: nat, v: nat)
    requires a + WORD_BYTES <= mem.Length && Aligned(a) && v < WORD
    modifies mem
    ensures mem[..] == Patched(old(mem[..]), a, v)
    ensures View(mem[..]) == View(old(mem[..]))[a := v]
  {
    var bs := ToLE(v, WORD_BYTES);
    forall i | 0 <= i < WORD_BYTES {
      mem[a + i] := bs[i];
    }
    assert mem[..] == Patched(old(mem[..]), a, v);
    ViewPatched(old(mem[..]), a, v);
  }
}
