/** Number conversion of src/stdio.c: digits are written lowest first and reversed in place. */
module Digits {

  import opened CString
  import opened Machine
  import Bits

  const LONG_MAX := 0x7fff_ffff_ffff_ffff

  function DigitChar(d: nat): char
    requires d < 16
  {
    if d < 10 then '0' + d as char else 'a' + (d - 10) as char
  }

  /** Value of a digit character, or 16 for any other character. */
  function DigitValue(c: char): nat {
    if '0' <= c <= '9' then c as nat - '0' as nat
    else if 'a' <= c <= 'f' then c as nat - 'a' as nat + 10
    else 16
  }

  /** The digits of `v`, lowest first; empty for 0. */
  function LowFirst(v: nat, base: nat): string
    requires 2 <= base <= 16
  {
    if v == 0 then "" else [DigitChar(v % base)] + LowFirst(v / base, base)
  }

  function Reverse(s: string): string {
    if s == "" then "" else Reverse(s[1..]) + [s[0]]
  }

  /** The numeral of `v`, as utoa (base 10) and xtoa (base 16) leave it in the buffer. */
  function Numeral(v: nat, base: nat): string
    requires 2 <= base <= 16
  {
    if v == 0 then "0" else Reverse(LowFirst(v, base))
  }

  function SignedNumeral(v: int): string {
    if v < 0 then "-" + Numeral(-v, 10) else Numeral(v, 10)
  }

  // ---------------------------------------------------------------- reading numerals back

  /** The value written by `s`, read from the left. */
  function Parse(s: string, base: nat): nat {
    if s == "" then 0 else Parse(s[..|s| - 1], base) * base + DigitValue(s[|s| - 1])
  }

  function ParseSigned(s: string): int {
    if s != "" && s[0] == '-' then -(Parse(s[1..], 10) as int) else Parse(s, 10)
  }

  lemma DigitRoundTrip(d: nat)
    requires d < 16
    ensures DigitValue(DigitChar(d)) == d
    ensures d > 0 ==> DigitChar(d) != '0'
    ensures DigitChar(d) != '-'
    ensures DigitChar(d) == "0123456789abcdef"[d]
  {
  }

  lemma Divided(v: nat, base: nat)
    requires 2 <= base
    ensures v / base >= 0 && v == v / base * base + v % base && 0 <= v % base < base
    ensures v > 0 ==> v / base < v
  {
  }

  /** The numeral of a positive value is the numeral of the quotient and one more digit. */
  lemma ReverseStep(v: nat, base: nat)
    requires 2 <= base <= 16 && v > 0
    ensures Reverse(LowFirst(v, base)) == Reverse(LowFirst(v / base, base)) + [DigitChar(v % base)]
  {
    hide DigitChar;
    var rest := LowFirst(v / base, base);
    assert LowFirst(v, base) == [DigitChar(v % base)] + rest;
    assert LowFirst(v, base)[1..] == rest;
  }

  lemma ParseStep(s: string, c: char, base: nat)
    ensures Parse(s + [c], base) == Parse(s, base) * base + DigitValue(c)
  {
    assert (s + [c])[..|s|] == s;
  }

  lemma {:induction false} ParseReverse(v: nat, base: nat)
    requires 2 <= base <= 16
    ensures Parse(Reverse(LowFirst(v, base)), base) == v
  {
    if v > 0 {
      Divided(v, base);
      ParseReverse(v / base, base);
      ReverseStep(v, base);
      DigitRoundTrip(v % base);
      hide LowFirst, Reverse, DigitChar, DigitValue, Parse;
      ParseStep(Reverse(LowFirst(v / base, base)), DigitChar(v % base), base);
    }
  }

  /** Reading a numeral back gives the value, for every value and both bases. */
  lemma NumeralRoundTrip(v: nat, base: nat)
    requires 2 <= base <= 16
    ensures Parse(Numeral(v, base), base) == v
  {
    if v == 0 {
      assert "0"[..0] == "";
    } else {
      ParseReverse(v, base);
    }
  }

  /** No numeral starts with a zero or a sign, except "0" itself. */
  lemma NoLeadingZero(v: nat, base: nat)
    requires 2 <= base <= 16
    ensures Numeral(v, base) != "" && Numeral(v, base)[0] != '-'
    ensures v > 0 ==> Numeral(v, base)[0] != '0'
  {
    if v > 0 { TopDigit(v, base); }
  }

  lemma {:induction false} TopDigit(v: nat, base: nat)
    requires 2 <= base <= 16 && v > 0
    ensures var s := Reverse(LowFirst(v, base)); s != "" && s[0] != '0' && s[0] != '-'
  {
    hide LowFirst, Reverse, DigitChar;
    Divided(v, base);
    ReverseStep(v, base);
    DigitRoundTrip(v % base);
    if v / base > 0 {
      TopDigit(v / base, base);
    } else {
      NoDigits(base);
    }
  }

  lemma NoDigits(base: nat)
    requires 2 <= base <= 16
    ensures Reverse(LowFirst(0, base)) == ""
  {
  }

  // ---------------------------------------------------------------- what a numeral looks like

  ghost predicate OnlyDigits(s: string, base: nat)
    requires base <= 16
  {
    forall k :: 0 <= k < |s| ==> s[k] in "0123456789abcdef"[..base]
  }

  /** One or more digits of the base, the first of them zero only in "0". */
  ghost predicate IsNumeral(s: string, base: nat)
    requires base <= 16
  {
    s != "" && OnlyDigits(s, base) && (s[0] == '0' ==> s == "0")
  }

  /** A decimal numeral, behind a '-' unless it is to be read as a natural number; never "-0". */
  ghost predicate IsSigned(s: string) {
    s != "" && if s[0] == '-' then IsNumeral(s[1..], 10) && s != "-0" else IsNumeral(s, 10)
  }

  lemma DigitOfBase(c: char, base: nat)
    requires 2 <= base <= 16 && c in "0123456789abcdef"[..base]
    ensures DigitValue(c) < base && DigitChar(DigitValue(c)) == c && c != '-'
    ensures DigitValue(c) == 0 <==> c == '0'
  {
    var k :| 0 <= k < base && c == "0123456789abcdef"[k];
    DigitRoundTrip(k);
  }

  lemma DigitInBase(d: nat, base: nat)
    requires d < base <= 16
    ensures DigitChar(d) in "0123456789abcdef"[..base]
  {
    DigitRoundTrip(d);
    assert "0123456789abcdef"[..base][d] == DigitChar(d);
  }

  /** Every numeral is of that form, and starts with '0' only for 0. */
  lemma NumeralShape(v: nat, base: nat)
    requires 2 <= base <= 16
    ensures IsNumeral(Numeral(v, base), base) && (Numeral(v, base)[0] == '0' <==> v == 0)
  {
    NoLeadingZero(v, base);
    if v > 0 {
      hide OnlyDigits;
      DigitsOfBase(v, base);
    } else {
      DigitInBase(0, base);
      assert Numeral(v, base) == "0" && OnlyDigits("0", base);
    }
  }

  lemma {:induction false} DigitsOfBase(v: nat, base: nat)
    requires 2 <= base <= 16
    ensures OnlyDigits(Reverse(LowFirst(v, base)), base)
  {
    hide DigitChar;
    if v > 0 {
      Divided(v, base);
      DigitsOfBase(v / base, base);
      ReverseStep(v, base);
      DigitInBase(v % base, base);
    }
  }

  /** Conversely every text of that form is the numeral of the value it is read as: one value, one text. */
  lemma NumeralUnique(s: string, base: nat)
    requires 2 <= base <= 16 && IsNumeral(s, base)
    ensures Numeral(Parse(s, base), base) == s
  {
    if s == "0" {
      assert "0"[..0] == "";
    } else {
      NumeralReads(s, base);
    }
  }

  lemma {:induction false} NumeralReads(s: string, base: nat)
    requires 2 <= base <= 16 && IsNumeral(s, base) && s != "0"
    ensures Parse(s, base) > 0 && Reverse(LowFirst(Parse(s, base), base)) == s
    decreases |s|
  {
    hide DigitChar, DigitValue, LowFirst, Reverse, IsNumeral;
    NumeralFront(s, base);
    var p, c := s[..|s| - 1], s[|s| - 1];
    if p == "" {
      NoDigits(base);
      DigitOfBase(c, base);
    } else {
      NumeralReads(p, base);
    }
    hide Parse;
    ParseStep(p, c, base);
    DigitBehind(Parse(p, base), c, base);
  }

  /** One more digit behind a numeral. */
  lemma DigitBehind(q: nat, c: char, base: nat)
    requires 2 <= base <= 16 && c in "0123456789abcdef"[..base] && (q > 0 || c != '0')
    ensures var v := q * base + DigitValue(c);
      v > 0 && Reverse(LowFirst(v, base)) == Reverse(LowFirst(q, base)) + [c]
  {
    hide DigitChar, DigitValue, LowFirst, Reverse;
    DigitOfBase(c, base);
    OneDigit(q, DigitValue(c), base);
    ReverseStep(q * base + DigitValue(c), base);
  }

  lemma NumeralFront(s: string, base: nat)
    requires base <= 16 && IsNumeral(s, base)
    ensures s != "" && s == s[..|s| - 1] + [s[|s| - 1]] && s[|s| - 1] in "0123456789abcdef"[..base]
    ensures |s| > 1 ==> IsNumeral(s[..|s| - 1], base) && s[..|s| - 1] != "0"
    ensures |s| == 1 && s != "0" ==> s[0] != '0'
  {
    if |s| > 1 {
      assert s[..|s| - 1][0] == s[0] != '0';
    }
  }

  lemma OneDigit(q: nat, d: nat, base: nat)
    requires d < base && 2 <= base && (q > 0 || d > 0)
    ensures q * base + d > 0 && (q * base + d) / base == q && (q * base + d) % base == d
  {
    Positive(q, base);
    Bits.Remainder(base, q, d);
  }

  lemma Positive(q: nat, base: nat)
    requires 2 <= base
    ensures q <= q * base == base * q
  {
  }

  /** A signed numeral starts with '-' for the negative values and no others; behind the sign is a decimal
      numeral that starts with '0' only for 0, and then it is "0". */
  lemma SignedShape(v: int)
    ensures var s := SignedNumeral(v);
      && IsSigned(s)
      && (s[0] == '-' <==> v < 0)
      && var digits := if v < 0 then s[1..] else s;
        && digits != "" && (forall k :: 0 <= k < |digits| ==> '0' <= digits[k] <= '9')
        && (digits[0] == '0' <==> v == 0) && (v == 0 ==> digits == "0")
  {
    var a := if v < 0 then -v else v;
    NumeralShape(a, 10);
    NoLeadingZero(a, 10);
    assert SignedNumeral(v) == if v < 0 then "-" + Numeral(a, 10) else Numeral(a, 10);
    assert v < 0 ==> SignedNumeral(v)[1..] == Numeral(a, 10);
    forall c | c in "0123456789abcdef"[..10]
      ensures '0' <= c <= '9'
    {
      var k :| 0 <= k < 10 && c == "0123456789abcdef"[k];
    }
  }

  /** And there is no other text of this form for the value. */
  lemma SignedUnique(s: string)
    requires IsSigned(s)
    ensures SignedNumeral(ParseSigned(s)) == s
  {
    if s[0] == '-' {
      NumeralUnique(s[1..], 10);
      if s[1..] != "0" { NumeralReads(s[1..], 10); }
      assert s == "-" + s[1..];
    } else {
      NumeralUnique(s, 10);
    }
  }

  lemma PowValues()
    ensures Pow(10, 19) == 10000000000000000000
    ensures Pow(10, 20) == 100000000000000000000
    ensures Pow(16, 16) == WORD
  {
    assert Pow(10, 5) == 100000;
    PowAdd(10, 5, 5);
    PowAdd(10, 10, 10);
    PowAdd(10, 1, 19);
    assert Pow(16, 4) == 65536;
    PowAdd(16, 4, 4);
    PowAdd(16, 8, 8);
  }

  lemma {:induction false} LowFirstLength(v: nat, base: nat, n: nat)
    requires 2 <= base <= 16 && v < Pow(base, n)
    ensures |LowFirst(v, base)| <= n
    decreases n
  {
    if v > 0 {
      Divided(v, base);
      QuotientBelow(v, base, Pow(base, n - 1));
      LowFirstLength(v / base, base, n - 1);
    }
  }

  lemma QuotientBelow(v: nat, base: nat, p: nat)
    requires 2 <= base && v < base * p
    ensures v / base < p
  {
    var q := v / base;
    assert base * q <= v;
    assert q >= p ==> base * q >= base * p;
  }

  lemma {:induction false} ReverseAt(s: string, k: nat)
    requires k < |s|
    ensures |Reverse(s)| == |s| && Reverse(s)[k] == s[|s| - 1 - k]
  {
    if |s| > 1 {
      ReverseAt(s[1..], if k < |s| - 1 then k else 0);
    }
  }

  lemma ReverseLength(s: string)
    ensures |Reverse(s)| == |s|
  {
    if s != "" { ReverseAt(s, 0); }
  }

  /** Every 64-bit value fits: at most 20 decimal and 16 hexadecimal digits. */
  lemma NumeralLength(v: nat)
    requires v < WORD
    ensures 1 <= |Numeral(v, 10)| <= 20 && 1 <= |Numeral(v, 16)| <= 16
  {
    PowValues();
    NoLeadingZero(v, 10);
    NoLeadingZero(v, 16);
    LowFirstLength(v, 10, 20);
    LowFirstLength(v, 16, 16);
    ReverseLength(LowFirst(v, 10));
    ReverseLength(LowFirst(v, 16));
  }

  /** The same for signed values, the most negative one included. */
  lemma SignedRoundTrip(v: int)
    requires -LONG_MAX - 1 <= v <= LONG_MAX
    ensures ParseSigned(SignedNumeral(v)) == v
    ensures 1 <= |SignedNumeral(v)| <= 20
    ensures IsSigned(SignedNumeral(v)) && (SignedNumeral(v)[0] == '-' <==> v < 0)
  {
    hide IsSigned;
    SignedShape(v);
    var a := if v < 0 then -v else v;
    NumeralRoundTrip(a, 10);
    NoLeadingZero(a, 10);
    PowValues();
    LowFirstLength(a, 10, 19);
    ReverseLength(LowFirst(a, 10));
    if v < 0 {
      assert SignedNumeral(v)[1..] == Numeral(a, 10);
    }
  }

  // ---------------------------------------------------------------- the loops

  function PartReversed(s: seq<char>, start: nat, end: nat): seq<char>
    requires start <= end <= |s|
  {
    s[..start] + Reverse(s[start..end]) + s[end..]
  }

  /** Reverses buf[start..end] in place. */
  method StrReverse(buf: array<char>, start: nat, end: nat)
    requires start <= end <= buf.Length
    modifies buf
    ensures buf[..] == PartReversed(old(buf[..]), start, end)
  {
    ghost var was := buf[..];
    var s, e := start, end - 1;
    while s < e
      invariant start <= s && s + e == start + end - 1 && s <= e + 2
      invariant forall k :: 0 <= k < buf.Length ==>
        buf[k] == was[if start <= k < s || e < k < end then start + end - 1 - k else k]
    {
      buf[s], buf[e] := buf[e], buf[s];
      s := s + 1;
      e := e - 1;
    }
    MirrorIsReverse(was, buf[..], start, end);
  }

  lemma MirrorIsReverse(was: seq<char>, now: seq<char>, start: nat, end: nat)
    requires start <= end <= |was| == |now|
    requires forall k :: 0 <= k < |now| ==> now[k] == was[if start <= k < end then start + end - 1 - k else k]
    ensures now == PartReversed(was, start, end)
  {
    hide Reverse;
    MirroredMiddle(was, now, start, end);
    Unmoved(was, now, start, end);
    ThreeParts(now, start, end);
  }

  lemma MirroredMiddle(was: seq<char>, now: seq<char>, start: nat, end: nat)
    requires start <= end <= |was| == |now|
    requires forall k :: start <= k < end ==> now[k] == was[start + end - 1 - k]
    ensures now[start..end] == Reverse(was[start..end])
  {
    hide Reverse;
    var mid := was[start..end];
    ReverseLength(mid);
    forall k | 0 <= k < |mid|
      ensures now[start + k] == Reverse(mid)[k]
    {
      ReverseAt(mid, k);
      assert now[start + k] == was[end - 1 - k] == mid[|mid| - 1 - k];
    }
  }

  lemma Unmoved(was: seq<char>, now: seq<char>, start: nat, end: nat)
    requires start <= end <= |was| == |now|
    requires forall k :: 0 <= k < |now| ==> now[k] == was[if start <= k < end then start + end - 1 - k else k]
    ensures now[..start] == was[..start] && now[end..] == was[end..]
  {
  }

  lemma ThreeParts(s: seq<char>, start: nat, end: nat)
    requires start <= end <= |s|
    ensures s == s[..start] + s[start..end] + s[end..]
  {
  }

  /** `buf` from `at` holds `text` and a NUL; nothing else of it has changed since `was`. */
  ghost predicate Written(was: seq<char>, now: seq<char>, at: nat, text: string) {
    && at + |text| + 1 <= |was|
    && now == was[..at] + text + ([NUL] + was[at + |text| + 1..])
  }

  lemma WrittenText(was: seq<char>, now: seq<char>, at: nat, text: string)
    requires Written(was, now, at, text)
    ensures at + |text| < |now| && now[at..at + |text|] == text && now[at + |text|] == NUL
  {
  }

  /** `buf` from `at` holds the numeral of `val` in `len` characters, and a NUL. */
  ghost predicate Holds(buf: seq<char>, at: nat, len: nat, val: nat, base: nat)
    requires base <= 16
  {
    && at + len < |buf| && buf[at + len] == NUL
    && IsNumeral(buf[at..at + len], base) && Parse(buf[at..at + len], base) == val
  }

  /** The same for a signed value; the '-' is there exactly for the negative ones. */
  ghost predicate HoldsSigned(buf: seq<char>, at: nat, len: nat, val: int) {
    && at + len < |buf| && buf[at + len] == NUL
    && IsSigned(buf[at..at + len]) && ParseSigned(buf[at..at + len]) == val && (buf[at] == '-' <==> val < 0)
  }

  lemma WrittenNumeral(was: seq<char>, now: seq<char>, at: nat, val: nat, base: nat)
    requires 2 <= base <= 16 && Written(was, now, at, Numeral(val, base))
    ensures Holds(now, at, |Numeral(val, base)|, val, base)
  {
    hide Written, Numeral;
    WrittenText(was, now, at, Numeral(val, base));
    NumeralShape(val, base);
    NumeralRoundTrip(val, base);
  }

  lemma WrittenSigned(was: seq<char>, now: seq<char>, at: nat, val: int)
    requires -LONG_MAX - 1 <= val <= LONG_MAX && Written(was, now, at, SignedNumeral(val))
    ensures HoldsSigned(now, at, |SignedNumeral(val)|, val)
  {
    hide Written, SignedNumeral, IsNumeral, ParseSigned;
    WrittenText(was, now, at, SignedNumeral(val));
    SignedShape(val);
    SignedRoundTrip(val);
    assert now[at] == now[at..at + |SignedNumeral(val)|][0];
  }

  method Utoa(val: nat, buf: array<char>, at: nat) returns (len: nat)
    requires at + |Numeral(val, 10)| + 1 <= buf.Length
    modifies buf
    ensures len == |Numeral(val, 10)| && Written(old(buf[..]), buf[..], at, Numeral(val, 10))
    ensures Holds(buf[..], at, len, val, 10)
  {
    len := ToText(val, 10, buf, at);
    WrittenNumeral(old(buf[..]), buf[..], at, val, 10);
  }

  method Xtoa(val: nat, buf: array<char>, at: nat) returns (len: nat)
    requires at + |Numeral(val, 16)| + 1 <= buf.Length
    modifies buf
    ensures len == |Numeral(val, 16)| && Written(old(buf[..]), buf[..], at, Numeral(val, 16))
    ensures Holds(buf[..], at, len, val, 16)
  {
    len := ToText(val, 16, buf, at);
    WrittenNumeral(old(buf[..]), buf[..], at, val, 16);
  }

  /** The shared text of `utoa` and `xtoa`. */
  method ToText(val: nat, base: nat, buf: array<char>, at: nat) returns (len: nat)
    requires 2 <= base <= 16
    requires at + |Numeral(val, base)| + 1 <= buf.Length
    modifies buf
    ensures len == |Numeral(val, base)| && Written(old(buf[..]), buf[..], at, Numeral(val, base))
  {
    hide LowFirst, Reverse, Written, DigitChar;
    ghost var was := buf[..];
    if val == 0 {
      buf[at] := '0';
      buf[at + 1] := NUL;
      ZeroWritten(was, buf[..], at);
      return 1;
    }
    ghost var all := LowFirst(val, base);
    ReverseLength(all);
    len := PutLowFirst(val, base, buf, at);
    ghost var mid := buf[..];
    Close(buf, at, len, all);
    WrittenOver(was, mid, buf[..], at, all, Reverse(all));
  }

  lemma ZeroWritten(was: seq<char>, now: seq<char>, at: nat)
    requires at + 1 < |was| && now == was[at := '0'][at + 1 := NUL]
    ensures Written(was, now, at, "0")
  {
  }

  /** Ends the text with a NUL and turns it around. */
  method Close(buf: array<char>, at: nat, len: nat, ghost all: string)
    requires len == |all| && at + len < buf.Length && buf[at..at + len] == all
    modifies buf
    ensures Written(old(buf[..]), buf[..], at, Reverse(all))
  {
    hide Reverse, PartReversed, Written;
    ghost var was := buf[..];
    buf[at + len] := NUL;
    ghost var mid := buf[..];
    assert mid == was[at + len := NUL];
    StrReverse(buf, at, at + len);
    Closed(was, mid, buf[..], at, all);
  }

  lemma Closed(was: seq<char>, mid: seq<char>, now: seq<char>, at: nat, all: string)
    requires at + |all| < |was| && was[at..at + |all|] == all && mid == was[at + |all| := NUL]
    requires now == PartReversed(mid, at, at + |all|)
    ensures Written(was, now, at, Reverse(all))
  {
    hide *;
    Ended(was, mid, at, all);
    InParts(mid, at, at + |all|, was[..at], all, [NUL] + was[at + |all| + 1..]);
    ReverseLength(all);
    WrittenParts(was, now, at, Reverse(all), at + |all|);
  }

  lemma WrittenParts(was: seq<char>, now: seq<char>, at: nat, text: string, end: nat)
    requires end == at + |text| < |was| && now == was[..at] + text + ([NUL] + was[end + 1..])
    ensures Written(was, now, at, text)
  {
  }

  lemma InParts(s: seq<char>, start: nat, end: nat, a: seq<char>, b: seq<char>, c: seq<char>)
    requires start <= end <= |s| && s[..start] == a && s[start..end] == b && s[end..] == c
    ensures PartReversed(s, start, end) == a + Reverse(b) + c
  {
    hide Reverse;
  }

  lemma Ended(was: seq<char>, now: seq<char>, at: nat, all: string)
    requires at + |all| < |was| && now == was[at + |all| := NUL] && was[at..at + |all|] == all
    ensures now[..at] == was[..at] && now[at..at + |all|] == all
    ensures now[at + |all|..] == [NUL] + was[at + |all| + 1..]
  {
  }

  lemma WrittenOver(was: seq<char>, mid: seq<char>, now: seq<char>, at: nat, all: string, text: string)
    requires |all| == |text| && at + |all| < |was| && mid == was[..at] + all + was[at + |all|..]
    requires Written(mid, now, at, text)
    ensures Written(was, now, at, text)
  {
    assert mid[..at] == was[..at];
    assert mid[at + |text| + 1..] == was[at + |text| + 1..];
  }

  /** The digit loop: lowest digit first. */
  method PutLowFirst(val: nat, base: nat, buf: array<char>, at: nat) returns (i: nat)
    requires 2 <= base <= 16
    requires at + |LowFirst(val, base)| < buf.Length
    modifies buf
    ensures i == |LowFirst(val, base)|
    ensures buf[..] == old(buf[..at]) + LowFirst(val, base) + old(buf[at + i..])
  {
    ghost var was, all := buf[..], LowFirst(val, base);
    var v: nat := val;
    i := 0;
    while v > 0
      invariant i <= |all| && LowFirst(v, base) == all[i..]
      invariant buf[..] == was[..at] + all[..i] + was[at + i..]
    {
      Divided(v, base);
      assert all[i..] == [DigitChar(v % base)] + LowFirst(v / base, base);
      assert all[i..][0] == all[i] && all[i..][1..] == all[i + 1..];
      PutNext(was, all, at, i);
      buf[at + i] := DigitChar(v % base);
      i := i + 1;
      v := v / base;
    }
    assert LowFirst(v, base) == "" && |all[i..]| == |all| - i;
    assert all[..i] == all;
  }

  lemma PutNext(was: seq<char>, text: string, at: nat, i: nat)
    requires i < |text| && at + |text| < |was|
    ensures (was[..at] + text[..i] + was[at + i..])[at + i := text[i]] == was[..at] + text[..i + 1] + was[at + i + 1..]
  {
  }

  /** Signed conversion of a 64-bit value; the magnitude of the most negative one is reached without
      overflow, by negating its successor. */
  method Itoa(val: int, buf: array<char>, at: nat) returns (len: nat)
    requires -LONG_MAX - 1 <= val <= LONG_MAX
    requires at + |SignedNumeral(val)| + 1 <= buf.Length
    modifies buf
    ensures len == |SignedNumeral(val)| && Written(old(buf[..]), buf[..], at, SignedNumeral(val))
    ensures HoldsSigned(buf[..], at, len, val)
  {
    hide Numeral, Written, Holds, HoldsSigned;
    if val < 0 {
      ghost var was := buf[..];
      buf[at] := '-';
      var successor := val + 1;
      assert -LONG_MAX <= successor <= LONG_MAX && -successor <= LONG_MAX;
      var abs: nat := -successor + 1;
      assert abs < WORD;
      ghost var signed := buf[..];
      len := Utoa(abs, buf, at + 1);
      Signed(was, signed, buf[..], at, Numeral(abs, 10));
      len := 1 + len;
    } else {
      len := Utoa(val, buf, at);
    }
    WrittenSigned(old(buf[..]), buf[..], at, val);
  }

  lemma Signed(was: seq<char>, mid: seq<char>, now: seq<char>, at: nat, text: string)
    requires at < |was| && mid == was[at := '-'] && Written(mid, now, at + 1, text)
    ensures Written(was, now, at, "-" + text)
  {
    assert mid[..at + 1] == was[..at] + "-";
    assert mid[at + 1 + |text| + 1..] == was[at + 1 + |text| + 1..];
  }
}
