/** `printf` of src/stdio.c: a format loop over a 2048-byte buffer that is flushed by `write`. */
module Printf {
  import opened CString
  import opened Machine
  import opened Digits

  const BUF_SIZE := 2048
  /** the buffer is flushed one short of its size */
  const CHUNK := BUF_SIZE - 1
  const INT_RANGE := 0x1_0000_0000
  const INT_MAX := 0x7fff_ffff

  // ---------------------------------------------------------------- what should be printed

  datatype CPointer = Null | To(text: string)

  datatype Arg =
    | Int(i: int)
    | UInt(u: nat)
    | Str(s: CPointer)
    | Char(c: int)
    | Ptr(p: nat)

  /** The values a C caller can pass; a text has no NUL in it. */
  ghost predicate InRange(a: Arg) {
    match a
    case Int(i) => -INT_MAX - 1 <= i <= INT_MAX
    case UInt(u) => u < INT_RANGE
    case Str(s) => s.To? ==> NUL !in s.text
    case Char(c) => -INT_MAX - 1 <= c <= INT_MAX
    case Ptr(p) => p < WORD
  }

  predicate Converts(c: char) {
    c in "diuxscp"
  }

  /** `a` is of the type that the conversion `c` reads. */
  predicate Fits(c: char, a: Arg) {
    if c == 'd' || c == 'i' then a.Int?
    else if c == 'u' || c == 'x' then a.UInt?
    else if c == 's' then a.Str?
    else if c == 'c' then a.Char?
    else a.Ptr?
  }

  /** Every conversion of the format finds an argument of its type. */
  ghost predicate Matches(fmt: string, args: seq<Arg>)
    decreases |fmt|
  {
    if fmt == "" then true
    else if fmt[0] != '%' then Matches(fmt[1..], args)
    else if |fmt| == 1 then true
    else if Converts(fmt[1]) then
      args != [] && InRange(args[0]) && Fits(fmt[1], args[0]) && Matches(fmt[2..], args[1..])
    else Matches(fmt[2..], args)
  }

  /** A length cast to `int`. */
  function ToInt(n: nat): int {
    if n % INT_RANGE <= INT_MAX then n % INT_RANGE else n % INT_RANGE - INT_RANGE
  }

  /** The part of a text that a loop up to its length, cast to `int`, prints. */
  function Shown(s: string): string {
    if ToInt(|s|) <= 0 then "" else s[..ToInt(|s|)]
  }

  /** The text of one conversion; `whole` asks for all of a text however long. */
  function Piece(c: char, a: Arg, whole: bool): string
    requires Fits(c, a)
  {
    if c == 'd' || c == 'i' then SignedNumeral(a.i)
    else if c == 'u' then Numeral(a.u, 10)
    else if c == 'x' then Numeral(a.u, 16)
    else if c == 's' then
      (if a.s.Null? then "(null)" else if whole then a.s.text else Shown(a.s.text))
    else if c == 'c' then [(a.c % 256) as char]
    else "0x" + Numeral(a.p, 16)
  }

  /** The output for a format and its arguments, without any buffer. */
  ghost function Render(fmt: string, args: seq<Arg>, whole: bool): string
    requires Matches(fmt, args)
    decreases |fmt|
  {
    if fmt == "" then ""
    else if fmt[0] != '%' then [fmt[0]] + Render(fmt[1..], args, whole)
    else if |fmt| == 1 then ""
    else if Converts(fmt[1]) then Piece(fmt[1], args[0], whole) + Render(fmt[2..], args[1..], whole)
    else (if fmt[1] == '%' then "%" else "%" + [fmt[1]]) + Render(fmt[2..], args, whole)
  }

  /** Every text printed by %s is shorter than 2^31. */
  ghost predicate TextsShort(fmt: string, args: seq<Arg>)
    requires Matches(fmt, args)
    decreases |fmt|
  {
    if fmt == "" then true
    else if fmt[0] != '%' then TextsShort(fmt[1..], args)
    else if |fmt| == 1 then true
    else if Converts(fmt[1]) then
      (fmt[1] == 's' && args[0].s.To? ==> |args[0].s.text| <= INT_MAX) && TextsShort(fmt[2..], args[1..])
    else TextsShort(fmt[2..], args)
  }

  lemma ShownLength(s: string)
    ensures |Shown(s)| <= |s| && Shown(s) <= s
    ensures |Shown(s)| == |s| <==> |s| <= INT_MAX
    ensures |s| <= INT_MAX ==> Shown(s) == s
  {
  }

  /** The int-length loop prints whole texts exactly when they are all shorter than 2^31. */
  lemma {:induction false} RenderWhole(fmt: string, args: seq<Arg>)
    requires Matches(fmt, args)
    ensures |Render(fmt, args, false)| <= |Render(fmt, args, true)|
    ensures Render(fmt, args, false) == Render(fmt, args, true) <==> TextsShort(fmt, args)
    ensures |Render(fmt, args, false)| == |Render(fmt, args, true)| <==> TextsShort(fmt, args)
    decreases |fmt|
  {
    if fmt == "" {
    } else if fmt[0] != '%' {
      RenderWhole(fmt[1..], args);
    } else if |fmt| > 1 {
      if Converts(fmt[1]) {
        RenderWhole(fmt[2..], args[1..]);
        if fmt[1] == 's' && args[0].s.To? {
          ShownLength(args[0].s.text);
        }
      } else {
        RenderWhole(fmt[2..], args);
      }
    }
  }

  // ---------------------------------------------------------------- what the renderer means

  /** `out` is a right text for the conversion `c` of `a`: a numeral that is read back as the argument, the
      one character whose code is the argument's low byte, or the text itself when shorter than 2^31 (and
      otherwise a proper part of it). */
  ghost predicate Prints(c: char, a: Arg, out: string)
    requires Fits(c, a)
  {
    match c
    case 'd' => IsSigned(out) && ParseSigned(out) == a.i
    case 'i' => IsSigned(out) && ParseSigned(out) == a.i
    case 'u' => IsNumeral(out, 10) && Parse(out, 10) == a.u
    case 'x' => IsNumeral(out, 16) && Parse(out, 16) == a.u
    case 'p' => |out| > 2 && out[..2] == "0x" && IsNumeral(out[2..], 16) && Parse(out[2..], 16) == a.p
    case 'c' => |out| == 1 && out[0] as int == a.c % 256
    case 's' =>
      (match a.s
       case Null => out == "(null)"
       case To(text) => out <= text && (out == text <==> |text| < 0x8000_0000))
    case _ => false
  }

  lemma PiecePrints(c: char, a: Arg)
    requires Converts(c) && InRange(a) && Fits(c, a)
    ensures Prints(c, a, Piece(c, a, false))
  {
    hide Numeral, SignedNumeral, IsNumeral, IsSigned, Shown;
    if a.Int? {
      SignedRoundTrip(a.i);
      SignedShape(a.i);
    } else if a.UInt? {
      NumeralShape(a.u, if c == 'u' then 10 else 16);
      NumeralRoundTrip(a.u, if c == 'u' then 10 else 16);
    } else if a.Str? && a.s.To? {
      ShownLength(a.s.text);
    } else if a.Ptr? {
      NumeralShape(a.p, 16);
      NumeralRoundTrip(a.p, 16);
      var out := Piece(c, a, false);
      assert out[2..] == Numeral(a.p, 16);
      assert Numeral(a.p, 16) != "" by { NoLeadingZero(a.p, 16); }
    }
  }

  /** A format of one conversion prints its argument. */
  lemma RenderOne(c: char, a: Arg)
    requires c in "diuxscp" && InRange(a) && Fits(c, a)
    ensures Matches("%" + [c], [a]) && Reads("%" + [c]) == 1 && Complete("%" + [c])
    ensures Prints(c, a, Render("%" + [c], [a], false))
  {
    var fmt := "%" + [c];
    assert fmt[2..] == "" && fmt[1] == c && [a][1..] == [];
    PiecePrints(c, a);
    assert Piece(c, a, false) + "" == Piece(c, a, false);
  }

  /** Whatever is no conversion is printed as it is, but of "%%" only one half and of a `%` at the end
      nothing. */
  lemma RenderOther(c: char, args: seq<Arg>, whole: bool)
    requires c !in "diuxscp"
    ensures var fmt := "%" + [c];
      && Matches(fmt, args) && Reads(fmt) == 0 && Complete(fmt)
      && Render(fmt, args, whole) == if c == '%' then "%" else fmt
    ensures Matches("%", args) && Reads("%") == 0 && !Complete("%") && Render("%", args, whole) == ""
  {
    var fmt := "%" + [c];
    assert fmt[2..] == "" && fmt[1] == c;
  }

  lemma {:induction false} RenderPlain(fmt: string, args: seq<Arg>, whole: bool)
    requires '%' !in fmt
    ensures Matches(fmt, args) && Reads(fmt) == 0 && Complete(fmt) && Render(fmt, args, whole) == fmt
  {
    if fmt != "" {
      assert fmt[0] in fmt && forall d :: d in fmt[1..] ==> d in fmt;
      RenderPlain(fmt[1..], args, whole);
    }
  }

  /** How many arguments a format reads. */
  function Reads(fmt: string): nat
    decreases |fmt|
  {
    if |fmt| < 2 then 0
    else if fmt[0] != '%' then Reads(fmt[1..])
    else (if Converts(fmt[1]) then 1 else 0) + Reads(fmt[2..])
  }

  /** The format does not end right behind the `%` of a conversion. */
  predicate Complete(fmt: string)
    decreases |fmt|
  {
    if fmt == "" then true
    else if fmt[0] != '%' then Complete(fmt[1..])
    else |fmt| > 1 && Complete(fmt[2..])
  }

  /** The output for two formats one behind the other is the two outputs one behind the other. */
  lemma {:induction false} RenderJoin(f: string, g: string, args: seq<Arg>, whole: bool)
    requires Complete(f) && Matches(f + g, args)
    ensures Matches(f, args) && Reads(f) <= |args| && Matches(g, args[Reads(f)..])
    ensures Render(f + g, args, whole) == Render(f, args, whole) + Render(g, args[Reads(f)..], whole)
    decreases |f|
  {
    hide Piece, InRange, Fits;
    if f == "" {
      assert f + g == g && args[0..] == args;
    } else if f[0] != '%' {
      assert (f + g)[1..] == f[1..] + g;
      RenderJoin(f[1..], g, args, whole);
      Regroup([f[0]], Render(f[1..], args, whole), Render(g, args[Reads(f)..], whole));
    } else {
      assert (f + g)[2..] == f[2..] + g && (f + g)[1] == f[1];
      if Converts(f[1]) {
        RenderJoin(f[2..], g, args[1..], whole);
        assert args[1..][Reads(f[2..])..] == args[Reads(f)..];
        Regroup(Piece(f[1], args[0], whole), Render(f[2..], args[1..], whole), Render(g, args[Reads(f)..], whole));
      } else {
        RenderJoin(f[2..], g, args, whole);
        Regroup(if f[1] == '%' then "%" else "%" + [f[1]], Render(f[2..], args, whole),
                Render(g, args[Reads(f)..], whole));
      }
    }
  }

  lemma Regroup(a: string, b: string, c: string)
    ensures a + (b + c) == a + b + c
  {
  }

  // ---------------------------------------------------------------- chunks

  /** `s` cut into pieces of CHUNK characters and a shorter last one. */
  function Chunks(s: string): seq<string> {
    if s == "" then []
    else if |s| <= CHUNK then [s]
    else [s[..CHUNK]] + Chunks(s[CHUNK..])
  }

  predicate AllFull(ws: seq<string>) {
    forall i :: 0 <= i < |ws| ==> |ws[i]| == CHUNK
  }

  /** The writes lose and add nothing; all but the last are full; there are ceil(|s| / CHUNK). */
  lemma {:induction false} ChunksPartition(s: string)
    ensures Concat(Chunks(s)) == s
    ensures forall i :: 0 <= i < |Chunks(s)| - 1 ==> |Chunks(s)[i]| == 2047
    ensures s != "" ==> Chunks(s) != [] && 1 <= |Chunks(s)[|Chunks(s)| - 1]| <= 2047
    ensures |Chunks(s)| == (|s| + 2046) / 2047
  {
    if s == "" {
    } else if |s| <= CHUNK {
      assert Chunks(s)[1..] == [];
    } else {
      var w, rest, more := s[..CHUNK], s[CHUNK..], Chunks(s[CHUNK..]);
      ChunksPartition(rest);
      OneMore(|rest| + CHUNK - 1);
      assert Chunks(s) == [w] + more;
      hide Chunks;
      assert Chunks(s)[1..] == more && s == w + rest;
    }
  }

  lemma OneMore(x: nat)
    ensures (x + CHUNK) / CHUNK == x / CHUNK + 1
  {
  }

  /** Full pieces followed by a non-empty rest are the chunks of their text. */
  lemma {:induction false} ChunksOf(ws: seq<string>, rest: string)
    requires AllFull(ws) && |rest| <= CHUNK
    ensures Chunks(Concat(ws) + rest) == if rest == "" then ws else ws + [rest]
  {
    if ws == [] {
      assert "" + rest == rest;
    } else {
      var more := Concat(ws[1..]) + rest;
      ChunksOf(ws[1..], rest);
      ConcatLength(ws[1..]);
      assert Concat(ws) + rest == ws[0] + more;
      assert ws == [ws[0]] + ws[1..];
      assert ws + [rest] == [ws[0]] + (ws[1..] + [rest]);
      ChunkFirst(ws[0], more);
    }
  }

  lemma ChunkFirst(w: string, more: string)
    requires |w| == CHUNK
    ensures Chunks(w + more) == [w] + Chunks(more)
  {
    var s := w + more;
    if more == "" {
      assert s == w;
    } else {
      assert s[..CHUNK] == w && s[CHUNK..] == more;
    }
  }

  lemma {:induction false} ConcatLength(ws: seq<string>)
    requires AllFull(ws)
    ensures |Concat(ws)| == CHUNK * |ws|
  {
    if ws != [] { ConcatLength(ws[1..]); }
  }

  /** The sum of the positive entries. */
  function SumPositive(rs: seq<int>): int {
    if rs == [] then 0 else SumPositive(rs[..|rs| - 1]) + (if rs[|rs| - 1] > 0 then rs[|rs| - 1] else 0)
  }

  /** `total` is an int: it is that sum as long as the sum fits, and anything once it has overflowed. */
  ghost predicate Summed(total: int, rs: seq<int>) {
    && -INT_MAX - 1 <= total <= INT_MAX
    && (SumPositive(rs) <= INT_MAX ==> total == SumPositive(rs))
  }

  /** No write claims more than it was given. */
  ghost predicate Bounded(ws: seq<string>, rs: seq<int>) {
    |ws| == |rs| && forall i :: 0 <= i < |ws| ==> rs[i] <= |ws[i]|
  }

  lemma OneWrite(ws: seq<string>, rs: seq<int>, w: string, r: int)
    requires Bounded(ws, rs) && r <= |w|
    ensures Bounded(ws + [w], rs + [r])
    ensures SumPositive(rs + [r]) == SumPositive(rs) + if r > 0 then r else 0
    ensures 0 <= SumPositive(rs)
  {
    assert (rs + [r])[..|rs|] == rs;
    SumIsNat(rs);
  }

  lemma {:induction false} SumIsNat(rs: seq<int>)
    ensures SumPositive(rs) >= 0
  {
    if rs != [] { SumIsNat(rs[..|rs| - 1]); }
  }

  /** The sum never exceeds the length of the text, and reaches it exactly when every write took all
      it was given. */
  lemma {:induction false} SumReachesLength(ws: seq<string>, rs: seq<int>)
    requires Bounded(ws, rs) && forall i :: 0 <= i < |ws| ==> ws[i] != ""
    ensures SumPositive(rs) <= |Concat(ws)|
    ensures SumPositive(rs) == |Concat(ws)| <==> forall i :: 0 <= i < |ws| ==> rs[i] == |ws[i]|
  {
    if ws != [] {
      var n := |ws| - 1;
      SumReachesLength(ws[..n], rs[..n]);
      ConcatAppend(ws[..n], ws[n]);
      assert ws == ws[..n] + [ws[n]];
      assert forall i :: 0 <= i < n ==> ws[..n][i] == ws[i] && rs[..n][i] == rs[i];
    } else {
      assert rs == [];
    }
  }

  /** The result of `printf` for a text whose chunks were written with the results `rs`. */
  lemma ResultIsLength(text: string, rs: seq<int>)
    requires Bounded(Chunks(text), rs)
    ensures SumPositive(rs) <= |text|
    ensures SumPositive(rs) == |text| <==> forall i :: 0 <= i < |rs| ==> rs[i] == |Chunks(text)[i]|
  {
    ChunksPartition(text);
    SumReachesLength(Chunks(text), rs);
  }

  // ---------------------------------------------------------------- the buffered writer

  /** Standard output behind `write`: it may take any part of what it is given, or fail. */
  class Stdout {
    var writes: seq<string>
    var results: seq<int>

    constructor ()
      ensures writes == [] && results == []
    {
      writes, results := [], [];
    }

    method Write(chunk: string) returns (written: int)
      modifies this
      ensures writes == old(writes) + [chunk] && results == old(results) + [written] && written <= |chunk|
    {
      written := *;
      if written > |chunk| {
        written := |chunk|;
      }
      writes, results := writes + [chunk], results + [written];
    }
  }

  class Context {
    const out: Stdout
    const buf: array<char>
    var pos: nat
    var total: int
    /** everything put since the context was set up */
    ghost var put: string
    ghost const writesBefore: seq<string>
    ghost const resultsBefore: seq<int>

    /** What the calls to `write` since then were given and answered. */
    ghost predicate Valid()
      reads this, out, buf
    {
      && buf.Length == BUF_SIZE && pos <= CHUNK
      && writesBefore <= out.writes && resultsBefore <= out.results
      && var ws, rs := out.writes[|writesBefore|..], out.results[|resultsBefore|..];
      && AllFull(ws) && Concat(ws) + buf[..pos] == put
      && Bounded(ws, rs) && Summed(total, rs)
    }

    constructor (out: Stdout)
      ensures this.out == out && fresh(buf) && Valid() && put == "" && pos == 0 && total == 0
      ensures writesBefore == out.writes && resultsBefore == out.results
    {
      this.out := out;
      buf := new char[BUF_SIZE];
      pos, total := 0, 0;
      put := "";
      writesBefore, resultsBefore := out.writes, out.results;
    }

    method Flush()
      requires Valid()
      modifies this`pos, this`total, out
      ensures put == old(put) && pos == 0
      ensures out.writes == old(out.writes) + (if old(pos) > 0 then [old(buf[..pos])] else [])
      ensures resultsBefore <= out.results && Summed(total, out.results[|resultsBefore|..])
      ensures writesBefore <= out.writes && Bounded(out.writes[|writesBefore|..], out.results[|resultsBefore|..])
    {
      hide Bounded, SumPositive, Concat, AllFull;
      if pos > 0 {
        ghost var ws, rs := out.writes[|writesBefore|..], out.results[|resultsBefore|..];
        var written := out.Write(buf[..pos]);
        assert out.results[|resultsBefore|..] == rs + [written];
        assert out.writes[|writesBefore|..] == ws + [buf[..pos]];
        OneWrite(ws, rs, buf[..pos], written);
        if written > 0 {
          if total + written <= INT_MAX {
            total := total + written;
          } else {
            // signed overflow: the result is undefined
            var undefined: int :| -INT_MAX - 1 <= undefined <= INT_MAX;
            total := undefined;
          }
        }
        pos := 0;
      }
    }

    /** The last flush: what was written are the chunks of everything put. */
    method Finish() returns (r: int)
      requires Valid()
      modifies this`pos, this`total, out
      ensures out.writes == writesBefore + Chunks(put) && resultsBefore <= out.results
      ensures Summed(r, out.results[|resultsBefore|..])
      ensures Bounded(Chunks(put), out.results[|resultsBefore|..])
    {
      hide Concat, Chunks, SumPositive, Bounded, AllFull;
      ghost var ws, rest := out.writes[|writesBefore|..], buf[..pos];
      ChunksOf(ws, rest);
      Flush();
      assert out.writes[|writesBefore|..] == Chunks(put);
      r := total;
    }

    method Putc(c: char)
      requires Valid()
      modifies this`pos, this`total, this`put, buf, out
      ensures Valid() && put == old(put) + [c]
    {
      hide Concat, SumPositive, Bounded;
      if pos >= BUF_SIZE - 1 {
        ghost var ws, chunk := out.writes[|writesBefore|..], buf[..pos];
        Flush();
        assert out.writes[|writesBefore|..] == ws + [chunk];
        ConcatAppend(ws, chunk);
      }
      ghost var head := buf[..pos];
      buf[pos] := c;
      pos := pos + 1;
      put := put + [c];
      assert buf[..pos] == head + [c];
    }

    method Puts(s: seq<char>, len: int)
      requires Valid() && len <= |s|
      modifies this`pos, this`total, this`put, buf, out
      ensures Valid() && put == old(put) + (if len <= 0 then "" else s[..len])
    {
      var i := 0;
      while i < len
        invariant 0 <= i && if len >= 0 then i <= len else i == 0
        invariant Valid() && put == old(put) + s[..i]
      {
        Putc(s[i]);
        assert s[..i + 1] == s[..i] + [s[i]];
        i := i + 1;
      }
    }

    method PutSigned(v: int)
      requires Valid() && -INT_MAX - 1 <= v <= INT_MAX
      modifies this`pos, this`total, this`put, buf, out
      ensures Valid() && put == old(put) + SignedNumeral(v)
    {
      hide SignedNumeral;
      SignedRoundTrip(v);
      var numBuf := new char[32];
      var len := Itoa(v, numBuf, 0);
      TextAtStart(numBuf[..], SignedNumeral(v));
      Puts(numBuf[..], len);
    }

    method PutUnsigned(v: nat)
      requires Valid() && v < WORD
      modifies this`pos, this`total, this`put, buf, out
      ensures Valid() && put == old(put) + Numeral(v, 10)
    {
      hide Numeral;
      NumeralLength(v);
      var numBuf := new char[32];
      var len := Utoa(v, numBuf, 0);
      TextAtStart(numBuf[..], Numeral(v, 10));
      Puts(numBuf[..], len);
    }

    method PutHex(v: nat)
      requires Valid() && v < WORD
      modifies this`pos, this`total, this`put, buf, out
      ensures Valid() && put == old(put) + Numeral(v, 16)
    {
      hide Numeral;
      NumeralLength(v);
      var numBuf := new char[32];
      var len := Xtoa(v, numBuf, 0);
      TextAtStart(numBuf[..], Numeral(v, 16));
      Puts(numBuf[..], len);
    }

    method PutText(s: CPointer)
      requires Valid() && (s.To? ==> NUL !in s.text)
      modifies this`pos, this`total, this`put, buf, out
      ensures Valid() && put == old(put) + if s.Null? then "(null)" else Shown(s.text)
    {
      match s
      case Null => Puts("(null)", 6);
      case To(text) =>
        TextUnique(text + [NUL], text);
        var n := Strlen(text + [NUL]);
        IntBound(n);
        Puts(text, ToInt(n));
    }

    /** One conversion: the argument's text goes into the buffer. */
    method PutArg(c: char, a: Arg)
      requires Valid() && Converts(c) && InRange(a) && Fits(c, a)
      modifies this`pos, this`total, this`put, buf, out
      ensures Valid() && put == old(put) + Piece(c, a, false)
      ensures old(put) <= put && Prints(c, a, put[|old(put)|..])
    {
      hide Numeral, SignedNumeral, Shown, Valid, Prints;
      PiecePrints(c, a);
      if c == 'd' || c == 'i' {
        PutSigned(a.i);
      } else if c == 'u' {
        PutUnsigned(a.u);
      } else if c == 'x' {
        PutHex(a.u);
      } else if c == 's' {
        PutText(a.s);
      } else if c == 'c' {
        Putc((a.c % 256) as char);
      } else {
        Puts("0x", 2);
        PutHex(a.p);
      }
      assert put[|old(put)|..] == Piece(c, a, false);
    }
  }

  lemma IntBound(n: nat)
    ensures ToInt(n) <= n
  {
  }

  lemma TextAtStart(s: seq<char>, text: string)
    requires exists was :: Written(was, s, 0, text)
    ensures |text| < |s| && s[..|text|] == text
  {
  }

  /** `printf`: the writes are the chunks of the rendered text; the result is what they took, as long as
      that fits an int. */
  method Printf(out: Stdout, fmt: seq<char>, args: seq<Arg>) returns (r: int)
    requires NUL in fmt && Matches(Text(fmt), args)
    modifies out
    ensures out.writes == old(out.writes) + Chunks(Render(Text(fmt), args, false))
    ensures old(out.results) <= out.results
    ensures SumPositive(out.results[|old(out.results)|..]) <= 0x7fff_ffff ==>
      r == SumPositive(out.results[|old(out.results)|..])
    ensures Bounded(Chunks(Render(Text(fmt), args, false)), out.results[|old(out.results)|..])
    ensures var text, rs := Render(Text(fmt), args, false), out.results[|old(out.results)|..];
      |text| <= 0x7fff_ffff && (forall i :: 0 <= i < |rs| ==> rs[i] == |Chunks(text)[i]|) ==> r == |text|
  {
    hide Render, Matches, Piece, Concat, Chunks, SumPositive, Fits, InRange, Text, Bounded, Context.Valid, Formatted;
    ghost var all := Text(fmt);
    var ctx := new Context(out);
    var i, j := 0, 0;
    FormatStart(all, args);
    while fmt[i] != NUL
      invariant i <= |all| && j <= |args| && fresh(ctx) && fresh(ctx.buf) && ctx.out == out && ctx.Valid()
      invariant ctx.writesBefore == old(out.writes) && ctx.resultsBefore == old(out.results)
      invariant Formatted(ctx.put, all, args, i, j)
      decreases |all| - i
    {
      TextFrom(fmt, i);
      if fmt[i] != '%' {
        FormatPlain(ctx.put, all, args, i, j);
        ctx.Putc(fmt[i]);
        i := i + 1;
        continue;
      }
      i := i + 1;
      if fmt[i] == NUL {
        EndOfText(fmt, i);
        FormatLone(ctx.put, all, args, j);
        break;
      }
      TextFrom(fmt, i) by { TextEnd(fmt, i); }
      if Converts(fmt[i]) {
        FormatConversion(ctx.put, all, args, i - 1, j);
        ctx.PutArg(fmt[i], args[j]);
        j := j + 1;
      } else if fmt[i] == '%' {
        FormatOther(ctx.put, all, args, i - 1, j);
        ctx.Putc('%');
      } else {
        FormatOther(ctx.put, all, args, i - 1, j);
        ghost var put := ctx.put;
        ctx.Putc('%');
        ctx.Putc(fmt[i]);
        assert ctx.put == put + ("%" + [fmt[i]]);
      }
      i := i + 1;
    }
    EndOfText(fmt, i);
    FormatEnd(ctx.put, all, args, j);
    r := ctx.Finish();
    ResultIsLength(Render(all, args, false), out.results[|old(out.results)|..]);
  }

  lemma TextEnd(fmt: seq<char>, i: nat)
    requires NUL in fmt && i <= |Text(fmt)| && fmt[i] != NUL
    ensures i < |Text(fmt)|
  {
  }

  lemma EndOfText(fmt: seq<char>, i: nat)
    requires NUL in fmt && i <= |Text(fmt)| && fmt[i] == NUL
    ensures i == |Text(fmt)|
  {
    if i < |Text(fmt)| { TextFrom(fmt, i); }
  }

  /** With `put` printed, what the rest of the format prints completes the whole output. */
  ghost predicate Formatted(put: string, all: string, args: seq<Arg>, i: nat, j: nat) {
    && i <= |all| && j <= |args| && Matches(all, args) && Matches(all[i..], args[j..])
    && put + Render(all[i..], args[j..], false) == Render(all, args, false)
  }

  lemma FormatStart(all: string, args: seq<Arg>)
    requires Matches(all, args)
    ensures Formatted("", all, args, 0, 0)
  {
    assert all[0..] == all && args[0..] == args && "" + Render(all, args, false) == Render(all, args, false);
  }

  lemma FormatEnd(put: string, all: string, args: seq<Arg>, j: nat)
    requires Formatted(put, all, args, |all|, j)
    ensures Matches(all, args) && put == Render(all, args, false)
  {
    assert put + "" == put;
  }

  /** A lone `%` at the end prints nothing. */
  lemma FormatLone(put: string, all: string, args: seq<Arg>, j: nat)
    requires all != "" && all[|all| - 1] == '%' && Formatted(put, all, args, |all| - 1, j)
    ensures Formatted(put, all, args, |all|, j)
  {
    assert all[|all| - 1..] == "%" && all[|all|..] == "";
  }

  lemma FormatPlain(put: string, all: string, args: seq<Arg>, i: nat, j: nat)
    requires i < |all| && all[i] != '%' && Formatted(put, all, args, i, j)
    ensures Formatted(put + [all[i]], all, args, i + 1, j)
  {
    assert all[i..][1..] == all[i + 1..];
    var rest := Render(all[i + 1..], args[j..], false);
    assert put + ([all[i]] + rest) == put + [all[i]] + rest;
  }

  lemma FormatConversion(put: string, all: string, args: seq<Arg>, i: nat, j: nat)
    requires i + 1 < |all| && all[i] == '%' && Converts(all[i + 1]) && Formatted(put, all, args, i, j)
    ensures j < |args| && InRange(args[j]) && Fits(all[i + 1], args[j])
    ensures Formatted(put + Piece(all[i + 1], args[j], false), all, args, i + 2, j + 1)
  {
    assert all[i..][2..] == all[i + 2..] && args[j..][1..] == args[j + 1..];
    hide Piece, Fits, InRange;
    var p, rest := Piece(all[i + 1], args[j], false), Render(all[i + 2..], args[j + 1..], false);
    assert put + (p + rest) == put + p + rest;
  }

  lemma FormatOther(put: string, all: string, args: seq<Arg>, i: nat, j: nat)
    requires i + 1 < |all| && all[i] == '%' && !Converts(all[i + 1]) && Formatted(put, all, args, i, j)
    ensures Formatted(put + (if all[i + 1] == '%' then "%" else "%" + [all[i + 1]]), all, args, i + 2, j)
  {
    assert all[i..][2..] == all[i + 2..];
    var p := if all[i + 1] == '%' then "%" else "%" + [all[i + 1]];
    var rest := Render(all[i + 2..], args[j..], false);
    assert put + (p + rest) == put + p + rest;
  }
}
