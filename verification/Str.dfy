/** The memory routines of src/string.c over one shared byte array; pointers are indices. */
module Str {
  type byte = x: int | 0 <= x < 256

  /** `s` after the n bytes at `src` were copied to `dest`. */
  function Copied(s: seq<byte>, dest: nat, src: nat, n: nat): seq<byte>
    requires dest + n <= |s| && src + n <= |s|
  {
    s[..dest] + s[src..src + n] + s[dest + n..]
  }

  function Filled(s: seq<byte>, dest: nat, c: byte, n: nat): seq<byte>
    requires dest + n <= |s|
  {
    s[..dest] + seq(n, i => c) + s[dest + n..]
  }

  /** Byte by byte: the n bytes from `dest` on are those that were at `src`, every other one is as it was. */
  ghost predicate Pasted(s: seq<byte>, t: seq<byte>, dest: nat, src: nat, n: nat)
    requires dest + n <= |s| && src + n <= |s|
  {
    && |t| == |s|
    && forall k :: 0 <= k < |t| ==> t[k] == if dest <= k < dest + n then s[src + (k - dest)] else s[k]
  }

  lemma CopiedPastes(s: seq<byte>, dest: nat, src: nat, n: nat)
    requires dest + n <= |s| && src + n <= |s|
    ensures Pasted(s, Copied(s, dest, src, n), dest, src, n)
  {
  }

  /** The n bytes from `dest` on are the low byte of `c`, every other one is as it was. */
  ghost predicate Painted(s: seq<byte>, t: seq<byte>, dest: nat, c: int, n: nat) {
    |t| == |s| && forall k :: 0 <= k < |t| ==> t[k] == if dest <= k < dest + n then c % 256 else s[k]
  }

  /** One step of a forward copy that is not behind its own writes. */
  lemma CopiedNext(s: seq<byte>, dest: nat, src: nat, i: nat)
    requires dest + i < |s| && src + i < |s| && !(src < dest <= src + i)
    ensures var r := Copied(s, dest, src, i);
      |r| == |s| && r[dest + i := r[src + i]] == Copied(s, dest, src, i + 1)
  {
    var r := Copied(s, dest, src, i);
    assert r[src + i] == s[src + i];
    assert s[src..src + i + 1] == s[src..src + i] + [s[src + i]];
  }

  /** One step of a backward copy towards a higher address. */
  lemma CopiedBefore(s: seq<byte>, dest: nat, src: nat, i: nat, n: nat)
    requires i < n && dest + n <= |s| && src + n <= |s| && src < dest
    ensures var r := Copied(s, dest + i + 1, src + i + 1, n - i - 1);
      |r| == |s| && r[dest + i := r[src + i]] == Copied(s, dest + i, src + i, n - i)
  {
    var r := Copied(s, dest + i + 1, src + i + 1, n - i - 1);
    assert r[src + i] == s[src + i];
    assert s[src + i..src + n] == [s[src + i]] + s[src + i + 1..src + n];
  }

  lemma CopiedNone(s: seq<byte>, dest: nat, src: nat)
    requires dest <= |s| && src <= |s|
    ensures Copied(s, dest, src, 0) == s
  {
  }

  lemma CopiedSelf(s: seq<byte>, at: nat, n: nat)
    requires at + n <= |s|
    ensures Copied(s, at, at, n) == s
  {
  }

  method Memcpy(a: array<byte>, dest: nat, src: nat, n: nat)
    requires dest + n <= a.Length && src + n <= a.Length
    requires dest + n <= src || src + n <= dest
    modifies a
    ensures a[..] == Copied(old(a[..]), dest, src, n)
    ensures Pasted(old(a[..]), a[..], dest, src, n)
  {
    hide Copied, Pasted;
    CopiedPastes(a[..], dest, src, n);
    ghost var was := a[..];
    CopiedNone(was, dest, src);
    for i := 0 to n
      invariant a[..] == Copied(was, dest, src, i)
    {
      CopiedNext(was, dest, src, i);
      a[dest + i] := a[src + i];
    }
  }

  /** Copies correctly however the two ranges overlap. */
  method Memmove(a: array<byte>, dest: nat, src: nat, n: nat)
    requires dest + n <= a.Length && src + n <= a.Length
    modifies a
    ensures a[..] == Copied(old(a[..]), dest, src, n)
    ensures Pasted(old(a[..]), a[..], dest, src, n)
  {
    hide Copied, Pasted;
    CopiedPastes(a[..], dest, src, n);
    ghost var was := a[..];
    if dest < src {
      CopiedNone(was, dest, src);
      for i := 0 to n
        invariant a[..] == Copied(was, dest, src, i)
      {
        CopiedNext(was, dest, src, i);
        a[dest + i] := a[src + i];
      }
    } else if dest > src {
      CopiedNone(was, dest + n, src + n);
      for i := n downto 0
        invariant a[..] == Copied(was, dest + i, src + i, n - i)
      {
        CopiedBefore(was, dest, src, i, n);
        a[dest + i] := a[src + i];
      }
    } else {
      CopiedSelf(was, dest, n);
    }
  }

  /** `c` is an int of which the low byte is stored. */
  method Memset(a: array<byte>, dest: nat, c: int, n: nat)
    requires dest + n <= a.Length
    modifies a
    ensures a[..] == Filled(old(a[..]), dest, c % 256, n)
    ensures Painted(old(a[..]), a[..], dest, c, n)
  {
    ghost var was := a[..];
    var b: byte := c % 256;
    for i := 0 to n
      invariant forall k :: 0 <= k < a.Length ==> a[k] == if dest <= k < dest + i then b else was[k]
    {
      a[dest + i] := b;
    }
    assert a[..] == Filled(was, dest, b, n);
  }

  /** The forward loop of `memcpy` as a function: one byte at a time, each read after the earlier writes. */
  function Forward(s: seq<byte>, dest: nat, src: nat, n: nat): (r: seq<byte>)
    requires dest + n <= |s| && src + n <= |s|
    ensures |r| == |s|
  {
    if n == 0 then s
    else
      var r := Forward(s, dest, src, n - 1);
      r[dest + n - 1 := r[src + n - 1]]
  }

  /** Where the source lies behind the destination, or clear of it, every read is of an old byte. */
  lemma {:induction false} ForwardClear(s: seq<byte>, dest: nat, src: nat, n: nat)
    requires dest + n <= |s| && src + n <= |s| && !(src < dest < src + n)
    ensures Forward(s, dest, src, n) == Copied(s, dest, src, n)
  {
    if n > 0 {
      ForwardClear(s, dest, src, n - 1);
      CopiedNext(s, dest, src, n - 1);
    } else {
      assert Copied(s, dest, src, 0) == s;
    }
  }

  /** Otherwise the first bytes copied come back as source: index dest + (dest - src) gets s[src]. */
  lemma {:induction false} ForwardRepeats(s: seq<byte>, dest: nat, src: nat, n: nat, j: nat)
    requires dest + n <= |s| && src + n <= |s| && src < dest
    requires j < n && j <= dest - src
    ensures Forward(s, dest, src, n)[dest + j] == s[if j < dest - src then src + j else src]
  {
    ForwardBelow(s, dest, src, n - 1);
    if j < n - 1 {
      ForwardRepeats(s, dest, src, n - 1, j);
    } else if j == dest - src {
      ForwardRepeats(s, dest, src, n - 1, 0);
    }
  }

  lemma {:induction false} ForwardBelow(s: seq<byte>, dest: nat, src: nat, n: nat)
    requires dest + n <= |s| && src + n <= |s|
    ensures forall k :: 0 <= k < dest ==> Forward(s, dest, src, n)[k] == s[k]
  {
    if n > 0 { ForwardBelow(s, dest, src, n - 1); }
  }

  lemma ForwardWrong(size: nat, dest: nat, src: nat, n: nat) returns (s: seq<byte>)
    requires dest + n <= size && src + n <= size && src < dest < src + n
    ensures |s| == size && Forward(s, dest, src, n) != Copied(s, dest, src, n)
  {
    hide Forward;
    s := seq(size, i => if i == dest then 1 else 0);
    ForwardRepeats(s, dest, src, n, dest - src);
    assert Copied(s, dest, src, n)[dest + (dest - src)] == s[dest];
  }

  /** Copying forward is a correct copy of every memory exactly when the destination does not start
      strictly inside the source: the overlap that memcpy excludes and memmove turns around for. */
  lemma ForwardExact(size: nat, dest: nat, src: nat, n: nat)
    requires dest + n <= size && src + n <= size
    ensures (forall s: seq<byte> :: |s| == size ==> Forward(s, dest, src, n) == Copied(s, dest, src, n))
      <==> !(src < dest < src + n)
  {
    hide Forward, Copied;
    if src < dest < src + n {
      var s := ForwardWrong(size, dest, src, n);
    } else {
      forall s: seq<byte> | |s| == size
        ensures Forward(s, dest, src, n) == Copied(s, dest, src, n)
      {
        ForwardClear(s, dest, src, n);
      }
    }
  }
}
