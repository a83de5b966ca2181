/** NUL-terminated strings. */
module CString {
  const NUL := '\0'

  /** The text of a NUL-terminated string. */
  function Text(s: seq<char>): (t: string)
    ensures |t| <= |s| && t == s[..|t|] && NUL !in t
    ensures NUL in s ==> |t| < |s| && s[|t|] == NUL
  {
    if s == [] || s[0] == NUL then "" else [s[0]] + Text(s[1..])
  }

  /** `strlen` */
  method Strlen(s: seq<char>) returns (n: nat)
    requires NUL in s
    ensures n == |Text(s)|
  {
    n := 0;
    while s[n] != NUL
      invariant n <= |Text(s)|
      decreases |s| - n
    {
      n := n + 1;
    }
  }

  /** Text is the only NUL-free prefix with a NUL behind it. */
  lemma {:induction false} TextUnique(s: seq<char>, t: string)
    requires |t| < |s| && s[..|t|] == t && s[|t|] == NUL && NUL !in t
    ensures Text(s) == t
  {
    if t != "" {
      assert s[0] == t[0] && s[1..][..|t[1..]|] == t[1..];
      assert t[0] in t && forall c :: c in t[1..] ==> c in t;
      TextUnique(s[1..], t[1..]);
      assert t == [t[0]] + t[1..];
    }
  }

  /** Walking over a string character by character. */
  lemma TextFrom(s: seq<char>, i: nat)
    requires NUL in s && i < |Text(s)|
    ensures Text(s)[i] == s[i] && Text(s)[i..] == [s[i]] + Text(s)[i + 1..]
    ensures s[i] != NUL
  {
    assert Text(s)[i] in Text(s);
  }

  /** Texts one after the other. */
  function Concat(ts: seq<string>): string {
    if ts == [] then "" else ts[0] + Concat(ts[1..])
  }

  lemma {:induction false} ConcatAppend(ws: seq<string>, w: string)
    ensures Concat(ws + [w]) == Concat(ws) + w
  {
    if ws == [] {
      assert ws + [w] == [w] && [w][1..] == [];
    } else {
      ConcatAppend(ws[1..], w);
      assert (ws + [w])[1..] == ws[1..] + [w];
    }
  }
}
