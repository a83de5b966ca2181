/** `parse_line` of examples/shell.c: the line is cut into arguments inside its own buffer. */
module ParseLine {
  import opened CString

  const MAX_ARGS := 64
  const NULL := -1

  // ---------------------------------------------------------------- the tokens of a line

  function SkipSpaces(s: string): (r: string)
    ensures |r| <= |s| && r == s[|s| - |r|..]
    ensures r != "" ==> r[0] != ' '
    ensures forall k :: 0 <= k < |s| - |r| ==> s[k] == ' '
  {
    if s != "" && s[0] == ' ' then SkipSpaces(s[1..]) else s
  }

  /** The tokens of the rest `s` of a line: `quoted` tells whether it starts inside quotes, `cur` is
      the token begun before it. */
  function Tokens(s: string, quoted: bool, cur: string): seq<string>
    decreases |s|
  {
    if s == "" then [cur]
    else if s[0] == '"' then Tokens(s[1..], !quoted, cur)
    else if s[0] == ' ' && !quoted then
      var rest := SkipSpaces(s[1..]);
      [cur] + (if rest == "" then [] else Tokens(rest, false, ""))
    else Tokens(s[1..], quoted, cur + [s[0]])
  }

  function Split(line: string): seq<string> { Tokens(line, false, "") }

  // ---------------------------------------------------------------- quoting

  function Quote(t: string): string { "\"" + t + "\"" }

  function JoinQuoted(ts: seq<string>): string
    requires ts != []
  {
    if |ts| == 1 then Quote(ts[0]) else Quote(ts[0]) + " " + JoinQuoted(ts[1..])
  }

  ghost predicate QuoteFree(ts: seq<string>) { Avoids(ts, '"') }

  /** Inside quotes every character but the quote is taken literally. */
  lemma {:induction false} Literal(t: string, rest: string, cur: string)
    requires '"' !in t
    ensures Tokens(t + rest, true, cur) == Tokens(rest, true, cur + t)
    decreases |t|
  {
    if t == "" {
      assert t + rest == rest && cur + t == cur;
    } else {
      assert (t + rest)[1..] == t[1..] + rest;
      assert t[0] in t;
      Literal(t[1..], rest, cur + [t[0]]);
      assert cur + [t[0]] + t[1..] == cur + t;
    }
  }

  lemma QuotedToken(t: string, rest: string)
    requires '"' !in t
    ensures Tokens(Quote(t) + rest, false, "") == Tokens(rest, false, t)
  {
    var s := Quote(t) + rest;
    assert s[1..] == t + ("\"" + rest);
    Literal(t, "\"" + rest, "");
    assert "" + t == t;
    assert ("\"" + rest)[1..] == rest;
  }

  /** Quoting round trip: quoted, joined by single spaces and split again, any list of quote-free
      texts comes back, empty ones and ones with spaces included. */
  lemma {:induction false} QuotingRoundTrip(ts: seq<string>)
    requires ts != [] && QuoteFree(ts)
    ensures Split(JoinQuoted(ts)) == ts
    decreases |ts|
  {
    if |ts| == 1 {
      assert Quote(ts[0]) + "" == Quote(ts[0]);
      QuotedToken(ts[0], "");
    } else {
      var tail := JoinQuoted(ts[1..]);
      assert JoinQuoted(ts) == Quote(ts[0]) + (" " + tail);
      QuotedToken(ts[0], " " + tail);
      assert (" " + tail)[1..] == tail;
      assert tail[0] == '"' by { JoinStarts(ts[1..]); }
      QuotingRoundTrip(ts[1..]);
    }
  }

  lemma JoinStarts(ts: seq<string>)
    requires ts != []
    ensures JoinQuoted(ts) != "" && JoinQuoted(ts)[0] == '"'
  {
  }

  ghost predicate Avoids(ts: seq<string>, c: char) {
    forall i :: 0 <= i < |ts| ==> c !in ts[i]
  }

  predicate Lacks(s: string, c: char) { c !in s }

  lemma SuffixLacks(s: string, c: char, k: nat)
    requires Lacks(s, c) && k <= |s|
    ensures Lacks(s[k..], c)
  {
    assert forall d :: d in s[k..] ==> d in s;
  }

  lemma AppendLacks(s: string, d: char, c: char)
    requires Lacks(s, c) && d != c
    ensures Lacks(s + [d], c)
  {
  }

  lemma ConsAvoids(t: string, ts: seq<string>, c: char)
    requires Lacks(t, c) && Avoids(ts, c)
    ensures Avoids([t] + ts, c)
  {
  }

  /** A character that the line does not have, or the quote, is in no token. */
  lemma {:induction false} TokensAvoid(s: string, quoted: bool, cur: string, c: char)
    requires Lacks(cur, c) && (c == '"' || Lacks(s, c))
    ensures Tokens(s, quoted, cur) != [] && Avoids(Tokens(s, quoted, cur), c)
    decreases |s|
  {
    assert s != "" && c != '"' ==> s[0] != c;
    hide Lacks, Avoids;
    ConsAvoids(cur, [], c) by { NoneAvoids(c); }
    assert [cur] + [] == [cur];
    if s == "" {
      return;
    }
    if c != '"' { SuffixLacks(s, c, 1); }
    if s[0] == '"' {
      TokensAvoid(s[1..], !quoted, cur, c);
    } else if s[0] == ' ' && !quoted {
      var rest := SkipSpaces(s[1..]);
      if rest != "" {
        if c != '"' { SuffixLacks(s[1..], c, |s[1..]| - |rest|); }
        EmptyLacks(c);
        TokensAvoid(rest, false, "", c);
        ConsAvoids(cur, Tokens(rest, false, ""), c);
      }
    } else {
      AppendLacks(cur, s[0], c);
      TokensAvoid(s[1..], quoted, cur + [s[0]], c);
    }
  }

  lemma EmptyLacks(c: char)
    ensures Lacks("", c)
  {
  }

  lemma NoneAvoids(c: char)
    ensures Avoids([], c)
  {
  }

  /** The line without its quotes and its unquoted spaces. */
  function Kept(s: string, quoted: bool): string {
    if s == "" then ""
    else if s[0] == '"' then Kept(s[1..], !quoted)
    else if s[0] == ' ' && !quoted then Kept(s[1..], quoted)
    else [s[0]] + Kept(s[1..], quoted)
  }

  lemma {:induction false} KeptSkips(s: string)
    ensures Kept(SkipSpaces(s), false) == Kept(s, false)
  {
    if s != "" && s[0] == ' ' { KeptSkips(s[1..]); }
  }

  /** Splitting loses and adds nothing: the tokens in order are the kept characters. */
  lemma {:induction false} TokensConserve(s: string, quoted: bool, cur: string)
    ensures Concat(Tokens(s, quoted, cur)) == cur + Kept(s, quoted)
    decreases |s|
  {
    if s == "" {
      assert [cur][1..] == [];
    } else if s[0] == '"' {
      TokensConserve(s[1..], !quoted, cur);
    } else if s[0] == ' ' && !quoted {
      var rest := SkipSpaces(s[1..]);
      KeptSkips(s[1..]);
      if rest != "" {
        TokensConserve(rest, false, "");
        assert ([cur] + Tokens(rest, false, ""))[1..] == Tokens(rest, false, "");
        assert "" + Kept(rest, false) == Kept(rest, false);
      } else {
        assert ([cur] + [])[1..] == [];
      }
    } else {
      TokensConserve(s[1..], quoted, cur + [s[0]]);
      assert cur + [s[0]] + Kept(s[1..], quoted) == cur + ([s[0]] + Kept(s[1..], quoted));
    }
  }

  /** The lists a line can produce are exactly the non-empty ones without a quote character. */
  lemma SplitRange(ts: seq<string>)
    ensures (exists line :: Split(line) == ts) <==> ts != [] && QuoteFree(ts)
  {
    if ts != [] && QuoteFree(ts) {
      QuotingRoundTrip(ts);
    }
    if line :| Split(line) == ts {
      TokensAvoid(line, false, "", '"');
    }
  }

  /** The round trip down to the buffer: up to 63 quoted texts without NUL are a line that `parse_line`
      turns into exactly these arguments. */
  lemma QuotedLine(ts: seq<string>)
    requires 1 <= |ts| <= 63 && QuoteFree(ts) && Avoids(ts, NUL)
    ensures var line := Text(JoinQuoted(ts) + [NUL]);
      Split(line) == ts && Min(|Split(line)|, MAX_ARGS - 1) == |ts|
  {
    JoinLacks(ts, NUL);
    TextUnique(JoinQuoted(ts) + [NUL], JoinQuoted(ts));
    QuotingRoundTrip(ts);
  }

  lemma {:induction false} JoinLacks(ts: seq<string>, c: char)
    requires ts != [] && Avoids(ts, c) && c != '"' && c != ' '
    ensures c !in JoinQuoted(ts)
    decreases |ts|
  {
    assert c !in Quote(ts[0]);
    if |ts| > 1 {
      JoinLacks(ts[1..], c);
    }
  }

  ghost predicate Blank(s: string) {
    forall k :: 0 <= k < |s| ==> s[k] == ' '
  }

  /** A word is one argument, however many spaces follow it, and what follows these is split by itself. */
  lemma SplitWords(word: string, gap: string, rest: string)
    requires '"' !in word && ' ' !in word && gap != "" && Blank(gap) && (rest != "" ==> rest[0] != ' ')
    ensures Split(word) == [word]
    ensures Split(word + gap + rest) == [word] + if rest == "" then [] else Split(rest)
  {
    hide Tokens, SkipSpaces;
    Unspaced(word, "", "");
    assert word + "" == word && "" + word == word;
    assert Tokens("", false, word) == [word] by { TokensEnd(word); }
    Unspaced(word, gap + rest, "");
    assert word + (gap + rest) == word + gap + rest;
    assert (gap + rest)[1..] == gap[1..] + rest;
    SkipGap(gap[1..], rest);
    TokensAtSpace(gap + rest, word);
  }

  lemma TokensEnd(cur: string)
    ensures Tokens("", false, cur) == [cur]
  {
  }

  /** Outside quotes every character but the quote and the space is taken literally. */
  lemma {:induction false} Unspaced(word: string, rest: string, cur: string)
    requires '"' !in word && ' ' !in word
    ensures Tokens(word + rest, false, cur) == Tokens(rest, false, cur + word)
    decreases |word|
  {
    if word == "" {
      assert word + rest == rest && cur + word == cur;
    } else {
      assert (word + rest)[1..] == word[1..] + rest;
      assert word[0] in word && forall c :: c in word[1..] ==> c in word;
      Unspaced(word[1..], rest, cur + [word[0]]);
      assert cur + [word[0]] + word[1..] == cur + word;
    }
  }

  lemma {:induction false} SkipGap(gap: string, rest: string)
    requires Blank(gap) && (rest != "" ==> rest[0] != ' ')
    ensures SkipSpaces(gap + rest) == rest
    decreases |gap|
  {
    if gap == "" {
      assert gap + rest == rest;
    } else {
      assert (gap + rest)[1..] == gap[1..] + rest;
      SkipGap(gap[1..], rest);
    }
  }

  /** A line that starts with a space has an empty first argument. */
  lemma LeadingSpace(line: string)
    requires line != "" && line[0] == ' '
    ensures Split(line)[0] == ""
  {
  }

  // ---------------------------------------------------------------- tokens in one buffer

  /** Tokens one after the other, each closed by a NUL. */
  function Layout(ts: seq<string>): string {
    if ts == [] then "" else ts[0] + [NUL] + Layout(ts[1..])
  }

  lemma {:induction false} LayoutAppend(ts: seq<string>, t: string)
    ensures Layout(ts + [t]) == Layout(ts) + t + [NUL]
  {
    if ts == [] {
      assert ts + [t] == [t] && [t][1..] == [];
    } else {
      LayoutAppend(ts[1..], t);
      assert (ts + [t])[1..] == ts[1..] + [t];
      assert ts[0] + [NUL] + (Layout(ts[1..]) + t + [NUL]) == ts[0] + [NUL] + Layout(ts[1..]) + t + [NUL];
    }
  }

  lemma {:induction false} LayoutSplit(ts: seq<string>, k: nat)
    requires k < |ts|
    ensures Layout(ts) == Layout(ts[..k]) + (ts[k] + [NUL] + Layout(ts[k + 1..]))
  {
    if k == 0 {
      assert ts[..0] == [];
      assert Layout(ts) == "" + Layout(ts);
    } else {
      LayoutSplit(ts[1..], k - 1);
      assert ts[1..][..k - 1] == ts[..k][1..] && ts[1..][k..] == ts[k + 1..];
    }
  }

  /** A buffer that starts with the layout holds token `k` as a string at its offset. */
  lemma TokenAt(s: seq<char>, ts: seq<string>, k: nat)
    requires k < |ts| && |Layout(ts)| <= |s| && s[..|Layout(ts)|] == Layout(ts) && Avoids(ts, NUL)
    ensures |Layout(ts[..k])| < |s| && Text(s[|Layout(ts[..k])|..]) == ts[k]
  {
    LayoutSplit(ts, k);
    assert NUL !in ts[k];
    hide Layout, Avoids, Text;
    StringIn(s, Layout(ts[..k]), ts[k], Layout(ts[k + 1..]));
    TextUnique(s[|Layout(ts[..k])|..], ts[k]);
  }

  lemma StringIn(s: seq<char>, a: string, t: string, c: string)
    requires var l := a + (t + [NUL] + c); |l| <= |s| && s[..|l|] == l
    ensures |a| + |t| < |s| && s[|a|..][..|t|] == t && s[|a|..][|t|] == NUL
  {
    var l := a + (t + [NUL] + c);
    forall k | 0 <= k < |t| + 1
      ensures s[|a| + k] == (t + [NUL])[k]
    {
      assert s[|a| + k] == s[..|l|][|a| + k] == l[|a| + k];
    }
  }

  /** The arguments recorded for the first tokens. */
  ghost predicate Recorded(argv: seq<int>, argc: nat, ts: seq<string>) {
    argc <= |argv| && argc <= |ts| + 1 && forall k :: 0 <= k < argc ==> argv[k] == |Layout(ts[..k])|
  }

  function Min(a: int, b: int): int { if a < b then a else b }

  lemma SkipOne(s: string, i: nat)
    requires i < |s|
    ensures SkipSpaces(s[i..]) == if s[i] == ' ' then SkipSpaces(s[i + 1..]) else s[i..]
  {
    assert s[i..][1..] == s[i + 1..];
  }

  /** From index `i` on the buffer is as it was. */
  ghost predicate Untouched(was: seq<char>, now: seq<char>, i: nat) {
    |now| == |was| && forall k :: i <= k < |was| ==> now[k] == was[k]
  }

  lemma UntouchedLess(was: seq<char>, now: seq<char>, i: nat, j: nat)
    requires Untouched(was, now, i) && i <= j <= |was|
    ensures Untouched(was, now, j)
  {
  }

  lemma UntouchedWrite(was: seq<char>, now: seq<char>, i: nat, out: nat, c: char)
    requires Untouched(was, now, i) && out <= i < |was|
    ensures Untouched(was, now[out := c], i + 1)
  {
  }

  /** Between two steps of the loop: `done` are the finished tokens, `cur` the one being written;
      `ended` says that only spaces followed the last token. The part of the buffer not yet read is
      untouched, the part written is the layout of the tokens so far. */
  ghost predicate Progress(was: seq<char>, now: seq<char>, argv: seq<int>, input: nat, out: nat, argc: nat,
                           inQuote: bool, done: seq<string>, cur: string, ended: bool) {
    var all := Text(was);
    && NUL in was && |argv| >= MAX_ARGS
    && Untouched(was, now, input) && out <= input <= |all| && now[..out] == Layout(done) + cur
    && (if ended then input == |all| && cur == "" && Split(all) == done
        else Split(all) == done + Tokens(all[input..], inQuote, cur))
    && argc == Min(if ended then |done| else |done| + 1, MAX_ARGS - 1)
    && Recorded(argv, argc, done)
  }

  lemma ProgressBounds(was: seq<char>, now: seq<char>, argv: seq<int>, input: nat, out: nat, argc: nat,
                       inQuote: bool, done: seq<string>, cur: string, ended: bool)
    requires Progress(was, now, argv, input, out, argc, inQuote, done, cur, ended)
    ensures out <= input <= |Text(was)| && Untouched(was, now, input) && argc < MAX_ARGS
    ensures input < |Text(was)| ==> !ended
  {
  }

  lemma Started(was: seq<char>, argv: seq<int>)
    requires NUL in was && |argv| >= MAX_ARGS && argv[0] == 0
    ensures Progress(was, was, argv, 0, 0, 1, false, [], "", false)
  {
    assert Text(was)[0..] == Text(was);
  }

  lemma StepQuote(was: seq<char>, now: seq<char>, argv: seq<int>, input: nat, out: nat, argc: nat, inQuote: bool,
                  done: seq<string>, cur: string)
    requires Progress(was, now, argv, input, out, argc, inQuote, done, cur, false)
    requires input < |Text(was)| && Text(was)[input] == '"'
    ensures Progress(was, now, argv, input + 1, out, argc, !inQuote, done, cur, false)
  {
    hide Text, Recorded, Layout;
    TokensQuote(Text(was), input, inQuote, cur);
    UntouchedLess(was, now, input, input + 1);
  }

  lemma StepChar(was: seq<char>, now: seq<char>, now': seq<char>, argv: seq<int>, input: nat, out: nat, argc: nat,
                 inQuote: bool, done: seq<string>, cur: string)
    requires Progress(was, now, argv, input, out, argc, inQuote, done, cur, false)
    requires input < |Text(was)| && Text(was)[input] != '"' && !(Text(was)[input] == ' ' && !inQuote)
    requires now' == now[out := Text(was)[input]]
    ensures Progress(was, now', argv, input + 1, out + 1, argc, inQuote, done, cur + [Text(was)[input]], false)
  {
    hide Text, Recorded, Layout, Tokens;
    var c := Text(was)[input];
    TokensChar(Text(was), input, inQuote, cur);
    UntouchedWrite(was, now, input, out, c);
    assert now'[..out + 1] == now[..out] + [c];
    assert Layout(done) + cur + [c] == Layout(done) + (cur + [c]);
  }

  lemma StepSpace(was: seq<char>, now: seq<char>, now': seq<char>, argv: seq<int>, argv': seq<int>, input: nat,
                  input': nat, out: nat, argc: nat, argc': nat, done: seq<string>, cur: string)
    requires Progress(was, now, argv, input, out, argc, false, done, cur, false)
    requires input < input' <= |Text(was)| && Text(was)[input] == ' '
    requires SkipSpaces(Text(was)[input + 1..]) == Text(was)[input'..]
    requires now' == now[out := NUL]
    requires if input' < |Text(was)| && argc < MAX_ARGS - 1
      then argv' == argv[argc := out + 1] && argc' == argc + 1
      else argv' == argv && argc' == argc
    ensures Progress(was, now', argv', input', out + 1, argc', false, done + [cur], "", input' == |Text(was)|)
  {
    hide Text, Recorded, Layout, Tokens, Min, SkipSpaces, Untouched, Split, Progress;
    var all := Text(was);
    ProgressParts(was, now, argv, input, out, argc, false, done, cur, false);
    SpaceTokens(all, input, input', cur, done);
    SpaceBuffer(was, now, now', input, input', out, done, cur);
    SpaceLayout(done, cur);
    SpaceArgs(argv, argv', argc, argc', done, cur, out + 1, input' < |all|);
    ProgressParts(was, now', argv', input', out + 1, argc', false, done + [cur], "", input' == |all|);
  }

  lemma ProgressParts(was: seq<char>, now: seq<char>, argv: seq<int>, input: nat, out: nat, argc: nat,
                      inQuote: bool, done: seq<string>, cur: string, ended: bool)
    ensures Progress(was, now, argv, input, out, argc, inQuote, done, cur, ended) <==>
      && NUL in was && |argv| >= MAX_ARGS && out <= input <= |Text(was)| && out <= |now|
      && Untouched(was, now, input) && now[..out] == Layout(done) + cur && Recorded(argv, argc, done)
      && (if ended then input == |Text(was)| && cur == "" && Split(Text(was)) == done
          else Split(Text(was)) == done + Tokens(Text(was)[input..], inQuote, cur))
      && argc == Min(if ended then |done| else |done| + 1, MAX_ARGS - 1)
    ensures Untouched(was, now, input) ==> |now| == |was|
  {
    hide Recorded, Layout, Tokens, Min, Split;
  }

  lemma SpaceTokens(all: string, input: nat, input': nat, cur: string, done: seq<string>)
    requires input < input' <= |all| && all[input] == ' ' && SkipSpaces(all[input + 1..]) == all[input'..]
    requires Split(all) == done + Tokens(all[input..], false, cur)
    ensures if input' == |all| then Split(all) == done + [cur]
      else Split(all) == (done + [cur]) + Tokens(all[input'..], false, "")
  {
    hide Tokens, SkipSpaces, Split;
    TokensSpace(all, input, input', cur, done);
  }

  lemma SpaceArgs(argv: seq<int>, argv': seq<int>, argc: nat, argc': nat, done: seq<string>, cur: string, out: nat,
                  more: bool)
    requires Recorded(argv, argc, done) && |argv| >= MAX_ARGS && argc == Min(|done| + 1, MAX_ARGS - 1)
    requires out == |Layout(done + [cur])|
    requires if more && argc < MAX_ARGS - 1
      then argv' == argv[argc := out] && argc' == argc + 1
      else argv' == argv && argc' == argc
    ensures Recorded(argv', argc', done + [cur])
    ensures argc' == Min(if more then |done + [cur]| + 1 else |done + [cur]|, MAX_ARGS - 1)
  {
    hide Recorded, Layout;
    RecordedGrows(argv, argc, done, cur);
    if more && argc < MAX_ARGS - 1 {
      RecordedNext(argv, argc, done + [cur], out);
    }
  }

  lemma SpaceLayout(done: seq<string>, cur: string)
    ensures |Layout(done + [cur])| == |Layout(done) + cur| + 1
  {
    LayoutAppend(done, cur);
  }

  lemma SpaceBuffer(was: seq<char>, now: seq<char>, now': seq<char>, input: nat, input': nat, out: nat,
                    done: seq<string>, cur: string)
    requires out <= input < input' <= |was| && Untouched(was, now, input)
    requires now[..out] == Layout(done) + cur && now' == now[out := NUL]
    ensures Untouched(was, now', input')
    ensures now'[..out + 1] == Layout(done + [cur]) + ""
  {
    hide Layout;
    UntouchedWrite(was, now, input, out, NUL);
    UntouchedLess(was, now', input + 1, input');
    assert now'[..out + 1] == now[..out] + [NUL];
    LayoutAppend(done, cur);
  }

  /** The end of the line: with a last NUL the buffer starts with the layout of all tokens. */
  lemma Finished(was: seq<char>, now: seq<char>, now': seq<char>, argv: seq<int>, input: nat, out: nat, argc: nat,
                 inQuote: bool, done: seq<string>, cur: string, ended: bool)
    requires Progress(was, now, argv, input, out, argc, inQuote, done, cur, ended)
    requires input == |Text(was)| && now' == now[out := NUL]
    ensures var ts := Split(Text(was));
      && argc == Min(|ts|, MAX_ARGS - 1)
      && forall k :: 0 <= k < argc ==> 0 <= argv[k] < |now'| && Text(now'[argv[k]..]) == ts[k]
    ensures now'[|Text(was)| + 1..] == was[|Text(was)| + 1..]
  {
    hide Text, Layout, Tokens, Split;
    var ts := Split(Text(was));
    FinalLayout(was, now, now', argv, input, out, argc, inQuote, done, cur, ended);
    NoNulInside(was);
    forall k | 0 <= k < argc
      ensures 0 <= argv[k] < |now'| && Text(now'[argv[k]..]) == ts[k]
    {
      TokenAt(now', ts, k);
    }
    assert forall k :: input < k < |was| ==> now'[k] == was[k];
  }

  lemma NoNulInside(s: seq<char>)
    ensures Avoids(Split(Text(s)), NUL)
  {
    hide Text;
    TextEndsAtNul(s);
    TokensAvoid(Text(s), false, "", NUL);
  }

  lemma TextEndsAtNul(s: seq<char>)
    ensures NUL !in Text(s)
  {
  }

  lemma FinalLayout(was: seq<char>, now: seq<char>, now': seq<char>, argv: seq<int>, input: nat, out: nat, argc: nat,
                    inQuote: bool, done: seq<string>, cur: string, ended: bool)
    requires Progress(was, now, argv, input, out, argc, inQuote, done, cur, ended)
    requires input == |Text(was)| && now' == now[out := NUL]
    ensures var ts := Split(Text(was));
      && |Layout(ts)| <= |now'| && now'[..|Layout(ts)|] == Layout(ts)
      && Recorded(argv, argc, ts) && argc == Min(|ts|, MAX_ARGS - 1)
  {
    hide Text, Layout, Recorded;
    var all, ts := Text(was), Split(Text(was));
    assert now'[..out + 1] == now[..out] + [NUL];
    if ended {
      assert Layout(done) + "" == Layout(done);
      assert now'[..out] == now[..out];
    } else {
      assert all[input..] == "" && ts == done + [cur];
      LayoutAppend(done, cur);
      RecordedGrows(argv, argc, done, cur);
    }
  }

  /** The inner loop: runs over the spaces behind a token. */
  method SkipBlanks(buf: array<char>, from: nat, ghost was: seq<char>, ghost all: string) returns (input: nat)
    requires NUL in was && all == Text(was)
    requires from <= |all| && Untouched(was, buf[..], from)
    ensures from <= input <= |all| < buf.Length
    ensures SkipSpaces(all[from..]) == all[input..]
    ensures buf[input] == NUL <==> input == |all|
  {
    hide Text, SkipSpaces, Untouched, Skipped;
    ghost var now := buf[..];
    input := from;
    Unread(was, all, now, input);
    assert Skipped(all, from, from) by { SkippedNone(all, from); }
    while buf[input] == ' '
      invariant from <= input <= |all| < |now| == buf.Length && now == buf[..] && |now| == |was|
      invariant Skipped(all, from, input) && Untouched(was, now, input)
      invariant (now[input] == NUL <==> input == |all|) && (input < |all| ==> now[input] == all[input])
      decreases |all| - input
    {
      SkippedOne(all, from, input);
      UntouchedLess(was, now, input, input + 1);
      input := input + 1;
      Unread(was, all, now, input);
    }
    SkippedAll(all, from, input);
  }

  /** From `from` to `i` there are only spaces. */
  ghost predicate Skipped(all: string, from: nat, i: nat) {
    from <= i <= |all| && SkipSpaces(all[i..]) == SkipSpaces(all[from..])
  }

  lemma SkippedNone(all: string, from: nat)
    requires from <= |all|
    ensures Skipped(all, from, from)
  {
    hide SkipSpaces;
  }

  lemma SkippedOne(all: string, from: nat, i: nat)
    requires Skipped(all, from, i) && i < |all| && all[i] == ' '
    ensures Skipped(all, from, i + 1)
  {
    hide SkipSpaces;
    SkipOne(all, i);
  }

  lemma SkippedAll(all: string, from: nat, i: nat)
    requires Skipped(all, from, i) && (i < |all| ==> all[i] != ' ')
    ensures SkipSpaces(all[from..]) == all[i..]
  {
    hide SkipSpaces;
    SkipEnd(all, i);
  }

  /** `parse_line`: the argument vector holds the first 63 tokens of the line, closed by NULL. */
  method ParseLine(buf: array<char>, argv: array<int>) returns (argc: nat)
    requires NUL in buf[..] && argv.Length >= 64
    modifies buf, argv
    ensures var n := |Split(old(Text(buf[..])))|; argc == if n < 63 then n else 63
    ensures forall k :: 0 <= k < argc ==>
      0 <= argv[k] < buf.Length && Text(buf[argv[k]..]) == Split(old(Text(buf[..])))[k]
    ensures argv[argc] == NULL
    ensures buf[|old(Text(buf[..]))| + 1..] == old(buf[|Text(buf[..])| + 1..])
  {
    hide Text, Split, Tokens, Layout, Recorded, SkipSpaces, Progress, Untouched;
    ghost var was, all := buf[..], Text(buf[..]);
    ghost var done: seq<string>, cur: string, ended := [], "", false;
    var inQuote, input, out := false, 0, 0;
    argv[0] := out;
    argc := 1;
    Started(was, argv[..]);
    while buf[input] != NUL
      invariant input < |was| && input <= |all|
      invariant Progress(was, buf[..], argv[..], input, out, argc, inQuote, done, cur, ended)
      decreases |all| - input
    {
      ghost var now, args := buf[..], argv[..];
      ProgressBounds(was, now, args, input, out, argc, inQuote, done, cur, ended);
      Unread(was, all, now, input);
      if buf[input] == '"' {
        StepQuote(was, now, args, input, out, argc, inQuote, done, cur);
        inQuote := !inQuote;
        input := input + 1;
        continue;
      }
      if buf[input] == ' ' && !inQuote {
        ghost var i0, out0, argc0 := input, out, argc;
        buf[out] := NUL;
        assert buf[..] == now[out0 := NUL];
        out := out + 1;
        UntouchedWrite(was, now, input, out0, NUL);
        input := SkipBlanks(buf, input + 1, was, all);
        if buf[input] != NUL && argc < MAX_ARGS - 1 {
          argv[argc] := out;
          argc := argc + 1;
        }
        assert argv[..] == if argc == argc0 then args else args[argc0 := out];
        StepSpace(was, now, buf[..], args, argv[..], i0, input, out0, argc0, argc, done, cur);
        done, cur, ended := done + [cur], "", input == |all|;
        continue;
      }
      StepChar(was, now, now[out := buf[input]], args, input, out, argc, inQuote, done, cur);
      cur := cur + [buf[input]];
      buf[out] := buf[input];
      out := out + 1;
      input := input + 1;
    }
    ProgressBounds(was, buf[..], argv[..], input, out, argc, inQuote, done, cur, ended);
    Unread(was, all, buf[..], input);
    Finished(was, buf[..], buf[..][out := NUL], argv[..], input, out, argc, inQuote, done, cur, ended);
    buf[out] := NUL;
    argv[argc] := NULL;
  }

  /** The round trip in the buffer itself: texts that were quoted, joined and closed by a NUL come back as
      the arguments. */
  method ParseQuoted(buf: array<char>, argv: array<int>, ghost ts: seq<string>) returns (argc: nat)
    requires 1 <= |ts| <= 63 && QuoteFree(ts) && Avoids(ts, NUL)
    requires |JoinQuoted(ts)| < buf.Length && buf[..|JoinQuoted(ts)| + 1] == JoinQuoted(ts) + [NUL]
    requires argv.Length >= 64
    modifies buf, argv
    ensures argc == |ts| && argv[argc] == NULL
    ensures forall k :: 0 <= k < |ts| ==> 0 <= argv[k] < buf.Length && Text(buf[argv[k]..]) == ts[k]
  {
    hide Text, Split, JoinQuoted, QuoteFree, Avoids;
    QuotedLine(ts);
    QuotedText(buf[..], ts);
    argc := ParseLine(buf, argv);
  }

  lemma QuotedText(s: seq<char>, ts: seq<string>)
    requires ts != [] && Avoids(ts, NUL)
    requires |JoinQuoted(ts)| < |s| && s[..|JoinQuoted(ts)| + 1] == JoinQuoted(ts) + [NUL]
    ensures NUL in s && Text(s) == JoinQuoted(ts) == Text(JoinQuoted(ts) + [NUL])
  {
    hide Text, JoinQuoted, Avoids;
    var line := JoinQuoted(ts);
    JoinLacks(ts, NUL);
    assert s[|line|] == s[..|line| + 1][|line|] == NUL;
    assert s[..|line|] == s[..|line| + 1][..|line|] == line;
    TextUnique(s, line);
    TextUnique(line + [NUL], line);
  }

  /** The unread part of the buffer is the rest of the line. */
  lemma Unread(was: seq<char>, all: string, now: seq<char>, i: nat)
    requires NUL in was && all == Text(was) && i <= |all| && Untouched(was, now, i)
    ensures i < |now| == |was|
    ensures now[i] == NUL <==> i == |all|
    ensures i < |all| ==> now[i] == all[i]
  {
    if i < |all| { TextFrom(was, i); }
  }

  lemma TokensQuote(all: string, i: nat, quoted: bool, cur: string)
    requires i < |all| && all[i] == '"'
    ensures Tokens(all[i..], quoted, cur) == Tokens(all[i + 1..], !quoted, cur)
  {
    assert all[i..][1..] == all[i + 1..];
  }

  lemma TokensChar(all: string, i: nat, quoted: bool, cur: string)
    requires i < |all| && all[i] != '"' && !(all[i] == ' ' && !quoted)
    ensures Tokens(all[i..], quoted, cur) == Tokens(all[i + 1..], quoted, cur + [all[i]])
  {
    assert all[i..][1..] == all[i + 1..];
  }

  lemma TokensSpace(all: string, i: nat, j: nat, cur: string, done: seq<string>)
    requires i < j <= |all| && all[i] == ' ' && SkipSpaces(all[i + 1..]) == all[j..]
    ensures done + Tokens(all[i..], false, cur) ==
      (done + [cur]) + (if j == |all| then [] else Tokens(all[j..], false, ""))
  {
    hide Tokens, SkipSpaces;
    assert all[i..][1..] == all[i + 1..];
    TokensAtSpace(all[i..], cur);
    assert j == |all| <==> all[j..] == "";
    var more := if j == |all| then [] else Tokens(all[j..], false, "");
    assert done + ([cur] + more) == (done + [cur]) + more;
  }

  lemma TokensAtSpace(s: string, cur: string)
    requires s != "" && s[0] == ' '
    ensures var rest := SkipSpaces(s[1..]);
      Tokens(s, false, cur) == [cur] + (if rest == "" then [] else Tokens(rest, false, ""))
  {
    hide SkipSpaces;
  }

  lemma SkipEnd(all: string, i: nat)
    requires i <= |all| && (i < |all| ==> all[i] != ' ')
    ensures SkipSpaces(all[i..]) == all[i..]
  {
  }

  lemma RecordedGrows(argv: seq<int>, argc: nat, done: seq<string>, cur: string)
    requires Recorded(argv, argc, done)
    ensures Recorded(argv, argc, done + [cur])
  {
    assert forall k :: 0 <= k < argc ==> (done + [cur])[..k] == done[..k];
  }

  lemma RecordedNext(argv: seq<int>, argc: nat, done: seq<string>, out: nat)
    requires Recorded(argv, argc, done) && argc == |done| < |argv| && out == |Layout(done)|
    ensures Recorded(argv[argc := out], argc + 1, done)
  {
    assert done[..argc] == done;
  }
}
