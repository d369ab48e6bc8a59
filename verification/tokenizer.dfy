/**
  The tokenizer of the shell (`parse` in myshell.c).

  `parse` walks a NUL-terminated line buffer, overwrites every whitespace
  character it passes with NUL, and records a pointer to the first character
  of each word it meets, at most MAXARGS of them. Here the buffer is a
  `seq<char>`, a pointer into it is an index, and the C string a pointer
  designates is read back with `Deref`, so the recorded words are seen exactly
  as the caller sees them: through the overwritten buffer.
*/
module Tokenizer {

  /** Capacity of the argument vector, not counting its NULL sentinel. */
  const MAXARGS: nat := 60

  /** The `isspace` set of the C locale. The NUL terminator is not in it, and
      every member is the space or an ASCII control character. */
  predicate IsSpace(c: char)
    ensures IsSpace(c) ==> c != '\0' && c as int <= 0x20
  {
    c == ' ' || c == '\t' || c == '\n' || c == '\U{B}' || c == '\U{C}' || c == '\r'
  }

  /** Length of the C string held in `buf`: the index of its first NUL, or the
      whole buffer when the terminator lies just past the stored characters. */
  function CLen(buf: seq<char>): (n: nat)
    ensures n <= |buf|
    ensures forall i :: 0 <= i < n ==> buf[i] != '\0'
    ensures n < |buf| ==> buf[n] == '\0'
  {
    if buf == [] || buf[0] == '\0' then 0 else 1 + CLen(buf[1..])
  }

  /** The C string held in `buf`. */
  function CStr(buf: seq<char>): string {
    buf[..CLen(buf)]
  }

  /** The C string the pointer `p` designates in `buf`. */
  function Deref(buf: seq<char>, p: nat): string
    requires p <= |buf|
  {
    CStr(buf[p..])
  }

  /** The character `*p` reads; past the stored characters sits the terminator. */
  function Peek(buf: seq<char>, p: nat): char {
    if p < |buf| then buf[p] else '\0'
  }

  /** A word: a non-empty run of non-whitespace characters. */
  predicate IsWord(w: string) {
    |w| > 0 && forall i :: 0 <= i < |w| ==> !IsSpace(w[i])
  }

  /** Length of the run of non-whitespace characters at the front of `s`. */
  function RunLength(s: string): (n: nat)
    ensures n <= |s|
    ensures forall i :: 0 <= i < n ==> !IsSpace(s[i])
    ensures n < |s| ==> IsSpace(s[n])
  {
    if s == [] || IsSpace(s[0]) then 0 else 1 + RunLength(s[1..])
  }

  /** The maximal whitespace-free runs of `s`, left to right: the words a
      shell line is made of, independently of how `parse` finds them. */
  function Words(s: string): seq<string>
    decreases |s|
  {
    if s == [] then []
    else if IsSpace(s[0]) then Words(s[1..])
    else [s[..RunLength(s)]] + Words(s[RunLength(s)..])
  }

  /** `buf` is `line` after `parse` has overwritten with NUL every whitespace
      character in front of index `stop`, and nothing else. */
  ghost predicate Scrubbed(line: seq<char>, stop: nat, buf: seq<char>) {
    && |buf| == |line|
    && forall i :: 0 <= i < |line| ==> buf[i] == (if i < stop && IsSpace(line[i]) then '\0' else line[i])
  }

  /** The word `w` sits at index `a` of the C string of `line` (of length `n`)
      and ends there: at the terminator or at a whitespace character. */
  ghost predicate WordAt(line: seq<char>, n: nat, a: nat, w: string) {
    && IsWord(w)
    && a + |w| <= n <= |line|
    && line[a..a + |w|] == w
    && (a + |w| == n || IsSpace(line[a + |w|]))
  }

  lemma CLenUnique(buf: seq<char>, m: nat)
    requires m <= |buf|
    requires forall i :: 0 <= i < m ==> buf[i] != '\0'
    requires m == |buf| || buf[m] == '\0'
    ensures CLen(buf) == m
  {
  }

  lemma RunLengthUnique(s: string, m: nat)
    requires m <= |s|
    requires forall i :: 0 <= i < m ==> !IsSpace(s[i])
    requires m == |s| || IsSpace(s[m])
    ensures RunLength(s) == m
  {
  }

  /** A recorded word reads back intact through the overwritten buffer, provided
      the whitespace character ending it has been overwritten too. */
  lemma DerefWord(line: seq<char>, stop: nat, a: nat, w: string, b: seq<char>)
    requires stop <= CLen(line)
    requires WordAt(line, CLen(line), a, w)
    requires a + |w| == CLen(line) || a + |w| < stop
    requires Scrubbed(line, stop, b)
    ensures a < |b| && Deref(b, a) == w
  {
    var n := CLen(line);
    var t := b[a..];
    var e := |w|;
    forall i | 0 <= i < e
      ensures t[i] == w[i] && t[i] != '\0'
    {
      assert line[a..a + e][i] == line[a + i];
    }
    if a + e == n {
      if n < |line| {
        assert t[e] == b[n] == line[n] == '\0';
      }
    } else {
      assert t[e] == b[a + e] == '\0';
    }
    CLenUnique(t, e);
    assert CStr(t) == w;
  }

  /** Words of a suffix that starts with whitespace skip that character. */
  lemma WordsSkipSpace(s: string, p: nat)
    requires p < |s| && IsSpace(s[p])
    ensures Words(s[p..]) == Words(s[p + 1..])
  {
    assert s[p..][1..] == s[p + 1..];
  }

  /** Words of a suffix that starts at a word begin with that word. */
  lemma WordsTakeWord(s: string, p: nat, q: nat)
    requires p < q <= |s|
    requires forall i :: p <= i < q ==> !IsSpace(s[i])
    requires q == |s| || IsSpace(s[q])
    ensures Words(s[p..]) == [s[p..q]] + Words(s[q..])
  {
    var t := s[p..];
    RunLengthUnique(t, q - p);
    assert t[..q - p] == s[p..q];
    assert t[q - p..] == s[q..];
  }

  lemma SliceOfPrefix(line: seq<char>, n: nat, a: nat, p: nat)
    requires a <= p <= n <= |line|
    ensures line[..n][a..p] == line[a..p]
  {
    assert forall i :: 0 <= i < p - a ==> line[..n][a..p][i] == line[a + i];
  }

  /** Where the scan stands, the character `*p` reads is the line's own
      character, or the terminator at the end of the C string. */
  lemma PeekScrubbed(line: seq<char>, p: nat, buf: seq<char>)
    requires p <= CLen(line) && Scrubbed(line, p, buf)
    ensures Peek(buf, p) == (if p == CLen(line) then '\0' else line[p])
  {
  }

  /** Overwriting the whitespace character at `p` extends the overwritten
      stretch by one and skips no word. */
  lemma BlankStep(line: seq<char>, p: nat, buf: seq<char>)
    requires p < CLen(line) && IsSpace(line[p]) && Scrubbed(line, p, buf)
    ensures Scrubbed(line, p + 1, buf[p := '\0'])
    ensures Words(CStr(line)[p..]) == Words(CStr(line)[p + 1..])
  {
    WordsSkipSpace(CStr(line), p);
  }

  /** The blanking loop of `parse`: overwrite the whitespace from `p` on with NUL
      and stop at the first other character. */
  method SkipBlanks(line: seq<char>, buf0: seq<char>, p0: nat) returns (buf: seq<char>, p: nat)
    requires p0 <= CLen(line) && Scrubbed(line, p0, buf0)
    ensures p0 <= p <= CLen(line) && Scrubbed(line, p, buf)
    ensures forall i :: p0 <= i < p ==> IsSpace(line[i])
    ensures p < CLen(line) ==> !IsSpace(line[p])
    ensures Words(CStr(line)[p0..]) == Words(CStr(line)[p..])
  {
    ghost var s := CStr(line);
    buf, p := buf0, p0;
    PeekScrubbed(line, p, buf);
    while IsSpace(Peek(buf, p))
      invariant p0 <= p <= CLen(line) && Scrubbed(line, p, buf)
      invariant Peek(buf, p) == (if p == CLen(line) then '\0' else line[p])
      invariant forall i :: p0 <= i < p ==> IsSpace(line[i])
      invariant Words(s[p0..]) == Words(s[p..])
      decreases |line| - p
    {
      BlankStep(line, p, buf);
      buf := buf[p := '\0'];
      p := p + 1;
      PeekScrubbed(line, p, buf);
    }
  }

  /** The word loop of `parse`: move from the first character of a word to the
      character just past it. */
  method SkipWord(line: seq<char>, buf: seq<char>, a: nat) returns (p: nat)
    requires a <= CLen(line) && Scrubbed(line, a, buf)
    ensures a <= p <= CLen(line)
    ensures forall i :: a <= i < p ==> !IsSpace(line[i])
    ensures p == CLen(line) || IsSpace(line[p])
  {
    p := a;
    PeekScrubbed(line, p, buf);
    while Peek(buf, p) != '\0' && !IsSpace(Peek(buf, p))
      invariant a <= p <= CLen(line)
      invariant Peek(buf, p) == (if p == CLen(line) then '\0' else line[p])
      invariant forall i :: a <= i < p ==> !IsSpace(line[i])
      decreases |line| - p
    {
      p := p + 1;
      assert Scrubbed(line, a, buf);
      PeekScrubbed(line, p, buf);
    }
  }

  /** The pointers `args` designate the first words `W` of the line, each
      lying before `p`. */
  ghost predicate Recorded(line: seq<char>, n: nat, W: seq<string>, args: seq<nat>, p: nat) {
    && |args| <= |W|
    && forall k :: 0 <= k < |args| ==> WordAt(line, n, args[k], W[k]) && args[k] + |W[k]| <= p
  }

  /** The pointers increase, and each word ends before the next one starts. */
  ghost predicate Ordered(W: seq<string>, args: seq<nat>)
    requires |args| <= |W|
  {
    && (forall k, k' :: 0 <= k < k' < |args| ==> args[k] < args[k'])
    && (forall k :: 0 <= k < |args| - 1 ==> args[k] + |W[k]| < args[k + 1])
  }

  /** What the scan of `parse` has established when it stands at `p` with the
      pointers `args` recorded: they are the first words of the line, in order,
      the words still ahead are the rest, and all recorded words lie before `p`. */
  ghost predicate Scanned(line: seq<char>, p: nat, args: seq<nat>) {
    && p <= CLen(line)
    && Recorded(line, CLen(line), Words(CStr(line)), args, p)
    && Ordered(Words(CStr(line)), args)
    && Words(CStr(line)[p..]) == Words(CStr(line))[|args|..]
  }

  lemma RecordedExtend(line: seq<char>, n: nat, W: seq<string>, args: seq<nat>, p: nat, q: nat)
    requires Recorded(line, n, W, args, p)
    requires |args| < |W| && WordAt(line, n, p, W[|args|]) && q == p + |W[|args|]|
    ensures Recorded(line, n, W, args + [p], q)
  {
    assert forall k :: 0 <= k < |args| ==> (args + [p])[k] == args[k];
  }

  lemma OrderedExtend(line: seq<char>, n: nat, W: seq<string>, args: seq<nat>, p: nat)
    requires Recorded(line, n, W, args, p) && Ordered(W, args)
    requires |args| < |W| && p < n <= |line| && !IsSpace(line[p])
    ensures Ordered(W, args + [p])
  {
    var args' := args + [p];
    assert forall k :: 0 <= k < |args| ==> args'[k] == args[k] < p by {
      assert forall k :: 0 <= k < |args| ==> WordAt(line, n, args[k], W[k]);
    }
    if |args| > 0 {
      var last := |args| - 1;
      assert WordAt(line, n, args[last], W[last]);
      assert args[last] + |W[last]| < p;
    }
  }

  /** Passing over whitespace keeps the scan's account of the line. */
  lemma ScanBlanks(line: seq<char>, p: nat, q: nat, args: seq<nat>)
    requires Scanned(line, p, args)
    requires p <= q <= CLen(line)
    requires Words(CStr(line)[p..]) == Words(CStr(line)[q..])
    ensures Scanned(line, q, args)
  {
  }

  /** When the words from `p` on are those of the line from index `i` on, and a
      word spans `p` to `q`, it is word `i` and the words from `q` on follow it. */
  lemma NextWord(line: seq<char>, p: nat, q: nat, i: nat)
    requires p < q <= CLen(line)
    requires forall j :: p <= j < q ==> !IsSpace(line[j])
    requires q == CLen(line) || IsSpace(line[q])
    requires i <= |Words(CStr(line))| && Words(CStr(line)[p..]) == Words(CStr(line))[i..]
    ensures i < |Words(CStr(line))| && Words(CStr(line))[i] == line[p..q]
    ensures Words(CStr(line)[q..]) == Words(CStr(line))[i + 1..]
  {
    var s := CStr(line);
    var W := Words(s);
    SliceOfPrefix(line, CLen(line), p, q);
    WordsTakeWord(s, p, q);
    assert W[i..] == [line[p..q]] + Words(s[q..]);
    assert W[i + 1..] == W[i..][1..];
  }

  /** Recording the word that starts at `p` and ends at `q` extends the account. */
  lemma ScanWord(line: seq<char>, p: nat, q: nat, args: seq<nat>)
    requires Scanned(line, p, args)
    requires p < q <= CLen(line)
    requires forall i :: p <= i < q ==> !IsSpace(line[i])
    requires q == CLen(line) || IsSpace(line[q])
    ensures Scanned(line, q, args + [p])
  {
    NextWord(line, p, q, |args|);
    RecordWord(line, CLen(line), Words(CStr(line)), args, p, q);
  }

  /** Recording the next word `W[|args|]`, which spans `p` to `q`, keeps the
      pointers designating the first words, in order. */
  lemma RecordWord(line: seq<char>, n: nat, W: seq<string>, args: seq<nat>, p: nat, q: nat)
    requires Recorded(line, n, W, args, p) && Ordered(W, args)
    requires p < q <= n <= |line|
    requires forall i :: p <= i < q ==> !IsSpace(line[i])
    requires q == n || IsSpace(line[q])
    requires |args| < |W| && W[|args|] == line[p..q]
    ensures Recorded(line, n, W, args + [p], q) && Ordered(W, args + [p])
  {
    assert WordAt(line, n, p, W[|args|]);
    RecordedExtend(line, n, W, args, p, q);
    OrderedExtend(line, n, W, args, p);
  }

  /** Once the scan has stopped at the terminator or in front of a word, every
      recorded word ends at the terminator or at a character already overwritten. */
  lemma ScanEnds(line: seq<char>, n: nat, W: seq<string>, args: seq<nat>, stop: nat, k: nat)
    requires Recorded(line, n, W, args, stop) && Ordered(W, args)
    requires stop <= n <= |line|
    requires stop == n || !IsSpace(line[stop])
    requires k < |args|
    ensures WordAt(line, n, args[k], W[k])
    ensures args[k] + |W[k]| == n || args[k] + |W[k]| < stop
  {
    var last := |args| - 1;
    assert WordAt(line, n, args[last], W[last]);
    if k < last {
      assert args[k] + |W[k]| < args[k + 1];
      assert args[k + 1] <= args[last];
    }
  }

  /** Once the scan has stopped at the terminator or in front of a word, every
      recorded pointer designates its word in the overwritten buffer. */
  lemma ScanDone(line: seq<char>, W: seq<string>, args: seq<nat>, stop: nat, buf: seq<char>)
    requires Recorded(line, CLen(line), W, args, stop) && Ordered(W, args)
    requires stop <= CLen(line) && Scrubbed(line, stop, buf)
    requires stop == CLen(line) || !IsSpace(line[stop])
    ensures forall k :: 0 <= k < |args| ==> args[k] < |buf| && Deref(buf, args[k]) == W[k]
  {
    forall k | 0 <= k < |args|
      ensures args[k] < |buf| && Deref(buf, args[k]) == W[k]
    {
      ScanEnds(line, CLen(line), W, args, stop, k);
      DerefWord(line, stop, args[k], W[k], buf);
    }
  }

  /**
    The scan of `parse`: `ok` is its return value, `buf` the line buffer
    afterwards, `args` the recorded pointers (the NULL sentinel is the end of
    the sequence) and `stop` where the scan stopped.
  */
  method Parse(line: seq<char>) returns (ok: bool, buf: seq<char>, args: seq<nat>, ghost stop: nat)
    ensures ok <==> |Words(CStr(line))| <= MAXARGS
    ensures |args| <= MAXARGS
    ensures ok ==> |args| == |Words(CStr(line))|
    ensures !ok ==> |args| == MAXARGS
    ensures forall k :: 0 <= k < |args| ==> args[k] < |buf| && Deref(buf, args[k]) == Words(CStr(line))[k]
    ensures forall k, k' :: 0 <= k < k' < |args| ==> args[k] < args[k']
    ensures stop <= CLen(line) && Scrubbed(line, stop, buf)
    ensures ok <==> stop == CLen(line)
    ensures !ok ==> !IsSpace(line[stop]) && Words(CStr(line)[stop..]) == Words(CStr(line))[MAXARGS..]
  {
    buf := line;
    var p: nat := 0;
    args := [];
    while true
      invariant Scanned(line, p, args) && Scrubbed(line, p, buf)
      invariant |args| <= MAXARGS
      decreases |line| - p
    {
      var q: nat;
      buf, q := SkipBlanks(line, buf, p);
      ScanBlanks(line, p, q, args);
      p := q;
      PeekScrubbed(line, p, buf);
      if Peek(buf, p) == '\0' || |args| >= MAXARGS {
        ok := Peek(buf, p) == '\0';
        stop := p;
        break;
      }
      q := SkipWord(line, buf, p);
      ScanWord(line, p, q, args);
      args := args + [p];
      assert Scrubbed(line, q, buf);
      p := q;
    }
    ScanDone(line, Words(CStr(line)), args, stop, buf);
    if !ok {
      var s := CStr(line);
      assert s[stop..][0] == line[stop];
      assert |Words(s[stop..])| > 0;
    }
  }

  /** Every word `parse` can record is non-empty and free of whitespace. */
  lemma {:induction false} WordsAreWords(s: string)
    ensures forall k :: 0 <= k < |Words(s)| ==> IsWord(Words(s)[k])
    decreases |s|
  {
    if s == [] {
    } else if IsSpace(s[0]) {
      WordsAreWords(s[1..]);
    } else {
      var n := RunLength(s);
      WordsAreWords(s[n..]);
      assert Words(s) == [s[..n]] + Words(s[n..]);
    }
  }

  /** A line of whitespace only holds no word. */
  lemma {:induction false} BlankHasNoWords(s: string)
    requires forall i :: 0 <= i < |s| ==> IsSpace(s[i])
    ensures Words(s) == []
    decreases |s|
  {
    if s != [] {
      BlankHasNoWords(s[1..]);
    }
  }

  /** The words `ws` written out, each followed by one space. */
  function Unwords(ws: seq<string>): string {
    if ws == [] then [] else ws[0] + [' '] + Unwords(ws[1..])
  }

  /** A word followed by a space is the first word of what it starts. */
  lemma WordsOfWordThenSpace(w: string, rest: string)
    requires IsWord(w)
    ensures Words(w + [' '] + rest) == [w] + Words(rest)
  {
    var t := w + [' '] + rest;
    RunLengthUnique(t, |w|);
    assert t[..|w|] == w;
    assert t[|w|..] == [' '] + rest;
    assert ([' '] + rest)[1..] == rest;
  }

  /** Splitting words apart and joining them back with spaces is the identity:
      `Words` recovers the words of any such line, in order, whatever follows. */
  lemma {:induction false} WordsOfUnwords(ws: seq<string>, tail: string)
    requires forall k :: 0 <= k < |ws| ==> IsWord(ws[k])
    ensures Words(Unwords(ws) + tail) == ws + Words(tail)
    decreases |ws|
  {
    if ws == [] {
      assert Unwords(ws) + tail == tail;
    } else {
      WordsOfUnwords(ws[1..], tail);
      WordThenWords(ws[0], Unwords(ws[1..]), tail, ws[1..]);
      assert ws == [ws[0]] + ws[1..];
    }
  }

  /** One more word in front: if `u + tail` reads as `ws` followed by the
      words of `tail`, then a word, a space and `u + tail` read as that word
      followed by the same. */
  lemma WordThenWords(w: string, u: string, tail: string, ws: seq<string>)
    requires IsWord(w)
    requires Words(u + tail) == ws + Words(tail)
    ensures Words(w + [' '] + u + tail) == [w] + ws + Words(tail)
  {
    assert w + [' '] + u + tail == w + [' '] + (u + tail);
    WordsOfWordThenSpace(w, u + tail);
    assert [w] + ws + Words(tail) == [w] + (ws + Words(tail));
  }

  /** A typed line of `ws` ending in a newline (and no NUL) reads as exactly
      `ws`; so by `Parse`, it is accepted iff it has at most MAXARGS words. */
  lemma TypedLineWords(ws: seq<string>)
    requires forall k :: 0 <= k < |ws| ==> IsWord(ws[k]) && '\0' !in ws[k]
    ensures CStr(Unwords(ws) + "\n") == Unwords(ws) + "\n"
    ensures Words(CStr(Unwords(ws) + "\n")) == ws
    ensures |Words(CStr(Unwords(ws) + "\n"))| <= MAXARGS <==> |ws| <= MAXARGS
  {
    var line := Unwords(ws) + "\n";
    UnwordsHasNoNul(ws);
    CLenUnique(line, |line|);
    assert CStr(line) == line;
    WordsOfUnwords(ws, "\n");
    BlankHasNoWords("\n");
  }

  lemma {:induction false} UnwordsHasNoNul(ws: seq<string>)
    requires forall k :: 0 <= k < |ws| ==> '\0' !in ws[k]
    ensures '\0' !in Unwords(ws)
    decreases |ws|
  {
    if ws != [] {
      UnwordsHasNoNul(ws[1..]);
    }
  }

  /** Words hold no whitespace, so words joined by spaces hold no newline. */
  lemma {:induction false} UnwordsHasNoNewline(ws: seq<string>)
    requires forall k :: 0 <= k < |ws| ==> IsWord(ws[k])
    ensures '\n' !in Unwords(ws)
    decreases |ws|
  {
    if ws != [] {
      UnwordsHasNoNewline(ws[1..]);
      assert '\n' !in ws[0] by {
        assert forall i :: 0 <= i < |ws[0]| ==> !IsSpace(ws[0][i]);
      }
    }
  }
}
