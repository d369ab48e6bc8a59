/**
  The redirection extractor of the shell (`findRedirect` in myshell.c).

  `findRedirect` scans the argument vector left to right. The token after a
  `<` becomes the input file, the token after a `>` the output file, and both
  the operator and its file are dropped; every other token is copied down, in
  order, over the front of the same vector. The C code leaves the two files in
  the globals `ifile` and `ofile`; here they are fields of the result.
*/
module Redirect {
  import opened Wrappers

  /** The vector left after the scan, with the two redirection targets. */
  datatype Redirection = Redirection(cleaned: seq<string>, inFile: Option<string>, outFile: Option<string>)

  /** The state every scan starts from: both globals reset to NULL. */
  const Reset: Redirection := Redirection([], None, None)

  predicate IsOperator(t: string) {
    t == "<" || t == ">"
  }

  predicate OperatorFree(args: seq<string>) {
    forall i :: 0 <= i < |args| ==> !IsOperator(args[i])
  }

  /** `a` is `b` with some elements left out, order kept. */
  predicate IsSubsequence<T(==)>(a: seq<T>, b: seq<T>)
    decreases |b|
  {
    if a == [] then true
    else if b == [] then false
    else (a[0] == b[0] && IsSubsequence(a[1..], b[1..])) || IsSubsequence(a, b[1..])
  }

  /** The loop of `findRedirect` from the token `rest[0]` on, with `acc` holding
      the tokens copied so far and the targets recorded so far. An operator
      with no token after it stores NULL in its target and ends the loop. */
  function Scan(rest: seq<string>, acc: Redirection): (r: Redirection)
    ensures |acc.cleaned| <= |r.cleaned| <= |acc.cleaned| + |rest|
    ensures r.cleaned[..|acc.cleaned|] == acc.cleaned
    ensures OperatorFree(acc.cleaned) ==> OperatorFree(r.cleaned)
    decreases |rest|
  {
    if rest == [] then acc
    else if rest[0] == "<" then
      if |rest| == 1 then acc.(inFile := None)
      else Scan(rest[2..], acc.(inFile := Some(rest[1])))
    else if rest[0] == ">" then
      if |rest| == 1 then acc.(outFile := None)
      else Scan(rest[2..], acc.(outFile := Some(rest[1])))
    else Scan(rest[1..], acc.(cleaned := acc.cleaned + [rest[0]]))
  }

  /** `findRedirect`: the cleaned vector is never longer than the input and
      holds no operator, so a `<` or `>` can never reach a command. */
  function FindRedirect(args: seq<string>): (r: Redirection)
    ensures |r.cleaned| <= |args|
    ensures OperatorFree(r.cleaned)
  {
    Scan(args, Reset)
  }

  /** The scan reads all of `a` without meeting a dangling operator: `a` is
      made of plain tokens and operator-file pairs. */
  predicate Paired(a: seq<string>)
    decreases |a|
  {
    if a == [] then true
    else if IsOperator(a[0]) then |a| >= 2 && Paired(a[2..])
    else Paired(a[1..])
  }

  lemma {:induction false} SubsequenceSkip<T>(a: seq<T>, b: seq<T>, n: nat)
    requires n <= |b| && IsSubsequence(a, b[n..])
    ensures IsSubsequence(a, b)
    decreases n
  {
    if n > 0 {
      assert b[1..][n - 1..] == b[n..];
      SubsequenceSkip(a, b[1..], n - 1);
    }
  }

  /** The tokens the scan copies are a subsequence of the tokens it reads. */
  lemma {:induction false} ScanSubsequence(rest: seq<string>, acc: Redirection)
    ensures IsSubsequence(Scan(rest, acc).cleaned[|acc.cleaned|..], rest)
    decreases |rest|
  {
    var r := Scan(rest, acc);
    if rest == [] {
    } else if IsOperator(rest[0]) {
      if |rest| >= 2 {
        var acc' := if rest[0] == "<" then acc.(inFile := Some(rest[1])) else acc.(outFile := Some(rest[1]));
        ScanSubsequence(rest[2..], acc');
        SubsequenceSkip(r.cleaned[|acc.cleaned|..], rest, 2);
      }
    } else {
      var acc' := acc.(cleaned := acc.cleaned + [rest[0]]);
      ScanSubsequence(rest[1..], acc');
      var tail := r.cleaned[|acc.cleaned|..];
      assert tail[0] == rest[0];
      assert tail[1..] == r.cleaned[|acc'.cleaned|..];
    }
  }

  /** The cleaned vector is the input with tokens left out, order kept. */
  lemma CleanedIsSubsequence(args: seq<string>)
    ensures IsSubsequence(FindRedirect(args).cleaned, args)
  {
    ScanSubsequence(args, Reset);
  }

  /** The tokens the scan copies do not depend on what was copied or recorded
      before: they are appended to the earlier ones. */
  lemma {:induction false} ScanCleaned(rest: seq<string>, acc: Redirection)
    ensures Scan(rest, acc).cleaned == acc.cleaned + FindRedirect(rest).cleaned
    decreases |rest|
  {
    if rest == [] {
    } else if rest[0] == "<" || rest[0] == ">" {
      if |rest| >= 2 {
        var t := Some(rest[1]);
        var acc' := if rest[0] == "<" then acc.(inFile := t) else acc.(outFile := t);
        var reset' := if rest[0] == "<" then Reset.(inFile := t) else Reset.(outFile := t);
        ScanCleaned(rest[2..], acc');
        ScanCleaned(rest[2..], reset');
      }
    } else {
      ScanCleaned(rest[1..], acc.(cleaned := acc.cleaned + [rest[0]]));
      ScanCleaned(rest[1..], Reset.(cleaned := [rest[0]]));
      assert Reset.(cleaned := Reset.cleaned + [rest[0]]) == Reset.(cleaned := [rest[0]]);
    }
  }

  /** Scanning a paired prefix and then the rest is scanning the whole. */
  lemma {:induction false} ScanAppend(a: seq<string>, b: seq<string>, acc: Redirection)
    requires Paired(a)
    ensures Scan(a + b, acc) == Scan(b, Scan(a, acc))
    decreases |a|
  {
    if a == [] {
      assert a + b == b;
    } else if IsOperator(a[0]) {
      assert (a + b)[2..] == a[2..] + b;
      var t := Some(a[1]);
      ScanAppend(a[2..], b, if a[0] == "<" then acc.(inFile := t) else acc.(outFile := t));
    } else {
      assert (a + b)[1..] == a[1..] + b;
      ScanAppend(a[1..], b, acc.(cleaned := acc.cleaned + [a[0]]));
    }
  }

  /** With no `<` left to read, the input target stays as recorded. */
  lemma {:induction false} ScanKeepsInFile(b: seq<string>, acc: Redirection)
    requires forall i :: 0 <= i < |b| ==> b[i] != "<"
    ensures Scan(b, acc).inFile == acc.inFile
    decreases |b|
  {
    if b != [] {
      if b[0] == ">" {
        if |b| >= 2 {
          ScanKeepsInFile(b[2..], acc.(outFile := Some(b[1])));
        }
      } else {
        ScanKeepsInFile(b[1..], acc.(cleaned := acc.cleaned + [b[0]]));
      }
    }
  }

  /** With no `>` left to read, the output target stays as recorded. */
  lemma {:induction false} ScanKeepsOutFile(b: seq<string>, acc: Redirection)
    requires forall i :: 0 <= i < |b| ==> b[i] != ">"
    ensures Scan(b, acc).outFile == acc.outFile
    decreases |b|
  {
    if b != [] {
      if b[0] == "<" {
        if |b| >= 2 {
          ScanKeepsOutFile(b[2..], acc.(inFile := Some(b[1])));
        }
      } else {
        ScanKeepsOutFile(b[1..], acc.(cleaned := acc.cleaned + [b[0]]));
      }
    }
  }

  /** `< x`: the input target becomes `x`, taken verbatim even when it is an
      operator, and it survives unless a later `<` overwrites it; the pair
      itself leaves no trace in the cleaned vector. */
  lemma InputRedirection(a: seq<string>, x: string, b: seq<string>)
    requires Paired(a)
    requires forall i :: 0 <= i < |b| ==> b[i] != "<"
    ensures FindRedirect(a + ["<", x] + b).inFile == Some(x)
    ensures FindRedirect(a + ["<", x] + b).cleaned == FindRedirect(a).cleaned + FindRedirect(b).cleaned
  {
    var acc := FindRedirect(a).(inFile := Some(x));
    assert a + ["<", x] + b == a + (["<", x] + b);
    ScanAppend(a, ["<", x] + b, Reset);
    assert (["<", x] + b)[2..] == b;
    ScanKeepsInFile(b, acc);
    ScanCleaned(b, acc);
  }

  /** `> x`: the output target becomes `x`, verbatim, unless a later `>`
      overwrites it; the pair leaves no trace in the cleaned vector. */
  lemma OutputRedirection(a: seq<string>, x: string, b: seq<string>)
    requires Paired(a)
    requires forall i :: 0 <= i < |b| ==> b[i] != ">"
    ensures FindRedirect(a + [">", x] + b).outFile == Some(x)
    ensures FindRedirect(a + [">", x] + b).cleaned == FindRedirect(a).cleaned + FindRedirect(b).cleaned
  {
    var acc := FindRedirect(a).(outFile := Some(x));
    assert a + [">", x] + b == a + ([">", x] + b);
    ScanAppend(a, [">", x] + b, Reset);
    assert ([">", x] + b)[2..] == b;
    ScanKeepsOutFile(b, acc);
    ScanCleaned(b, acc);
  }

  /** An operator at the very end has no file after it: its target is set back
      to NULL, whatever an earlier pair recorded, and the tokens copied before
      it are kept. */
  lemma DanglingOperator(a: seq<string>, op: string)
    requires Paired(a) && IsOperator(op)
    ensures op == "<" ==> FindRedirect(a + [op]) == FindRedirect(a).(inFile := None)
    ensures op == ">" ==> FindRedirect(a + [op]) == FindRedirect(a).(outFile := None)
  {
    ScanAppend(a, [op], Reset);
  }

  /** A vector without operators passes through unchanged with no targets, and
      only such a vector does. */
  lemma {:induction false} OperatorFreeUnchanged(args: seq<string>)
    ensures FindRedirect(args) == Redirection(args, None, None) <==> OperatorFree(args)
  {
    if OperatorFree(args) {
      OperatorFreeScan(args, Reset);
    }
  }

  lemma {:induction false} OperatorFreeScan(rest: seq<string>, acc: Redirection)
    requires OperatorFree(rest)
    ensures Scan(rest, acc) == acc.(cleaned := acc.cleaned + rest)
    decreases |rest|
  {
    if rest == [] {
      assert acc.cleaned + rest == acc.cleaned;
    } else {
      OperatorFreeScan(rest[1..], acc.(cleaned := acc.cleaned + [rest[0]]));
      assert acc.cleaned + [rest[0]] + rest[1..] == acc.cleaned + rest;
    }
  }

  /** Running the extractor again on its own output changes nothing and finds
      no target. */
  lemma Idempotent(args: seq<string>)
    ensures FindRedirect(FindRedirect(args).cleaned) == Redirection(FindRedirect(args).cleaned, None, None)
  {
    OperatorFreeUnchanged(FindRedirect(args).cleaned);
  }

  /** `cmd a > out.txt b` runs `cmd a b` with its output in out.txt. */
  lemma OutputExample()
    ensures FindRedirect(["cmd", "a", ">", "out.txt", "b"]) == Redirection(["cmd", "a", "b"], None, Some("out.txt"))
  {
  }

  /** `cmd < in.txt > out.txt` runs `cmd` with both streams redirected. */
  lemma BothExample()
    ensures FindRedirect(["cmd", "<", "in.txt", ">", "out.txt"]) == Redirection(["cmd"], Some("in.txt"), Some("out.txt"))
  {
  }
}
