# A verified model of the command-line logic of `myshell`

`myshell` is a minimal interactive Unix shell in one C file. Its main loop does four things per line:
- It reads the line with `fgets` into a buffer of `MAXLINE + 2` characters (`MAXLINE` = 1000).
- It splits the line in place into at most `MAXARGS` (60) words (`parse`).
- It removes `<` / `>` redirections from the word vector (`findRedirect`).
- It runs the command (`execute`). The built-ins `cd`, `setenv` and `unsetenv` run in the shell itself. Anything else is forked and executed; the child first redirects standard input when a `<` target was given and standard output when a `>` target was given.

This project models that pipeline in Dafny, without the process and descriptor plumbing:

- `wrappers.dfy` — `Wrappers.Option`, standing in for the C code's possibly-NULL pointers.
- `tokenizer.dfy` — module `Tokenizer`, for `parse`.
  - The line buffer is a `seq<char>` and a pointer into it is an index.
  - `Parse` is an imperative scan that overwrites whitespace with NUL.
  - Each recorded word is read back through the overwritten buffer (`Deref`), as the caller of `parse` reads it.
  - `Parse` is proved against `Words`, an independent definition of the whitespace-separated words of a line.
- `redirect.dfy` — module `Redirect`, for `findRedirect`. The globals `ifile` / `ofile` become fields of a `Redirection` result.
- `dispatch.dfy` — module `Dispatch`, for `execute`, `cdCom`, `setenvCom` and `unsetenvCom`, and for what `externalCom` hands to its child.
  - The shell state is a working directory and an environment map.
  - The operating system's answers to `chdir`, `setenv` and `unsetenv` form a `Kernel` parameter.
- `shell_loop.dfy` — module `ShellLoop`, for `main`.
  - `fgets` is modelled on the remaining input characters.
  - One iteration is classified into an `Action`.
  - The whole loop is the terminating function `RunShell`.

Each `char` of the model stands for one byte of input, as `fgets` and `isspace` see bytes. The whitespace set is the C-locale `isspace` set: space, `\t`, `\n`, `\v`, `\f`, `\r`. A C string ends at its first NUL (`CLen`). This matters for the loop: `strchr(buf, '\n')` and `parse` see only the part of the buffer before a NUL that `fgets` may have stored.

Two facts about `findRedirect` that follow from the code:
- An operator with no token after it clears its target. `ifile = args[++i]` (or `ofile`) stores the NULL that ends the vector, even when an earlier pair had set the target (myshell.c:59-63, `DanglingOperator`).
- Such an operator is always the last token, because any token after it would be taken as its file. So the early `break` leaves no token unread, and the tokens copied before it are kept (myshell.c:59-68).

## Model

| member | source | states |
|---|---|---|
| Tokenizer.IsSpace | myshell.c:18-21 | the characters `parse` treats as separators are the C-locale `isspace` set; NUL is not one of them, so the terminator always ends a word |
| Tokenizer.CLen | myshell.c:19-24 | the C string in a buffer ends at the first NUL, or at the implicit terminator past the stored characters; no NUL comes before that point |
| Tokenizer.RunLength | myshell.c:21 | the word loop stops at the first whitespace character or the end of the string, and only passes over non-whitespace |
| Tokenizer.SkipBlanks | myshell.c:18 | the blanking loop overwrites exactly the run of whitespace in front of it with NUL, stops at the first other character, and leaves the words ahead unchanged |
| Tokenizer.SkipWord | myshell.c:21 | the word loop stops just past the word: at a whitespace character or at the terminator |
| Tokenizer.Parse | myshell.c:15-25 | returns 1 iff the line holds at most MAXARGS words; records min(words, MAXARGS) pointers, in increasing order, each designating exactly the corresponding word when read through the overwritten buffer; the buffer differs from the line only in whitespace before the stop point, which is overwritten with NUL; on overflow it stops at the first character of word MAXARGS+1 |
| Tokenizer.WordsAreWords | myshell.c:18-21 | every recorded token is non-empty and contains no whitespace |
| Tokenizer.BlankHasNoWords | myshell.c:18-19 | a whitespace-only line yields an empty argument vector |
| Tokenizer.WordsOfUnwords | myshell.c:17-22 | words joined by spaces are split back into exactly those words, in order |
| Tokenizer.TypedLineWords | myshell.c:17-24 | a typed line of words plus newline reads as exactly those words, so 60 words are accepted and 61 are not |
| Redirect.Scan | myshell.c:57-67 | the loop only appends to the tokens copied so far, copies at most one token per token read, and never copies an operator |
| Redirect.FindRedirect | myshell.c:54-69 | the cleaned vector is never longer than the input and never contains `<` or `>` |
| Redirect.CleanedIsSubsequence | myshell.c:57-68 | the cleaned vector is the input with tokens removed, relative order kept |
| Redirect.ScanCleaned | myshell.c:64-66 | the tokens copied from a stretch of the vector do not depend on what came before; they are appended in order |
| Redirect.ScanAppend | myshell.c:57-67 | scanning a prefix made of plain tokens and operator-file pairs, then the rest, equals scanning the whole vector |
| Redirect.InputRedirection | myshell.c:58-60 | `< x` sets the input target to `x` verbatim, even when `x` is an operator; a later `<` overwrites it; both tokens vanish from the cleaned vector |
| Redirect.OutputRedirection | myshell.c:61-63 | `> x` sets the output target to `x` verbatim; a later `>` overwrites it; both tokens vanish from the cleaned vector |
| Redirect.DanglingOperator | myshell.c:59-63 | a final operator without a file resets its target to none, even if it was set earlier; the other target and the copied tokens are kept |
| Redirect.OperatorFreeUnchanged | myshell.c:56-68 | a vector passes through unchanged with both targets reset to none iff it contains no operator |
| Redirect.Idempotent | myshell.c:56-68 | a second extraction on the cleaned vector returns it unchanged with no targets |
| Redirect.OutputExample | myshell.c:57-68 | `cmd a > out.txt b` gives `cmd a b` with output target `out.txt` and no input target |
| Redirect.BothExample | myshell.c:57-68 | `cmd < in.txt > out.txt` gives `cmd` with both targets set |
| Dispatch.Lookup | myshell.c:107-113 | a built-in is recognised only by exact equality of the first word with its name |
| Dispatch.LookupExact | myshell.c:106-116 | exactly `cd`, `setenv` and `unsetenv` are built-ins; every other first word goes to external execution |
| Dispatch.ArgsOk | myshell.c:28-44 | the NULL-slot test each built-in makes before acting, as written for `cd` (line 28), `setenv` (line 36) and `unsetenv` (line 44); it passes only with the name plus the built-in's operands |
| Dispatch.ArgsOkIsArity | myshell.c:27-49 | the NULL-slot checks accept exactly one operand for `cd` and `unsetenv` and exactly two for `setenv` |
| Dispatch.RunBuiltin | myshell.c:27-49 | a wrong count gives the usage line and no change; with the right count the built-in is quiet exactly when its system call succeeds, and otherwise reports the operand and changes nothing; a successful `cd` moves only the cwd, to where `chdir` went; `setenv` overwrites only NAME; `unsetenv` removes only NAME |
| Dispatch.UsageChangesNothing | myshell.c:27-49 | with a wrong operand count, no built-in changes the working directory or the environment, whatever the system would answer |
| Dispatch.Bindings | myshell.c:71-96 | the child redirects standard input first (read-only), then standard output (write, create, truncate), with creation mode 0666 |
| Dispatch.Choose | myshell.c:106-116 | a built-in gets the cleaned vector and ignores the targets; an external command gets the vector and both targets |
| Dispatch.Execute | myshell.c:84-116 | a built-in is carried out by its `cdCom` / `setenvCom` / `unsetenvCom` model, whose new state and report are the result; an external command never changes the shell's state, and its child makes the job's `Bindings` and starts from the shell's current directory and environment |
| Dispatch.SetenvReachesChildren | myshell.c:35-49 | after `setenv NAME VALUE` the next child sees NAME=VALUE; after `unsetenv NAME` later children do not see NAME |
| ShellLoop.FgetsLength | myshell.c:123 | `fgets` takes characters up to and including the first newline, at most the buffer's room, at most what is left |
| ShellLoop.ReadLine | myshell.c:119-123 | end of input gives NULL; otherwise 1 to MAXLINE+1 characters split off the front of the input, with a newline only as the last one, and without a newline only when the buffer filled or the input ended |
| ShellLoop.Classify | myshell.c:123-136 | exit 0 iff end of input; exit 1 iff the C string holds no newline; skip with a message iff more than MAXARGS words; skip silently iff at most MAXARGS words and nothing is left after redirection; run iff at most MAXARGS words and a word is left, and then the command is the one `execute` chooses for the cleaned vector |
| ShellLoop.RunCommandShape | myshell.c:131-136 | a command that runs is non-empty, at most MAXARGS words, operator-free, and an in-order subsequence of the line's words |
| ShellLoop.Iterate | myshell.c:127-136 | the in-place pipeline decides exactly as the classifier does: parse the buffer, read the words back through the pointers, extract redirections, execute if a word is left |
| ShellLoop.LineAccepted | myshell.c:123-130 | a line of at most MAXLINE characters plus its newline is read whole, leaves the rest of the input, and is not rejected as too long |
| ShellLoop.LineTooLong | myshell.c:123-130 | with no newline in the first MAXLINE+1 characters (too long, or a final line lacking its newline) the shell exits with status 1 |
| ShellLoop.NulHidesNewline | myshell.c:127-130 | a NUL before the newline hides it from `strchr`, so the line ends the shell with status 1 |
| ShellLoop.BlankLineSkipped | myshell.c:131-136 | a whitespace-only line dispatches nothing |
| ShellLoop.WordCountDecides | myshell.c:131-136 | a line of more than MAXARGS words is skipped as having too many; with at most MAXARGS words its command runs when a word is left after redirection |
| ShellLoop.Perform | myshell.c:131-136 | a skipped line leaves the shell as it is and runs nothing; a line that runs executes its command once, in the shell's current state, and the new state and outcome are those of `execute` |
| ShellLoop.RunShell | myshell.c:121-138 | the loop terminates with status 0 or 1 after at most one iteration per input character; the recorded iterations are the successive reads of `fgets` on the input, each classified from the line it read, not an exit, and has an outcome exactly when it ran a command; the iterations are threaded: each ran in the state the previous ones left, and the final state is the one they all leave; the lines read are a prefix of the input, and the status is 0 exactly when they are the whole input; the read after the last recorded iteration is the one that ends the loop, and the status is the one `Classify` gives it (0 at end of input, 1 for a buffer without newline); a first line that does not end the loop is the first iteration recorded |
| ShellLoop.ThreadedSplit | myshell.c:121-138 | threaded iterations split at any point into two threaded runs, the second starting from the state the first leaves |
| ShellLoop.StepOutcome | myshell.c:131-136 | the i-th iteration's outcome is what running its action gives in the state left by the iterations before it, so a built-in's effect reaches all later commands |
| ShellLoop.SetenvThenCommand | myshell.c:107-136 | the input `setenv NAME VALUE` then a program name ends with status 0 after two iterations, and the program's child sees NAME bound to VALUE |
| ShellLoop.GoodSession | myshell.c:121-138 | input made of well-formed lines ends with status 0 after exactly one iteration per line, the i-th handling the i-th line |
| ShellLoop.GoodLinesThen | myshell.c:121-138 | well-formed lines in front of further input take one iteration each, after which the loop ends with the status it gives on that input alone |
| ShellLoop.UnterminatedLineEnds | myshell.c:121-130 | well-formed lines followed by a line with no newline in its first MAXLINE+1 characters are each handled, then the shell exits with status 1 |

## Left out

- Process and descriptor calls (`fork`, `execvp`, `wait`, `open`, `dup2`, `close` in `redirect` and `externalCom`). An external command is recorded as the `Child` it would start: the job, the redirection `Bindings` the job determines, and the cwd and environment it inherits. Whether the child succeeds is not modelled. The parent continues regardless of it. A failed `fork`, which exits the shell with status 1, is not modelled either.
- Children reading the shell's standard input. The model assumes a child consumes none of the characters the loop reads next.
- The effects and failure causes of the real `chdir`, `setenv` and `unsetenv`. They are the answers of the `Kernel` parameter.
- Prompt, diagnostic texts and `perror` messages. A report says only which message kind is written (`Usage`, `Perror` with its operand, or nothing) and, for the loop, whether a line was skipped for having too many words.
- A read error of `fgets`, which also returns NULL and so also ends the loop with status 0. The model's input has no errors.
- Locale-dependent `isspace`. The C-locale set is used.
- Character encodings. Each model `char` is one input byte, so the MAXLINE limit counts bytes only when the input is given byte by byte; a UTF-8 character written as a single `char` would be counted as one where `fgets` counts two to four.
- A system that changes between calls. One `Kernel` answers for the whole session, so `chdir` to a directory gives the same answer before and after an external command creates or removes it.
- The transcript at the end of the file, which is not code.
