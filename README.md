# polld — configuration reader and target list

polld is a small daemon that, every ten seconds, opens and closes each path
listed in its configuration file so that the kernel re-examines those devices.
This project models the part of `polld.c` with real logic:

- the choice of configuration file: `/etc/polld` with no argument, otherwise
  the first argument;
- the per-line filter of the configuration reader: a line whose first
  character is `#` is a comment; the C string of the line (up to the first NUL,
  as `strlen` sees it) loses one trailing newline; a line that is then empty is
  dropped; every other line becomes a target;
- the growable target array `filelist` with its counters `listlen` (entries in
  use) and `alloclen` (capacity), grown to `listlen + 4` slots whenever an
  append finds it full, and the exit statuses 1 (configuration cannot be
  opened) and 2 (the array cannot grow);
- one polling cycle, which opens every target once in list order.

Modules:

- `ConfigLine` (`ConfigLine.dfy`): the pure per-line functions and `Accepted`,
  the targets a sequence of lines yields, with lemmas about it (concatenation,
  membership, skipped lines leave no trace, write-then-read round trip).
- `Targets` (`TargetList.dfy`): the class `TargetList` holding `filelist`, `listlen` and
  `alloclen`, its append with the growth rule, the copy `realloc` performs,
  the polling cycle, and `Capacity`, the capacity the growth rule reaches
  for a given length, proved to be the length rounded up to a multiple of 5.
- `Polld` (`Polld.dfy`): the configuration path, the read loop and start-up
  with its exit statuses, and `ListFits`, which says when every growth is
  granted.

The environment is a parameter: the lines `getline` returns are a
`seq<string>`; the files that open are a `map` in which `files[path]` is the
sequence of lines `getline` returns for that file before it first returns -1;
whether `realloc` grants an array of `n` slots is membership of `n` in a set
`granted`.

The source has no lock file, signal handling, reload, `--sleep` option or
command-line options beyond the single optional path; the model follows the
code and has none of them.

## Model

| member | source | states |
|---|---|---|
| ConfigLine.CString | polld.c:61 | the C string of a line is never longer than the line |
| ConfigLine.CStringIsPrefixBeforeNul | polld.c:61 | the length `strlen` measures: the C string is a prefix of the line, holds no NUL, and stops only at a NUL or at the end of the line |
| ConfigLine.CStringOfNulFree | polld.c:61 | on a line without NUL, `strlen` sees the whole line |
| ConfigLine.StripNewline | polld.c:63-67 | either nothing is removed or exactly one trailing newline is; the text is unchanged exactly when it does not end in a newline |
| ConfigLine.StripRoundTrip | polld.c:63-67 | appending a newline and stripping gives the text back, so at most one newline is removed even from text ending in one |
| ConfigLine.Entry | polld.c:59-74 | a line is dropped exactly when its first character is `#` or its C string is empty or a bare newline; a kept line's target is its C string less at most one trailing newline |
| ConfigLine.EntryShape | polld.c:59-74 | a kept line's target is non-empty, a prefix of the line without NUL, and starts with the line's own first character, which is not `#` |
| ConfigLine.HashAfterBlankKept | polld.c:59 | only the first character is tested: ` #x` followed by a newline is kept as ` #x` |
| ConfigLine.PathLineKept | polld.c:59-74 | a non-empty path without NUL or newline that does not start with `#`, written with a newline, is kept as exactly that path |
| ConfigLine.Accepted | polld.c:57-95 | there are never more targets than lines |
| ConfigLine.AcceptedWellFormed | polld.c:57-95 | no target is empty, starts with `#` or holds a NUL, so such a path cannot be configured |
| ConfigLine.AcceptedConcat | polld.c:57-95 | the targets of two consecutive parts of a file are the targets of each part in file order |
| ConfigLine.SkippedLineLeavesNoTrace | polld.c:58-74 | a comment, empty or bare-newline line anywhere in the file changes nothing in the target list |
| ConfigLine.AcceptedMembership | polld.c:57-90 | a string is a target exactly when some line of the file yields it |
| ConfigLine.RenderRoundTrip | polld.c:57-95 | writing representable paths one per line and reading the file gives the same paths in the same order |
| ConfigLine.TwoPathsAroundCommentAndBlank | polld.c:57-95 | a path, a comment, a blank line and a second path yield exactly the two paths |
| Targets.Capacity | polld.c:80-86 | the capacity the growth rule reaches after `n` appends is at least `n` and at most `n + 4` |
| Targets.CapacityRoundsUp | polld.c:80-86 | that capacity is `n` rounded up to a multiple of 5: growth happens only on the appends numbered 1, 6, 11, ... |
| Targets.TargetList.constructor | polld.c:30-33 | the list starts empty with `listlen` and `alloclen` zero |
| Targets.TargetList.Grow | polld.c:81 | growth gives a fresh array of the requested size holding the stored entries unchanged |
| Targets.TargetList.Append | polld.c:77-90 | the new target is stored at index `listlen - 1` after the old ones, which are unchanged; a full list grows to exactly `listlen + 4` slots, otherwise capacity is kept; `listlen <= alloclen` still holds; the append fails exactly when a needed growth is refused, and then nothing changes |
| Targets.TargetList.PollCycle | polld.c:111-117 | one polling cycle opens exactly `filelist[0..listlen)`, in order, once each |
| Polld.ConfigPath | polld.c:42-46 | with no argument the path is `/etc/polld`, otherwise exactly the first argument |
| Polld.ConfigPathIgnoresRest | polld.c:42-46 | arguments after the first do not change the path |
| Polld.ListFitsPrefix | polld.c:80-85 | if every growth for `n` targets is granted, so is every growth for fewer |
| Polld.ListFitsUnderLimit | polld.c:80-86 | when exactly the arrays of at most `limit` slots are granted, `n` targets can be stored exactly when `n` is 0 or the capacity for `n` is at most `limit` |
| Polld.FitsAfterGrant | polld.c:80-86 | an append whose growth, if needed, is granted keeps every growth so far granted |
| Polld.AcceptedSnoc | polld.c:57-95 | one more line read adds that line's target, if any, at the end |
| Polld.AcceptedPrefixShorter | polld.c:57-95 | a prefix of the file yields no more targets than the whole file |
| Polld.RefusalIsFinal | polld.c:80-85 | a growth refused while reading part of the file means the file as a whole cannot be stored |
| Polld.ReadLine | polld.c:58-94 | one pass of the loop body appends the line's target, if any, keeping the list equal to the targets of the lines read so far; it fails only when a refused growth means the whole file cannot be stored |
| Polld.ReadConfig | polld.c:57-95 | the read loop succeeds exactly when every growth it needs is granted, and then the list holds exactly the accepted lines in file order |
| Polld.Start | polld.c:39-95 | an unopenable configuration gives exit status 1; an openable one gives polling with exactly its accepted lines, or exit status 2 exactly when the list cannot grow |

## Left out

- Detaching from the terminal with `daemon(0, 0)` (polld.c:101): process control with nothing to state.
- Writing `/var/run/polld.pid` (polld.c:103-108): file output whose errors are ignored.
- The endless loop around the polling cycle and its `sleep(10)` (polld.c:111-117): only one cycle is modelled, as the sequence of paths it opens; whether `fopen` succeeds is discarded by the source and not modelled.
- The error messages on standard error and `strerror` (polld.c:51-52, 83): output only.
- Polld.ConfigPath: requires at least the program name in `argv`; with `argc == 0` the source reads `argv[1]` past the terminating null pointer, which has no defined result.
- Polld.Start: why `fopen` fails is not modelled; a path absent from the `files` map is a file that does not open.
- Targets.TargetList.Append: when `realloc` fails the source has already lost the array and exits; the model leaves the list unchanged and reports the failure, after which start-up ends with status 2.
- `listlen` and `alloclen` are C `int` and the byte count `(listlen + 4) * sizeof(char *)` (polld.c:81) can overflow; the model uses unbounded integers. Overflow needs about 2^30 accepted lines on a 32-bit target (where the `size_t` product wraps) and about 2^31 on a 64-bit one (where the `int` sum `listlen + 4` wraps), far more than memory holds, since every accepted line keeps its own getline buffer. The model does not capture what a wrap would cause: a too-small array that polld.c:90 writes past.
- Freeing and reuse of the `getline` buffer (polld.c:71-72, 92-94): memory management with no observable effect in the model.
- `getline` itself: the model takes the lines it returns as input. A read error or getline's own allocation failure ends the loop at polld.c:57 exactly like end of file, after which polld polls the lines read so far without exiting with status 2; in the model such a file is one whose line sequence stops there; a line holding a NUL is handled as `strlen` sees it.
