/** polld's start-up (polld.c:39-98): choose the configuration file, read
    it line by line into the target list, and stop with exit status 1 when
    the file cannot be opened or 2 when the list cannot grow. */
module Polld {
  import opened ConfigLine
  import opened Targets

  /** The configuration read when polld is given no argument (polld.c:28). */
  const DefaultConfig: string := "/etc/polld"

  /** How start-up ends: polling, or the process exits with a status. */
  datatype Startup = Polling | Exit(status: int)

  /** The configuration path for the argument vector `argv` (program name
      first): the default alone, otherwise the first argument. */
  function ConfigPath(argv: seq<string>): (path: string)
    requires |argv| >= 1
    ensures |argv| == 1 ==> path == DefaultConfig
    ensures |argv| > 1 ==> path == argv[1]
  {
    if |argv| == 1 then DefaultConfig else argv[1]
  }

  /** Arguments after the first never change the configuration path. */
  lemma ConfigPathIgnoresRest(argv: seq<string>, rest: seq<string>)
    requires |argv| == 2
    ensures ConfigPath(argv + rest) == argv[1]
  {
  }

  /** Whether every growth needed to store `n` targets is granted: the
      `k`-th append grows the array exactly when `k` exceeds the capacity
      left by the previous appends, and then asks for `k + Slack` slots. */
  predicate ListFits(n: nat, granted: iset<nat>)
  {
    n == 0 || (ListFits(n - 1, granted) && (n > Capacity(n - 1) ==> (n + Slack) in granted))
  }

  /** A list that fits also fits every shorter prefix. */
  lemma {:induction false} ListFitsPrefix(m: nat, n: nat, granted: iset<nat>)
    requires m <= n && ListFits(n, granted)
    ensures ListFits(m, granted)
    decreases n - m
  {
    if m < n {
      ListFitsPrefix(m, n - 1, granted);
    }
  }

  /** Under a memory limit, where exactly the arrays of at most `limit` slots
      are granted, `n` targets can be stored exactly when the capacity the
      growth rule reaches for them is within the limit. */
  lemma {:induction false} ListFitsUnderLimit(n: nat, limit: nat, granted: iset<nat>)
    requires forall k: nat :: k in granted <==> k <= limit
    ensures ListFits(n, granted) <==> n == 0 || Capacity(n) <= limit
  {
    if n > 0 {
      ListFitsUnderLimit(n - 1, limit, granted);
    }
  }

  /** An append that is granted any growth it needs keeps the list fitting. */
  lemma FitsAfterGrant(n: nat, granted: iset<nat>)
    requires ListFits(n, granted) && (n + 1 <= Capacity(n) || (n + 1 + Slack) in granted)
    ensures ListFits(n + 1, granted)
  {
  }

  /** Reading one more line adds that line's targets at the end. */
  lemma AcceptedSnoc(lines: seq<string>, i: nat)
    requires i < |lines|
    ensures Accepted(lines[..i + 1]) == Accepted(lines[..i]) + Accepted([lines[i]])
  {
    assert lines[..i + 1] == lines[..i] + [lines[i]];
    AcceptedConcat(lines[..i], [lines[i]]);
  }

  /** Splitting the lines at `i` and joining the parts gives the lines back;
      a prefix as long as the lines is the lines. */
  lemma SplitAt(lines: seq<string>, i: nat)
    requires i <= |lines|
    ensures lines[..i] + lines[i..] == lines
    ensures lines[..|lines|] == lines
  {
  }

  /** A prefix of the file yields no more targets than the whole file. */
  lemma AcceptedPrefixShorter(lines: seq<string>, i: nat)
    requires i <= |lines|
    ensures |Accepted(lines[..i])| <= |Accepted(lines)|
  {
    SplitAt(lines, i);
    AcceptedConcat(lines[..i], lines[i..]);
  }

  /** A growth refused while reading a prefix means the whole file does not fit. */
  lemma RefusalIsFinal(lines: seq<string>, i: nat, n: nat, granted: iset<nat>)
    requires i <= |lines| && n <= |Accepted(lines[..i])| && !ListFits(n, granted)
    ensures !ListFits(|Accepted(lines)|, granted)
  {
    AcceptedPrefixShorter(lines, i);
    if ListFits(|Accepted(lines)|, granted) {
      ListFitsPrefix(n, |Accepted(lines)|, granted);
    }
  }

  /** One pass of the read loop's body (polld.c:58-94) on line `i` of the
      file, when the list holds the targets of the lines before it: the
      line's target, if it has one, is appended. The pass fails only when
      that append needs a growth that is refused, and then the file as a
      whole cannot be stored. */
  method ReadLine(list: TargetList, lines: seq<string>, i: nat, granted: iset<nat>) returns (ok: bool)
    requires i < |lines|
    requires list.Valid() && ListFits(list.listlen, granted)
    requires list.Targets() == Accepted(lines[..i])
    modifies list, list.filelist
    ensures list.filelist == old(list.filelist) || fresh(list.filelist)
    ensures ok ==> list.Valid() && ListFits(list.listlen, granted)
    ensures ok ==> list.Targets() == Accepted(lines[..i + 1])
    ensures !ok ==> !ListFits(|Accepted(lines)|, granted)
  {
    AcceptedSnoc(lines, i);
    AcceptedOne(lines[i]);
    var entry := Entry(lines[i]);
    if entry.None? {
      return true;
    }
    ghost var n := list.listlen;
    ok := list.Append(entry.value, granted);
    if ok {
      FitsAfterGrant(n, granted);
    } else {
      RefusalIsFinal(lines, i + 1, n + 1, granted);
    }
  }

  /** The configuration-read loop (polld.c:57-95) over the lines getline
      returns. On success the list holds exactly the accepted lines in file
      order; it fails exactly when some growth is refused. */
  method ReadConfig(lines: seq<string>, granted: iset<nat>) returns (list: TargetList, ok: bool)
    ensures fresh(list)
    ensures ok <==> ListFits(|Accepted(lines)|, granted)
    ensures ok ==> list.Valid() && list.Targets() == Accepted(lines)
  {
    list := new TargetList();
    ok := true;
    var i := 0;
    while i < |lines|
      invariant 0 <= i <= |lines|
      invariant fresh(list) && fresh(list.filelist)
      invariant list.Valid() && ListFits(list.listlen, granted)
      invariant list.Targets() == Accepted(lines[..i])
    {
      ok := ReadLine(list, lines, i, granted);
      if !ok {
        return;
      }
      i := i + 1;
    }
    SplitAt(lines, i);
  }

  /** Start-up up to detaching: choose the path, open it (`files` holds the
      lines of every file that opens), and read it. */
  method Start(argv: seq<string>, files: map<string, seq<string>>, granted: iset<nat>)
    returns (result: Startup, list: TargetList)
    requires |argv| >= 1
    ensures ConfigPath(argv) !in files ==> result == Exit(1)
    ensures ConfigPath(argv) in files ==>
      (result == Polling <==> ListFits(|Accepted(files[ConfigPath(argv)])|, granted))
    ensures ConfigPath(argv) in files ==> (result == Polling || result == Exit(2))
    ensures result == Polling ==>
      list.Valid() && list.Targets() == Accepted(files[ConfigPath(argv)])
  {
    var config := ConfigPath(argv);
    if config !in files {
      list := new TargetList();
      return Exit(1), list;
    }
    var ok;
    list, ok := ReadConfig(files[config], granted);
    result := if ok then Polling else Exit(2);
  }
}
