/** The per-line filter of polld's configuration reader (polld.c:57-74):
    which line read by getline becomes a polling target, and which text
    is stored for it. */
module ConfigLine {

  datatype Option<T> = None | Some(value: T)

  const NUL: char := '\0'
  const NEWLINE: char := '\n'
  const COMMENT: char := '#'

  /** The comment test: only the first character of the raw line is examined. */
  predicate IsComment(line: string)
  {
    |line| > 0 && line[0] == COMMENT
  }

  /** The string C sees through `strlen`: everything before the first NUL.
      getline may read a NUL byte; the stored target then ends there. */
  function CString(line: string): (r: string)
    ensures |r| <= |line|
  {
    if line == [] || line[0] == NUL then [] else [line[0]] + CString(line[1..])
  }

  /** What `strlen` measures: the C string is a prefix of the line holding no
      NUL, and it stops only at a NUL or at the end of the line. */
  lemma {:induction false} CStringIsPrefixBeforeNul(line: string)
    ensures CString(line) <= line
    ensures NUL !in CString(line)
    ensures |CString(line)| < |line| ==> line[|CString(line)|] == NUL
  {
    if line != [] && line[0] != NUL {
      CStringIsPrefixBeforeNul(line[1..]);
    }
  }

  /** Removes one trailing newline, if there is one. */
  function StripNewline(s: string): (r: string)
    ensures r == s || r + [NEWLINE] == s
    ensures r == s <==> (s == [] || s[|s| - 1] != NEWLINE)
  {
    if |s| > 0 && s[|s| - 1] == NEWLINE then s[..|s| - 1] else s
  }

  /** The target a line contributes: None for a comment, and for a line
      that is empty once its trailing newline is gone. */
  function Entry(line: string): (r: Option<string>)
    ensures r.None? <==> IsComment(line) || CString(line) == [] || CString(line) == [NEWLINE]
    ensures r.Some? ==> r.value == CString(line) || r.value + [NEWLINE] == CString(line)
    ensures r.Some? ==> r.value == StripNewline(CString(line))
  {
    if IsComment(line) then None
    else
      var stripped := StripNewline(CString(line));
      if stripped == [] then None else Some(stripped)
  }

  /** A target is a non-empty prefix of its line without NUL, and begins
      with the line's own first character, which is not the comment character. */
  lemma EntryShape(line: string)
    requires Entry(line).Some?
    ensures Entry(line).value != [] && Entry(line).value <= line && NUL !in Entry(line).value
    ensures Entry(line).value[0] == line[0] != COMMENT
  {
    var c := CString(line);
    CStringIsPrefixBeforeNul(line);
    assert Entry(line).value <= c;
  }

  /** The targets a whole configuration yields, in file order. */
  function Accepted(lines: seq<string>): (r: seq<string>)
    ensures |r| <= |lines|
  {
    if lines == [] then []
    else
      match Entry(lines[0])
      case None => Accepted(lines[1..])
      case Some(t) => [t] + Accepted(lines[1..])
  }

  /** No target is empty, starts with the comment character or holds a NUL:
      a path of that shape cannot be configured. */
  lemma {:induction false} AcceptedWellFormed(lines: seq<string>)
    ensures forall t :: t in Accepted(lines) ==> t != [] && t[0] != COMMENT && NUL !in t
  {
    if lines != [] {
      AcceptedWellFormed(lines[1..]);
      if Entry(lines[0]).Some? {
        EntryShape(lines[0]);
      }
    }
  }

  /** Reading a configuration in two parts gives the targets of each part, concatenated. */
  lemma {:induction false} AcceptedConcat(a: seq<string>, b: seq<string>)
    ensures Accepted(a + b) == Accepted(a) + Accepted(b)
  {
    if a == [] {
      assert a + b == b;
    } else {
      assert (a + b)[0] == a[0];
      assert (a + b)[1..] == a[1..] + b;
      AcceptedConcat(a[1..], b);
    }
  }

  /** A comment or blank line leaves no trace: the configuration without it
      yields exactly the same targets. */
  lemma SkippedLineLeavesNoTrace(a: seq<string>, line: string, b: seq<string>)
    requires IsComment(line) || CString(line) == [] || CString(line) == [NEWLINE]
    ensures Accepted(a + [line] + b) == Accepted(a) + Accepted(b)
  {
    assert Entry(line).None?;
    assert Accepted([line]) == Accepted([line][1..]);
    assert [line][1..] == [];
    AcceptedConcat(a + [line], b);
    AcceptedConcat(a, [line]);
  }

  /** A string is a target exactly when some line of the configuration yields it. */
  lemma {:induction false} AcceptedMembership(lines: seq<string>, t: string)
    ensures t in Accepted(lines) <==> exists i :: 0 <= i < |lines| && Entry(lines[i]) == Some(t)
  {
    if lines != [] {
      var rest := lines[1..];
      AcceptedMembership(rest, t);
      assert Accepted(lines) ==
        (if Entry(lines[0]).Some? then [Entry(lines[0]).value] else []) + Accepted(rest);
      if t in Accepted(lines) && Entry(lines[0]) != Some(t) {
        assert t in Accepted(rest);
        var i :| 0 <= i < |rest| && Entry(rest[i]) == Some(t);
        assert Entry(lines[i + 1]) == Some(t);
      }
      if exists i :: 0 <= i < |lines| && Entry(lines[i]) == Some(t) {
        var i :| 0 <= i < |lines| && Entry(lines[i]) == Some(t);
        if i > 0 {
          assert Entry(rest[i - 1]) == Some(t);
        }
      }
    }
  }

  /** A path that one configuration line can name: non-empty, not starting
      with the comment character, and free of NUL and newline. */
  predicate Representable(p: string)
  {
    p != [] && p[0] != COMMENT && NUL !in p && NEWLINE !in p
  }

  /** The lines getline returns for a configuration listing `paths`, one per line. */
  function Render(paths: seq<string>): (lines: seq<string>)
    ensures |lines| == |paths|
    ensures forall i :: 0 <= i < |paths| ==> lines[i] == paths[i] + [NEWLINE]
  {
    if paths == [] then [] else [paths[0] + [NEWLINE]] + Render(paths[1..])
  }

  /** On text without NUL, strlen sees the whole text. */
  lemma {:induction false} CStringOfNulFree(s: string)
    requires NUL !in s
    ensures CString(s) == s
  {
    if s != [] {
      assert s[0] in s;
      assert forall c :: c in s[1..] ==> c in s;
      CStringOfNulFree(s[1..]);
    }
  }

  /** Writing representable paths one per line and reading them back gives
      the same targets in the same order. */
  lemma {:induction false} RenderRoundTrip(paths: seq<string>)
    requires forall p :: p in paths ==> Representable(p)
    ensures Accepted(Render(paths)) == paths
  {
    if paths != [] {
      var rendered := Render(paths);
      assert rendered[0] == paths[0] + [NEWLINE];
      assert rendered[1..] == Render(paths[1..]);
      PathLineKept(paths[0]);
      RenderRoundTrip(paths[1..]);
    }
  }

  /** Stripping undoes exactly one appended newline, even when the text
      already ends in a newline of its own. */
  lemma StripRoundTrip(s: string)
    ensures StripNewline(s + [NEWLINE]) == s
  {
  }

  /** Only the first character is tested: a `#` after a leading blank is kept. */
  lemma HashAfterBlankKept()
    ensures Entry(" #x\n") == Some(" #x")
  {
    CStringOfNulFree(" #x\n");
    assert StripNewline(" #x\n") == " #x";
  }

  /** The targets of a one-line configuration. */
  lemma AcceptedOne(line: string)
    ensures Accepted([line]) == if Entry(line).Some? then [Entry(line).value] else []
  {
    assert [line][1..] == [];
  }

  /** A newline-terminated path line yields the path. */
  lemma PathLineKept(p: string)
    requires Representable(p)
    ensures Entry(p + [NEWLINE]) == Some(p)
  {
    assert NUL !in p + [NEWLINE];
    CStringOfNulFree(p + [NEWLINE]);
    assert StripNewline(p + [NEWLINE]) == p;
  }

  /** A four-line configuration yields the targets of its lines, in order. */
  lemma AcceptedFour(a: string, b: string, c: string, d: string)
    ensures Accepted([a, b, c, d]) == Accepted([a]) + Accepted([b]) + Accepted([c]) + Accepted([d])
  {
    AcceptedConcat([a], [b]);
    AcceptedConcat([a, b], [c]);
    AcceptedConcat([a, b, c], [d]);
    assert [a] + [b] == [a, b];
    assert [a, b] + [c] == [a, b, c];
    assert [a, b, c] + [d] == [a, b, c, d];
  }

  /** Two paths with a comment line and a blank line between them yield
      exactly the two paths, e.g. `/dev/sr0` and `/dev/sr1`. */
  lemma TwoPathsAroundCommentAndBlank(p: string, comment: string, q: string)
    requires Representable(p) && Representable(q) && IsComment(comment)
    ensures Accepted([p + [NEWLINE], comment, [NEWLINE], q + [NEWLINE]]) == [p, q]
  {
    PathLineKept(p);
    PathLineKept(q);
    assert CString([NEWLINE]) == [NEWLINE];
    AcceptedOne(p + [NEWLINE]);
    AcceptedOne(comment);
    AcceptedOne([NEWLINE]);
    AcceptedOne(q + [NEWLINE]);
    AcceptedFour(p + [NEWLINE], comment, [NEWLINE], q + [NEWLINE]);
  }
}
