/** The growable target array of polld.c: `filelist` with `listlen`
    entries in use and room for `alloclen` (polld.c:30-33, 76-94), and the
    pass over it that every polling cycle makes (polld.c:113-116). */
module Targets {

  /** Room added beyond the new length whenever the array is full (polld.c:81, 86). */
  const Slack: nat := 4

  /** The capacity after `n` appends to an empty list: an append that makes
      the length exceed the capacity grows it to the new length plus Slack. */
  function Capacity(n: nat): (c: nat)
    ensures n <= c <= n + Slack
  {
    if n == 0 then 0
    else
      var previous := Capacity(n - 1);
      if n > previous then n + Slack else previous
  }

  /** The closed form of the growth rule: the capacity is the length
      rounded up to a multiple of Slack + 1. */
  lemma {:induction false} CapacityRoundsUp(n: nat)
    ensures Capacity(n) == (n + Slack) / (Slack + 1) * (Slack + 1)
    ensures Capacity(n) % (Slack + 1) == 0
  {
    if n > 0 {
      CapacityRoundsUp(n - 1);
      var q := (n - 1 + Slack) / (Slack + 1);
      assert n - 1 + Slack == q * (Slack + 1) + (n - 1 + Slack) % (Slack + 1);
      if n > Capacity(n - 1) {
        assert Capacity(n - 1) == n - 1;
        assert (n + Slack) / (Slack + 1) == q + 1;
      } else {
        assert (n - 1 + Slack) % (Slack + 1) < Slack;
        assert (n + Slack) / (Slack + 1) == q;
      }
    }
  }

  class TargetList {
    var filelist: array<string>
    var listlen: nat
    var alloclen: nat

    /** The counters agree with the array, and the capacity is the one the
        growth rule leads to. */
    ghost predicate Valid()
      reads this
    {
      alloclen == filelist.Length && listlen <= alloclen && alloclen == Capacity(listlen)
    }

    /** The stored targets, `filelist[0..listlen)`. */
    function Targets(): seq<string>
      reads this, filelist
      requires Valid()
    {
      filelist[..listlen]
    }

    /** The empty list polld starts with: no array and both counters zero. */
    constructor ()
      ensures Valid() && fresh(filelist)
      ensures listlen == 0 && alloclen == 0 && Targets() == []
    {
      filelist := new string[0];
      listlen := 0;
      alloclen := 0;
    }

    /** realloc: a fresh array of `size` slots holding the used entries. */
    method Grow(size: nat)
      requires listlen <= filelist.Length <= size
      modifies this`filelist
      ensures fresh(filelist) && filelist.Length == size
      ensures filelist[..listlen] == old(filelist[..listlen])
    {
      var bigger := new string[size];
      var i := 0;
      while i < listlen
        invariant 0 <= i <= listlen
        invariant filelist == old(filelist)
        invariant bigger[..i] == filelist[..i]
      {
        bigger[i] := filelist[i];
        i := i + 1;
      }
      filelist := bigger;
    }

    /** Stores one accepted line at index `listlen - 1` of the lengthened
        list, growing the array to `listlen + Slack` slots when it is full.
        `n in granted` says whether the system grants an array of `n` slots;
        when it does not, nothing is stored and the result is false. */
    method Append(entry: string, granted: iset<nat>) returns (ok: bool)
      requires Valid()
      modifies this, filelist
      ensures ok <==> old(listlen) + 1 <= old(alloclen) || (old(listlen) + 1 + Slack) in granted
      ensures ok ==> Valid() && listlen == old(listlen) + 1
      ensures ok ==> Targets() == old(Targets()) + [entry]
      ensures ok ==> alloclen == if old(listlen) + 1 > old(alloclen) then listlen + Slack else old(alloclen)
      ensures !ok ==> unchanged(this) && unchanged(filelist)
      ensures filelist == old(filelist) || fresh(filelist)
    {
      if listlen + 1 > alloclen {
        if (listlen + 1 + Slack) !in granted {
          return false;
        }
        Grow(listlen + 1 + Slack);
        alloclen := listlen + 1 + Slack;
      }
      filelist[listlen] := entry;
      listlen := listlen + 1;
      ok := true;
    }

    /** One polling cycle: every target is opened (and closed) once, in list
        order. The open's result is discarded, so the cycle is its trace. */
    method PollCycle() returns (visited: seq<string>)
      requires Valid()
      ensures visited == Targets()
    {
      visited := [];
      var i := 0;
      while i < listlen
        invariant 0 <= i <= listlen
        invariant visited == filelist[..i]
      {
        visited := visited + [filelist[i]];
        i := i + 1;
      }
    }
  }
}
