/**
 * The bounded history log: a fixed array of MAX_HISTORY lines and a count of
 * the slots in use, oldest line first. A line is stored verbatim (trailing
 * newline included); when the log is full the oldest line is evicted and the
 * rest shift down by one.
 */
module HistoryLog {
  import opened CNumbers

  const MAX_HISTORY: nat := 50

  /** The log's contents after addToHistory(line), as a sequence. */
  function Appended(h: seq<string>, line: string): (r: seq<string>)
    requires |h| <= MAX_HISTORY
    ensures |r| <= MAX_HISTORY
    ensures |line| > 0 ==> |r| >= 1 && r[|r| - 1] == line
  {
    if |line| == 0 then h
    else if |h| == MAX_HISTORY then h[1..] + [line]
    else h + [line]
  }

  /** The log reached by adding the given lines, in order, to an empty log. */
  function Replay(lines: seq<string>): (h: seq<string>)
    ensures |h| <= MAX_HISTORY
  {
    if lines == [] then []
    else
      var h := Replay(lines[..|lines| - 1]);
      var r := Appended(h, lines[|lines| - 1]);
      assert |r| <= MAX_HISTORY;
      r
  }

  /** The lines of non-zero length, in order. */
  function NonEmpty(lines: seq<string>): seq<string> {
    if lines == [] then []
    else NonEmpty(lines[..|lines| - 1]) + (if |lines[|lines| - 1]| == 0 then [] else [lines[|lines| - 1]])
  }

  /** The last n elements of s (all of s when it is shorter). */
  function Recent(s: seq<string>, n: nat): seq<string> {
    if |s| <= n then s else s[|s| - n..]
  }

  /** One line of printHistory: printf("[%d] %s\n", i, line). */
  function Row(i: nat, line: string): string {
    "[" + Decimal(i) + "] " + line + "\n"
  }

  /** Rows for the lines of h, numbered from first. */
  function Rows(h: seq<string>, first: nat): string
    decreases |h|
  {
    if h == [] then "" else Row(first, h[0]) + Rows(h[1..], first + 1)
  }

  /** The whole output of printHistory: rows numbered 1..|h|, oldest first. */
  function Listing(h: seq<string>): string {
    Rows(h, 1)
  }

  /** Adding a line keeps the log within capacity, keeps its order, and puts the line last. */
  lemma AppendedKeepsRecent(h: seq<string>, line: string)
    requires |h| <= MAX_HISTORY
    ensures var r := Appended(h, line);
      |r| <= MAX_HISTORY &&
      (|line| == 0 ==> r == h) &&
      (|line| > 0 ==> r == Recent(h + [line], MAX_HISTORY) && r[|r| - 1] == line)
  {
  }

  /** After any sequence of lines the log holds exactly the 50 most recent non-empty ones. */
  lemma {:induction false} ReplayKeepsMostRecent(lines: seq<string>)
    ensures Replay(lines) == Recent(NonEmpty(lines), MAX_HISTORY)
  {
    if lines != [] {
      var init, last := lines[..|lines| - 1], lines[|lines| - 1];
      ReplayKeepsMostRecent(init);
      var f := NonEmpty(init);
      if |last| > 0 {
        assert NonEmpty(lines) == f + [last];
        if |f| >= MAX_HISTORY {
          var tail := f[|f| - MAX_HISTORY..];
          assert tail[1..] + [last] == (f + [last])[|f| + 1 - MAX_HISTORY..];
        }
      } else {
        assert NonEmpty(lines) == f;
      }
    }
  }

  /** Rows are numbered consecutively: adding a line adds one row at the end. */
  lemma {:induction false} RowsSnoc(h: seq<string>, line: string, first: nat)
    ensures Rows(h + [line], first) == Rows(h, first) + Row(first + |h|, line)
    decreases |h|
  {
    if h == [] {
      assert [line][1..] == [];
    } else {
      assert (h + [line])[1..] == h[1..] + [line];
      RowsSnoc(h[1..], line, first + 1);
    }
  }

  /** The listing of a log is the listing of its older part followed by the rows of the newer part. */
  lemma {:induction false} RowsConcat(a: seq<string>, b: seq<string>, first: nat)
    ensures Rows(a + b, first) == Rows(a, first) + Rows(b, first + |a|)
    decreases |a|
  {
    if a == [] {
      assert a + b == b;
    } else {
      RowsConcat(a[1..], b, first + 1);
      RowsConsConcat(a, b, first);
    }
  }

  /** One unfolding of Rows on a + b, for a non-empty a. */
  lemma RowsConsConcat(a: seq<string>, b: seq<string>, first: nat)
    requires a != []
    ensures Rows(a + b, first) == Row(first, a[0]) + Rows(a[1..] + b, first + 1)
    ensures Rows(a, first) == Row(first, a[0]) + Rows(a[1..], first + 1)
  {
    assert (a + b)[0] == a[0] && (a + b)[1..] == a[1..] + b;
  }

  /** Entry k (0-based) is listed as row k+1, after every older entry. */
  lemma ListingShowsEntry(h: seq<string>, k: nat)
    requires k < |h|
    ensures Listing(h) == Listing(h[..k]) + Row(k + 1, h[k]) + Rows(h[k + 1..], k + 2)
  {
    var older, tail := h[..k], [h[k]] + h[k + 1..];
    assert h == older + tail;
    RowsConcat(older, tail, 1);
    assert tail != [] && tail[0] == h[k] && tail[1..] == h[k + 1..];
    assert Rows(tail, k + 1) == Row(k + 1, h[k]) + Rows(h[k + 1..], k + 2);
  }

  /** The global history array and historySize. */
  class History {
    const entries: array<string>
    var size: int

    ghost predicate Valid()
      reads this
    {
      entries.Length == MAX_HISTORY && 0 <= size <= MAX_HISTORY
    }

    /** The stored lines, oldest first. */
    function Contents(): (h: seq<string>)
      reads this, entries
      requires Valid()
      ensures |h| == size
    {
      entries[..size]
    }

    constructor ()
      ensures Valid() && fresh(entries)
      ensures Contents() == []
    {
      entries := new string[MAX_HISTORY](_ => "");
      size := 0;
    }

    /** addToHistory: store a copy of the line, evicting the oldest when full. */
    method Add(line: string)
      requires Valid()
      modifies this, entries
      ensures Valid()
      ensures Contents() == Appended(old(Contents()), line)
      ensures |line| == 0 ==> size == old(size) && entries[..] == old(entries[..])
      ensures |line| > 0 && old(size) < MAX_HISTORY ==>
        size == old(size) + 1 && entries[..] == old(entries[..])[old(size) := line]
      ensures |line| > 0 && old(size) == MAX_HISTORY ==>
        size == MAX_HISTORY && entries[..] == old(entries[1..]) + [line]
    {
      if |line| == 0 {
        return;
      }
      if size == MAX_HISTORY {
        for i := 0 to MAX_HISTORY - 1
          invariant size == MAX_HISTORY
          invariant forall k :: 0 <= k < i ==> entries[k] == old(entries[k + 1])
          invariant forall k :: i <= k < MAX_HISTORY ==> entries[k] == old(entries[k])
        {
          entries[i] := entries[i + 1];
        }
        size := size - 1;
        entries[size] := line;
        size := size + 1;
        assert forall k :: 0 <= k < MAX_HISTORY ==> entries[..][k] == (old(entries[1..]) + [line])[k];
        return;
      }
      entries[size] := line;
      size := size + 1;
    }

    /** printHistory: the text it prints. */
    method Render() returns (out: string)
      requires Valid()
      ensures out == Listing(Contents())
    {
      out := "";
      for i := 1 to size + 1
        invariant out == Listing(entries[..i - 1])
      {
        assert entries[..i] == entries[..i - 1] + [entries[i - 1]];
        RowsSnoc(entries[..i - 1], entries[i - 1], 1);
        out := out + Row(i, entries[i - 1]);
      }
    }
  }
}
