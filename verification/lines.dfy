/**
 `"\n".join(pieces)` and its partner, splitting a string at every line feed
 (`s.split("\n")`). The two are inverse to each other: splitting a join gives
 back the pieces when none of them holds a line feed, and joining a split
 always gives back the string.
 */
module Lines {

  const LF: char := '\n'

  predicate NoLineFeed(s: string) {
    forall k :: 0 <= k < |s| ==> s[k] != LF
  }

  /** Number of line feeds in `s`. */
  function LineFeeds(s: string): nat {
    if s == [] then 0 else (if s[0] == LF then 1 else 0) + LineFeeds(s[1..])
  }

  /** `"\n".join(pieces)`: the pieces in order with one line feed between
      neighbours and none at either end. */
  function JoinLines(pieces: seq<string>): (r: string)
    ensures pieces == [] ==> r == []
    ensures |pieces| == 1 ==> r == pieces[0]
    ensures |pieces| > 0 ==> |r| >= |pieces| - 1
    ensures |pieces| > 0 ==> |r| >= |pieces[0]| && r[..|pieces[0]|] == pieces[0]
  {
    if |pieces| == 0 then []
    else if |pieces| == 1 then pieces[0]
    else pieces[0] + [LF] + JoinLines(pieces[1..])
  }

  /** `s.split("\n")`: the maximal line-feed-free runs of `s`, always at
      least one. */
  function SplitLines(s: string): (r: seq<string>)
    ensures |r| >= 1
    ensures forall i :: 0 <= i < |r| ==> NoLineFeed(r[i])
    ensures |r| == LineFeeds(s) + 1
  {
    if s == [] then [[]]
    else
      var rest := SplitLines(s[1..]);
      if s[0] == LF then [[]] + rest
      else [[s[0]] + rest[0]] + rest[1..]
  }

  /** Total length of the pieces plus one separator between each neighbouring
      pair is the length of the join. */
  lemma {:induction false} JoinLinesLength(pieces: seq<string>)
    requires |pieces| > 0
    ensures |JoinLines(pieces)| == SumLengths(pieces) + |pieces| - 1
  {
    if |pieces| > 1 {
      JoinLinesLength(pieces[1..]);
    }
  }

  function SumLengths(pieces: seq<string>): nat {
    if pieces == [] then 0 else |pieces[0]| + SumLengths(pieces[1..])
  }

  lemma JoinLinesCons(a: string, b: string, tail: seq<string>)
    ensures JoinLines([a + b] + tail) == a + JoinLines([b] + tail)
  {
    if tail != [] {
      assert ([a + b] + tail)[1..] == tail;
      assert ([b] + tail)[1..] == tail;
    }
  }

  /** Joining what was split restores the string. */
  lemma {:induction false} JoinSplit(s: string)
    ensures JoinLines(SplitLines(s)) == s
  {
    if s != [] {
      var rest := SplitLines(s[1..]);
      JoinSplit(s[1..]);
      if s[0] == LF {
        assert ([[]] + rest)[1..] == rest;
      } else {
        JoinLinesCons([s[0]], rest[0], rest[1..]);
        assert [rest[0]] + rest[1..] == rest;
      }
    }
  }

  lemma {:induction false} SplitLineFeedFree(a: string)
    requires NoLineFeed(a)
    ensures SplitLines(a) == [a]
  {
    if a != [] {
      SplitLineFeedFree(a[1..]);
      assert [a[0]] + a[1..] == a;
    }
  }

  lemma {:induction false} SplitAfterPiece(a: string, rest: string)
    requires NoLineFeed(a)
    ensures SplitLines(a + [LF] + rest) == [a] + SplitLines(rest)
  {
    if a == [] {
      assert (a + [LF] + rest)[1..] == rest;
    } else {
      assert (a + [LF] + rest)[1..] == a[1..] + [LF] + rest;
      SplitAfterPiece(a[1..], rest);
      assert [a[0]] + a[1..] == a;
    }
  }

  /** Splitting a join of line-feed-free pieces gives the pieces back. An empty
      list is the one exception: it joins to "" as the one-piece list [""]
      does, and "" splits into [""]. */
  lemma {:induction false} SplitJoin(pieces: seq<string>)
    requires |pieces| > 0
    requires forall i :: 0 <= i < |pieces| ==> NoLineFeed(pieces[i])
    ensures SplitLines(JoinLines(pieces)) == pieces
  {
    if |pieces| == 1 {
      SplitLineFeedFree(pieces[0]);
    } else {
      SplitJoin(pieces[1..]);
      SplitAfterPiece(pieces[0], JoinLines(pieces[1..]));
      assert [pieces[0]] + pieces[1..] == pieces;
    }
  }
}
