/**
 The text normaliser `get_segments`: it turns what the speech model returns
 into the one string the program prints or saves, either as one continuous
 block or as one line per non-blank segment.
 */
module Transcription {
  import opened Text
  import opened Lines

  /** One time-bounded span of the transcription; only its text matters here. */
  datatype Segment = Segment(text: string)

  /** What the model's `transcribe` call returns: the whole text and the
      segments in order. */
  datatype TranscriptionResult = TranscriptionResult(text: string, segments: seq<Segment>)

  /** What one stripped, non-blank text becomes: punctuation removed unless it
      is kept, then lower-cased. There is no second strip after the removal. */
  function Clean(stripped: string, withPunct: bool): (r: string)
    ensures |r| <= |stripped|
    ensures NoUpper(r)
    ensures withPunct ==> |r| == |stripped|
    ensures !withPunct ==> AllAllowed(r)
  {
    Lower(if withPunct then stripped else RemovePunctuation(stripped))
  }

  /** The contribution of one segment to the list of lines: nothing when its
      text is blank, otherwise its cleaned, stripped text. The blank test
      looks at the text before punctuation is removed. */
  function SegmentLines(seg: Segment, withPunct: bool): (r: seq<string>)
    ensures |r| <= 1
    ensures r == [] <==> Blank(seg.text)
    ensures r != [] ==> r[0] == Clean(Strip(seg.text), withPunct)
  {
    var text := Strip(seg.text);
    if text != [] then [Clean(text, withPunct)] else []
  }

  /** The list `text_segments` built by the loop: one entry per non-blank
      segment, in the order of the segments. */
  function Pieces(segs: seq<Segment>, withPunct: bool): (r: seq<string>)
    ensures |r| <= |segs|
    ensures forall k :: 0 <= k < |r| ==> NoUpper(r[k])
    ensures !withPunct ==> forall k :: 0 <= k < |r| ==> AllAllowed(r[k])
  {
    if segs == [] then []
    else Pieces(segs[..|segs| - 1], withPunct) + SegmentLines(segs[|segs| - 1], withPunct)
  }

  /** Blank segments contribute nothing, so all-blank input collects no piece. */
  lemma {:induction false} PiecesAllBlank(segs: seq<Segment>, withPunct: bool)
    requires forall i :: 0 <= i < |segs| ==> Blank(segs[i].text)
    ensures Pieces(segs, withPunct) == []
  {
    if segs != [] {
      var n := |segs| - 1;
      PiecesAllBlank(segs[..n], withPunct);
      assert Blank(segs[n].text);
    }
  }

  /** `get_segments(transcription, with_punct, continued_text)`. */
  function GetSegments(t: TranscriptionResult, withPunct: bool, continuedText: bool): (r: string)
    ensures NoUpper(r)
    ensures !withPunct ==> AllAllowed(r)
    ensures continuedText ==> |r| <= |Strip(t.text)|
    ensures continuedText && withPunct ==> |r| == |Strip(t.text)|
    ensures !continuedText && (forall i :: 0 <= i < |t.segments| ==> Blank(t.segments[i].text)) ==> r == []
  {
    if continuedText then Clean(Strip(t.text), withPunct)
    else
      var pieces := Pieces(t.segments, withPunct);
      assert !withPunct ==> AllAllowed(JoinLines(pieces)) by {
        if !withPunct {
          JoinAllowed(pieces);
        }
      }
      assert (forall i :: 0 <= i < |t.segments| ==> Blank(t.segments[i].text)) ==> pieces == [] by {
        if forall i :: 0 <= i < |t.segments| ==> Blank(t.segments[i].text) {
          PiecesAllBlank(t.segments, withPunct);
        }
      }
      JoinNoUpper(pieces);
      JoinLines(pieces)
  }

  lemma {:induction false} JoinAllowed(pieces: seq<string>)
    requires forall k :: 0 <= k < |pieces| ==> AllAllowed(pieces[k])
    ensures AllAllowed(JoinLines(pieces))
  {
    if |pieces| > 1 {
      JoinAllowed(pieces[1..]);
      assert IsAllowed(LF);
    }
  }

  lemma {:induction false} JoinNoUpper(pieces: seq<string>)
    requires forall k :: 0 <= k < |pieces| ==> NoUpper(pieces[k])
    ensures NoUpper(JoinLines(pieces))
  {
    if |pieces| > 1 {
      JoinNoUpper(pieces[1..]);
    }
  }

  /** The segmented branch as the source writes it: a loop that strips each
      segment, skips it when blank, cleans it and appends it, and a final join. */
  method CollectSegments(segs: seq<Segment>, withPunct: bool) returns (out: string)
    ensures out == GetSegments(TranscriptionResult([], segs), withPunct, false)
  {
    var textSegments: seq<string> := [];
    var i := 0;
    while i < |segs|
      invariant 0 <= i <= |segs|
      invariant textSegments == Pieces(segs[..i], withPunct)
    {
      ghost var before := textSegments;
      var text := Strip(segs[i].text);
      if text != [] {
        if !withPunct {
          text := RemovePunctuation(text);
        }
        text := Lower(text);
        textSegments := textSegments + [text];
      }
      LoopStep(segs, i, withPunct, before, textSegments);
      i := i + 1;
    }
    assert textSegments == Pieces(segs, withPunct) by {
      assert segs[..i] == segs;
    }
    out := JoinLines(textSegments);
    SegmentedIsJoin(TranscriptionResult([], segs), withPunct);
  }

  lemma SegmentedIsJoin(t: TranscriptionResult, withPunct: bool)
    ensures GetSegments(t, withPunct, false) == JoinLines(Pieces(t.segments, withPunct))
  {
  }

  // ---------------------------------------------------------------------
  // Properties of the segmented mode

  /** Indices of the segments whose text is not blank, in increasing order. */
  function NonBlankIndices(segs: seq<Segment>): (r: seq<nat>)
    ensures forall k :: 0 <= k < |r| ==> r[k] < |segs| && !Blank(segs[r[k]].text)
    ensures forall k, l :: 0 <= k < l < |r| ==> r[k] < r[l]
    ensures forall i :: 0 <= i < |segs| && !Blank(segs[i].text) ==> i in r
  {
    if segs == [] then []
    else
      var n := |segs| - 1;
      var init := NonBlankIndices(segs[..n]);
      assert forall k :: 0 <= k < |init| ==> segs[..n][init[k]] == segs[init[k]];
      init + (if Blank(segs[n].text) then [] else [n])
  }

  /** The k-th line of the segmented output is the cleaned text of the k-th
      non-blank segment: blank segments contribute nothing, every other
      segment contributes exactly one line, and the order is kept. */
  lemma {:induction false} PiecesByIndex(segs: seq<Segment>, withPunct: bool)
    ensures var idx := NonBlankIndices(segs);
      && |Pieces(segs, withPunct)| == |idx|
      && forall k :: 0 <= k < |idx| ==>
           Pieces(segs, withPunct)[k] == Clean(Strip(segs[idx[k]].text), withPunct)
  {
    if segs != [] {
      var n := |segs| - 1;
      PiecesByIndex(segs[..n], withPunct);
      var init := NonBlankIndices(segs[..n]);
      assert forall k :: 0 <= k < |init| ==> init[k] < n;
      assert Pieces(segs, withPunct) == Pieces(segs[..n], withPunct) + SegmentLines(segs[n], withPunct);
      ByIndexSnoc(segs, n, withPunct, Pieces(segs, withPunct), Pieces(segs[..n], withPunct),
                  NonBlankIndices(segs), init);
    }
  }

  /** The inductive step of `PiecesByIndex`, on the lists themselves. */
  lemma ByIndexSnoc(segs: seq<Segment>, n: nat, withPunct: bool,
                    p: seq<string>, q: seq<string>, idx: seq<nat>, init: seq<nat>)
    requires n + 1 == |segs|
    requires p == q + SegmentLines(segs[n], withPunct)
    requires idx == init + (if Blank(segs[n].text) then [] else [n])
    requires |q| == |init|
    requires forall k :: 0 <= k < |init| ==> init[k] < n
    requires forall k :: 0 <= k < |init| ==> q[k] == Clean(Strip(segs[..n][init[k]].text), withPunct)
    ensures |p| == |idx|
    ensures forall k :: 0 <= k < |idx| ==> p[k] == Clean(Strip(segs[idx[k]].text), withPunct)
  {
    forall k | 0 <= k < |idx|
      ensures p[k] == Clean(Strip(segs[idx[k]].text), withPunct)
    {
      if k < |init| {
        assert idx[k] == init[k] && p[k] == q[k];
        assert segs[..n][init[k]] == segs[init[k]];
      } else {
        assert idx[k] == n && !Blank(segs[n].text);
        assert p[k] == SegmentLines(segs[n], withPunct)[0];
      }
    }
  }

  lemma PiecesSnoc(segs: seq<Segment>, seg: Segment, withPunct: bool)
    ensures Pieces(segs + [seg], withPunct) == Pieces(segs, withPunct) + SegmentLines(seg, withPunct)
  {
    assert (segs + [seg])[..|segs|] == segs;
  }

  /** One turn of the loop in `CollectSegments` extends the collected list
      by the contribution of segment `i`. */
  lemma LoopStep(segs: seq<Segment>, i: nat, withPunct: bool, before: seq<string>, after: seq<string>)
    requires i < |segs| && before == Pieces(segs[..i], withPunct)
    requires var text := Strip(segs[i].text);
      after == if text != [] then before + [Clean(text, withPunct)] else before
    ensures after == Pieces(segs[..i + 1], withPunct)
  {
    PiecesStep(segs, i, withPunct);
  }

  lemma PiecesStep(segs: seq<Segment>, i: nat, withPunct: bool)
    requires i < |segs|
    ensures Pieces(segs[..i + 1], withPunct) == Pieces(segs[..i], withPunct) + SegmentLines(segs[i], withPunct)
  {
    assert segs[..i + 1] == segs[..i] + [segs[i]];
    PiecesSnoc(segs[..i], segs[i], withPunct);
  }

  /** Collecting over two runs of segments is collecting over each. */
  lemma {:induction false} PiecesAppend(a: seq<Segment>, b: seq<Segment>, withPunct: bool)
    ensures Pieces(a + b, withPunct) == Pieces(a, withPunct) + Pieces(b, withPunct)
  {
    if b == [] {
      assert a + b == a;
    } else {
      var n := |b| - 1;
      SplitLast(a, b);
      PiecesSnoc(a + b[..n], b[n], withPunct);
      PiecesSnoc(b[..n], b[n], withPunct);
      PiecesAppend(a, b[..n], withPunct);
      ConcatAssoc(Pieces(a, withPunct), Pieces(b[..n], withPunct), SegmentLines(b[n], withPunct));
    }
  }

  lemma ConcatAssoc<T>(x: seq<T>, y: seq<T>, z: seq<T>)
    ensures (x + y) + z == x + (y + z)
  {
  }

  lemma SplitLast(a: seq<Segment>, b: seq<Segment>)
    requires b != []
    ensures a + b == (a + b[..|b| - 1]) + [b[|b| - 1]]
    ensures b == b[..|b| - 1] + [b[|b| - 1]]
  {
  }

  /** When no segment text holds a line feed, the segmented output splits back
      into exactly one line per non-blank segment, each the cleaned text of
      that segment, in input order. */
  lemma SegmentedLines(t: TranscriptionResult, withPunct: bool)
    requires forall i :: 0 <= i < |t.segments| ==> NoLineFeed(t.segments[i].text)
    requires exists i :: 0 <= i < |t.segments| && !Blank(t.segments[i].text)
    ensures var idx := NonBlankIndices(t.segments);
      var lines := SplitLines(GetSegments(t, withPunct, false));
      && |lines| == |idx|
      && forall k :: 0 <= k < |idx| ==> lines[k] == Clean(Strip(t.segments[idx[k]].text), withPunct)
  {
    var segs := t.segments;
    var pieces := Pieces(segs, withPunct);
    var idx := NonBlankIndices(segs);
    PiecesByIndex(segs, withPunct);
    var i :| 0 <= i < |segs| && !Blank(segs[i].text);
    assert i in idx;
    forall k | 0 <= k < |pieces| ensures NoLineFeed(pieces[k]) {
      CleanKeepsNoLineFeed(segs[idx[k]].text, withPunct);
    }
    SplitJoin(pieces);
  }

  lemma StripKeepsNoLineFeed(s: string)
    requires NoLineFeed(s)
    ensures NoLineFeed(Strip(s))
  {
    StripIsInfix(s);
    var lo := |s| - |TrimLeft(s)|;
    assert Strip(s) == s[lo..lo + |Strip(s)|];
  }

  lemma CleanKeepsNoLineFeed(text: string, withPunct: bool)
    requires NoLineFeed(text)
    ensures NoLineFeed(Clean(Strip(text), withPunct))
  {
    var s := Strip(text);
    StripKeepsNoLineFeed(text);
    if !withPunct {
      RemovePunctuationKeepsAllowed(s);
      var r := RemovePunctuation(s);
      assert multiset(s)[LF] == 0;
      forall k | 0 <= k < |r| ensures r[k] != LF {
        assert r[k] in multiset(r);
      }
    }
  }

  /** A segment that is not blank but is all punctuation is kept as an empty
      line when punctuation is removed: the blank test comes first. */
  lemma PunctuationOnlySegmentKept(seg: Segment)
    requires !Blank(seg.text)
    requires NoneAllowed(Strip(seg.text))
    ensures SegmentLines(seg, false) == [[]]
  {
    RemovePunctuationOfPunctuation(Strip(seg.text));
  }

  lemma {:induction false} RemovePunctuationOfPunctuation(s: string)
    requires NoneAllowed(s)
    ensures RemovePunctuation(s) == []
  {
    if s != [] {
      RemovePunctuationOfPunctuation(s[1..]);
    }
  }

  /** So a punctuation-only segment after a spoken one leaves a trailing empty
      line in the segmented output. */
  lemma PunctuationOnlyLeavesEmptyLine(spoken: Segment, punct: Segment)
    requires !Blank(spoken.text) && !Blank(punct.text)
    requires NoneAllowed(Strip(punct.text))
    ensures GetSegments(TranscriptionResult([], [spoken, punct]), false, false)
         == Clean(Strip(spoken.text), false) + [LF]
  {
    PunctuationOnlySegmentKept(punct);
    var segs := [spoken, punct];
    assert segs[..1] == [spoken];
    assert [spoken][..0] == [];
    assert Pieces(segs, false) == [Clean(Strip(spoken.text), false), []];
  }

  // ---------------------------------------------------------------------
  // Properties of the continuous mode

  /** With punctuation kept, continuous output is the stripped text lower-cased,
      character for character: nothing is removed. */
  lemma ContinuousWithPunct(t: TranscriptionResult)
    ensures var r := GetSegments(t, true, true);
      var s := Strip(t.text);
      && |r| == |s|
      && forall k :: 0 <= k < |s| ==> r[k] == LowerChar(s[k])
  {
  }

  /** Every output piece is a subsequence of the lower-cased, stripped input,
      and it holds every allowed character of that input as often as the input
      does: punctuation removal only deletes. */
  lemma CleanOnlyDeletes(text: string, withPunct: bool)
    ensures var s := Lower(Strip(text));
      var r := Clean(Strip(text), withPunct);
      && IsSubseq(r, s)
      && forall c :: IsAllowed(c) ==> multiset(r)[c] == multiset(s)[c]
  {
    var s := Lower(Strip(text));
    if withPunct {
      IsSubseqRefl(s);
    } else {
      LowerRemovePunctuationCommute(Strip(text));
      RemovePunctuationIsSubseq(s);
      RemovePunctuationKeepsAllowed(s);
    }
  }

  lemma {:induction false} IsSubseqRefl(s: string)
    ensures IsSubseq(s, s)
  {
    if s != [] {
      IsSubseqRefl(s[1..]);
    }
  }

  /** With punctuation kept, normalising the continuous output again changes
      nothing. */
  lemma ContinuousWithPunctIdempotent(t: TranscriptionResult)
    ensures var r := GetSegments(t, true, true);
      GetSegments(TranscriptionResult(r, t.segments), true, true) == r
  {
    var s := Strip(t.text);
    StripLowerCommute(s);
    StripIdempotent(t.text);
    LowerIdempotent(s);
  }

  /** Without punctuation the pipeline is not idempotent, because nothing
      strips again after the removal: "Yes ." becomes "yes " and a second pass
      gives "yes". */
  lemma NotIdempotentWithoutPunct()
    ensures var t := TranscriptionResult("Yes .", []);
      var once := GetSegments(t, false, true);
      && once == "yes "
      && GetSegments(TranscriptionResult(once, []), false, true) == "yes"
  {
    YesDotFirstPass();
    YesDotSecondPass();
  }

  lemma YesDotFirstPass()
    ensures Clean(Strip("Yes ."), false) == "yes "
  {
    StripKeepsTrimmed("Yes .");
    YesDotRemove();
    assert Lower("Yes ") == "yes ";
  }

  lemma YesDotRemove()
    ensures RemovePunctuation("Yes .") == "Yes "
  {
    assert "Yes ." == "Yes " + ".";
    AllowedThenPunctuation("Yes ", ".");
  }

  lemma YesDotSecondPass()
    ensures Clean(Strip("yes "), false) == "yes"
  {
    assert Strip("yes ") == "yes" by {
      assert TrimLeft("yes ") == "yes ";
      assert "yes "[..3] == "yes";
      assert TrimRight("yes ") == "yes";
    }
    RemovePunctuationFixesAllowed("yes");
    assert Lower("yes") == "yes";
  }

  // ---------------------------------------------------------------------
  // Worked examples

  lemma HelloWorldClean()
    ensures Clean(Strip("Hello, World!"), false) == "hello world"
    ensures Clean(Strip("Hello, World!"), true) == "hello, world!"
  {
    HelloWorldStrip();
    HelloWorldRemove();
    HelloWorldLower();
  }

  lemma HelloWorldStrip()
    ensures Strip("Hello, World!") == "Hello, World!"
  {
    StripKeepsTrimmed("Hello, World!");
  }

  lemma HelloWorldRemove()
    ensures RemovePunctuation("Hello, World!") == "Hello World"
  {
    RemovePunctuationOfWords("Hello", ",", " World", "!");
    assert "Hello" + "," + " World" + "!" == "Hello, World!";
    assert "Hello" + " World" == "Hello World";
  }

  /** Two runs of allowed characters, each followed by a run of punctuation,
      keep just the two runs. */
  lemma RemovePunctuationOfWords(w1: string, p1: string, w2: string, p2: string)
    requires AllAllowed(w1) && AllAllowed(w2)
    requires NoneAllowed(p1)
    requires NoneAllowed(p2)
    ensures RemovePunctuation(w1 + p1 + w2 + p2) == w1 + w2
  {
    ConcatAssoc(w1 + p1, w2, p2);
    RemovePunctuationAppend(w1 + p1, w2 + p2);
    AllowedThenPunctuation(w1, p1);
    AllowedThenPunctuation(w2, p2);
  }

  /** Allowed characters followed by punctuation keep just the allowed run. */
  lemma AllowedThenPunctuation(w: string, p: string)
    requires AllAllowed(w)
    requires NoneAllowed(p)
    ensures RemovePunctuation(w + p) == w
  {
    RemovePunctuationAppend(w, p);
    RemovePunctuationOfPunctuation(p);
    RemovePunctuationFixesAllowed(w);
    assert w + [] == w;
  }

  lemma HelloWorldLower()
    ensures Lower("Hello World") == "hello world"
    ensures Lower("Hello, World!") == "hello, world!"
  {
    LowerWords();
    assert "Hello World" == "Hello" + " " + "World";
    LowerAppend("Hello" + " ", "World");
    LowerAppend("Hello", " ");
    assert "Hello, World!" == "Hello" + ", " + "World" + "!";
    LowerAppend("Hello" + ", " + "World", "!");
    LowerAppend("Hello" + ", ", "World");
    LowerAppend("Hello", ", ");
  }

  lemma LowerWords()
    ensures Lower("Hello") == "hello" && Lower("World") == "world"
    ensures Lower(" ") == " " && Lower(", ") == ", " && Lower("!") == "!"
  {
  }

  /** The segmented default run on one "Hello, World!" segment gives
      "hello world"; the continuous run with punctuation kept gives
      "hello, world!". */
  lemma HelloWorldExample()
    ensures var t := TranscriptionResult("Hello, World!", [Segment("Hello, World!")]);
      && GetSegments(t, false, false) == "hello world"
      && GetSegments(t, true, true) == "hello, world!"
  {
    HelloWorldClean();
    var segs := [Segment("Hello, World!")];
    assert segs[..0] == [];
    assert Pieces(segs, false) == ["hello world"];
  }

  lemma YesClean()
    ensures Clean(Strip("Yes."), false) == "yes"
  {
    StripKeepsTrimmed("Yes.");
    assert RemovePunctuation("Yes.") == "Yes" by {
      assert "Yes." == "Yes" + ".";
      AllowedThenPunctuation("Yes", ".");
    }
    assert Lower("Yes") == "yes";
  }

  /** Blank segments vanish without leaving an empty line. */
  lemma BlankSegmentsExample()
    ensures GetSegments(TranscriptionResult("", [Segment(""), Segment("  "), Segment("Yes.")]), false, false) == "yes"
  {
    var segs := [Segment(""), Segment("  "), Segment("Yes.")];
    assert Blank(segs[0].text) && Blank(segs[1].text);
    LastAfterBlanks(segs, false);
    YesSegment();
  }

  lemma YesSegment()
    ensures SegmentLines(Segment("Yes."), false) == ["yes"]
  {
    YesClean();
  }

  /** When every segment but the last is blank, only the last one speaks. */
  lemma LastAfterBlanks(segs: seq<Segment>, withPunct: bool)
    requires segs != []
    requires forall i :: 0 <= i < |segs| - 1 ==> Blank(segs[i].text)
    ensures Pieces(segs, withPunct) == SegmentLines(segs[|segs| - 1], withPunct)
  {
    var n := |segs| - 1;
    assert segs[..n] + [segs[n]] == segs;
    BlanksThenSegment(segs[..n], segs[n], withPunct);
  }

  /** Blank segments before a segment leave just that segment's line. */
  lemma BlanksThenSegment(blanks: seq<Segment>, seg: Segment, withPunct: bool)
    requires forall i :: 0 <= i < |blanks| ==> Blank(blanks[i].text)
    ensures Pieces(blanks + [seg], withPunct) == SegmentLines(seg, withPunct)
  {
    PiecesSnoc(blanks, seg, withPunct);
    PiecesAllBlank(blanks, withPunct);
  }
}
