/**
 The character classes and the three string operations the normaliser is
 built from: `str.strip()`, the regular-expression deletion of every
 character outside `[\w\s\-']`, and `str.lower()`.

 Characters are modelled over ASCII. Python's `str.isspace` (used by
 `strip`) and the `\s` class of a `str` pattern agree on the same set, so one
 predicate `IsSpace` serves both. Characters outside ASCII belong to no class
 and are left unchanged by lowering.
 */
module Text {

  /** Whitespace as `str.isspace` and `\s` see it, restricted to ASCII:
      tab, line feed, vertical tab, form feed, carriage return (9..13),
      the information separators (28..31) and the space. */
  predicate IsSpace(c: char) {
    (9 <= c as int <= 13) || (28 <= c as int <= 31) || c == ' '
  }

  /** `\w` restricted to ASCII: letters, digits and the underscore. */
  predicate IsWordChar(c: char) {
    ('a' <= c <= 'z') || ('A' <= c <= 'Z') || ('0' <= c <= '9') || c == '_'
  }

  /** The characters that survive punctuation removal: `[\w\s\-']`. */
  predicate IsAllowed(c: char) {
    IsWordChar(c) || IsSpace(c) || c == '-' || c == '\''
  }

  predicate IsUpper(c: char) {
    'A' <= c <= 'Z'
  }

  predicate AllAllowed(s: string) {
    forall k :: 0 <= k < |s| ==> IsAllowed(s[k])
  }

  /** No character of `s` survives punctuation removal. */
  predicate NoneAllowed(s: string) {
    forall k :: 0 <= k < |s| ==> !IsAllowed(s[k])
  }

  /** True iff every character of `s` is whitespace (so `s.strip()` is empty). */
  predicate Blank(s: string) {
    forall k :: 0 <= k < |s| ==> IsSpace(s[k])
  }

  predicate NoUpper(s: string) {
    forall k :: 0 <= k < |s| ==> !IsUpper(s[k])
  }

  /** Lower-casing one character: upper-case letters move to their
      lower-case partner, everything else stays. */
  function LowerChar(c: char): (r: char)
    ensures !IsUpper(r)
    ensures !IsUpper(c) ==> r == c
    ensures IsUpper(c) ==> 'a' <= r <= 'z' && r as int - 'a' as int == c as int - 'A' as int
    ensures IsSpace(r) == IsSpace(c) && IsWordChar(r) == IsWordChar(c)
    ensures IsAllowed(r) == IsAllowed(c)
  {
    if IsUpper(c) then (c as int + 32) as char else c
  }

  /** `str.lower()` under the ASCII model. */
  function Lower(s: string): (r: string)
    ensures |r| == |s|
    ensures NoUpper(r)
    ensures forall k :: 0 <= k < |s| ==> r[k] == LowerChar(s[k])
    ensures forall k :: 0 <= k < |s| && !IsUpper(s[k]) ==> r[k] == s[k]
    ensures forall k :: 0 <= k < |s| ==> IsSpace(r[k]) == IsSpace(s[k])
    ensures forall k :: 0 <= k < |s| ==> IsAllowed(r[k]) == IsAllowed(s[k])
  {
    seq(|s|, k requires 0 <= k < |s| => LowerChar(s[k]))
  }

  /** Drops leading whitespace. */
  function TrimLeft(s: string): (r: string)
    ensures |r| <= |s|
    ensures r == [] || !IsSpace(r[0])
  {
    if s != [] && IsSpace(s[0]) then TrimLeft(s[1..]) else s
  }

  /** `TrimLeft` keeps a suffix and drops only whitespace in front of it. */
  lemma {:induction false} TrimLeftIsSuffix(s: string)
    ensures TrimLeft(s) == s[|s| - |TrimLeft(s)|..]
    ensures Blank(s[..|s| - |TrimLeft(s)|])
  {
    if s != [] && IsSpace(s[0]) {
      TrimLeftIsSuffix(s[1..]);
      assert s[1..][|s| - 1 - |TrimLeft(s)|..] == s[|s| - |TrimLeft(s)|..];
      var head := s[..|s| - |TrimLeft(s)|];
      assert head == [s[0]] + s[1..][..|s| - 1 - |TrimLeft(s)|];
    }
  }

  /** Drops trailing whitespace. */
  function TrimRight(s: string): (r: string)
    ensures |r| <= |s|
    ensures r == [] || !IsSpace(r[|r| - 1])
    ensures r == [] <==> Blank(s)
  {
    if s != [] && IsSpace(s[|s| - 1]) then TrimRight(s[..|s| - 1]) else s
  }

  /** `TrimRight` keeps a prefix and drops only whitespace after it. */
  lemma {:induction false} TrimRightIsPrefix(s: string)
    ensures TrimRight(s) == s[..|TrimRight(s)|]
    ensures Blank(s[|TrimRight(s)|..])
  {
    if s != [] && IsSpace(s[|s| - 1]) {
      TrimRightIsPrefix(s[..|s| - 1]);
      var n := |TrimRight(s)|;
      assert s[..|s| - 1][..n] == s[..n];
      assert s[n..] == s[..|s| - 1][n..] + [s[|s| - 1]];
    }
  }

  /** `str.strip()` with no argument: whitespace removed at both ends. */
  function Strip(s: string): (r: string)
    ensures |r| <= |s|
    ensures r == [] || (!IsSpace(r[0]) && !IsSpace(r[|r| - 1]))
    ensures r == [] <==> Blank(s)
  {
    var t := TrimLeft(s);
    assert t == [] ==> Blank(s) by {
      if t == [] {
        TrimLeftIsSuffix(s);
        assert s[..|s|] == s;
      }
    }
    assert t != [] ==> !Blank(s) by {
      if t != [] {
        TrimLeftIsSuffix(s);
        assert s[|s| - |t|] == t[0];
      }
    }
    TrimRightIsPrefix(t);
    TrimRight(t)
  }

  /** What `strip` keeps is one contiguous block of its input, and everything
      it cuts off on either side is whitespace. */
  lemma StripIsInfix(s: string)
    ensures |s| - |TrimLeft(s)| + |Strip(s)| <= |s|
    ensures Strip(s) == s[|s| - |TrimLeft(s)|..|s| - |TrimLeft(s)| + |Strip(s)|]
    ensures Blank(s[..|s| - |TrimLeft(s)|])
    ensures Blank(s[|s| - |TrimLeft(s)| + |Strip(s)|..])
  {
    var t := TrimLeft(s);
    var lo := |s| - |t|;
    TrimLeftIsSuffix(s);
    TrimRightIsPrefix(t);
    StripIsBlock(s, t, TrimRight(t), lo);
  }

  /** A prefix `r` of the suffix `t` of `s` starting at `lo` is the block
      `s[lo..lo + |r|]`, and what follows it in `s` is what follows it in `t`. */
  lemma StripIsBlock(s: string, t: string, r: string, lo: nat)
    requires lo + |t| == |s| && t == s[lo..]
    requires |r| <= |t| && r == t[..|r|]
    ensures r == s[lo..lo + |r|]
    ensures s[lo + |r|..] == t[|r|..]
  {
  }

  /** Deletes every character outside `[\w\s\-']`, keeping the rest in order. */
  function RemovePunctuation(s: string): (r: string)
    ensures |r| <= |s|
    ensures AllAllowed(r)
  {
    if s == [] then []
    else if IsAllowed(s[0]) then [s[0]] + RemovePunctuation(s[1..])
    else RemovePunctuation(s[1..])
  }

  /** `a` can be obtained from `b` by deleting characters. */
  predicate IsSubseq(a: string, b: string)
    decreases |b|
  {
    if a == [] then true
    else if b == [] then false
    else if a[0] == b[0] then IsSubseq(a[1..], b[1..])
    else IsSubseq(a, b[1..])
  }

  /** Punctuation removal only deletes: its result is a subsequence of its input. */
  lemma {:induction false} RemovePunctuationIsSubseq(s: string)
    ensures IsSubseq(RemovePunctuation(s), s)
  {
    if s != [] {
      RemovePunctuationIsSubseq(s[1..]);
      var r := RemovePunctuation(s);
      if !IsAllowed(s[0]) && r != [] {
        assert r[0] != s[0];
      }
    }
  }

  /** No allowed character is lost: every allowed character occurs as often in
      the result as in the input, and no other character occurs in it at all. */
  lemma {:induction false} RemovePunctuationKeepsAllowed(s: string)
    ensures forall c :: IsAllowed(c) ==> multiset(RemovePunctuation(s))[c] == multiset(s)[c]
    ensures forall c :: !IsAllowed(c) ==> multiset(RemovePunctuation(s))[c] == 0
  {
    if s != [] {
      RemovePunctuationKeepsAllowed(s[1..]);
      assert s == [s[0]] + s[1..];
      assert multiset(s) == multiset([s[0]]) + multiset(s[1..]);
    }
  }

  /** Punctuation removal works character by character, so it distributes
      over concatenation. */
  lemma {:induction false} RemovePunctuationAppend(a: string, b: string)
    ensures RemovePunctuation(a + b) == RemovePunctuation(a) + RemovePunctuation(b)
  {
    if a != [] {
      RemovePunctuationAppend(a[1..], b);
      assert (a + b)[1..] == a[1..] + b;
    } else {
      assert a + b == b;
    }
  }

  /** A string made only of allowed characters is left as it is. */
  lemma {:induction false} RemovePunctuationFixesAllowed(s: string)
    requires AllAllowed(s)
    ensures RemovePunctuation(s) == s
  {
    if s != [] {
      RemovePunctuationFixesAllowed(s[1..]);
      assert s == [s[0]] + s[1..];
    }
  }

  /** Deleting the disallowed characters twice is the same as doing it once. */
  lemma RemovePunctuationIdempotent(s: string)
    ensures RemovePunctuation(RemovePunctuation(s)) == RemovePunctuation(s)
  {
    RemovePunctuationFixesAllowed(RemovePunctuation(s));
  }

  /** Lower-casing twice is the same as lower-casing once. */
  lemma LowerIdempotent(s: string)
    ensures Lower(Lower(s)) == Lower(s)
  {
  }

  /** Lower-casing works character by character, so it distributes over
      concatenation. */
  lemma LowerAppend(a: string, b: string)
    ensures Lower(a + b) == Lower(a) + Lower(b)
  {
  }

  /** Lower-casing and punctuation removal commute, because lowering never
      moves a character in or out of `[\w\s\-']`. */
  lemma {:induction false} LowerRemovePunctuationCommute(s: string)
    ensures Lower(RemovePunctuation(s)) == RemovePunctuation(Lower(s))
  {
    if s != [] {
      LowerRemovePunctuationCommute(s[1..]);
      assert Lower(s) == [LowerChar(s[0])] + Lower(s[1..]);
      if IsAllowed(s[0]) {
        LowerAppend([s[0]], RemovePunctuation(s[1..]));
      }
    }
  }

  lemma {:induction false} TrimLeftLowerCommute(s: string)
    ensures TrimLeft(Lower(s)) == Lower(TrimLeft(s))
  {
    if s != [] && IsSpace(s[0]) {
      TrimLeftLowerCommute(s[1..]);
      assert Lower(s)[1..] == Lower(s[1..]);
    }
  }

  lemma {:induction false} TrimRightLowerCommute(s: string)
    ensures TrimRight(Lower(s)) == Lower(TrimRight(s))
  {
    if s != [] && IsSpace(s[|s| - 1]) {
      TrimRightLowerCommute(s[..|s| - 1]);
      assert Lower(s)[..|s| - 1] == Lower(s[..|s| - 1]);
    }
  }

  /** Stripping and lower-casing commute, because lowering preserves whitespace. */
  lemma StripLowerCommute(s: string)
    ensures Strip(Lower(s)) == Lower(Strip(s))
  {
    TrimLeftLowerCommute(s);
    TrimRightLowerCommute(TrimLeft(s));
  }

  /** A string with no whitespace at either end is its own strip. */
  lemma StripKeepsTrimmed(s: string)
    requires s != [] && !IsSpace(s[0]) && !IsSpace(s[|s| - 1])
    ensures Strip(s) == s
  {
    assert TrimLeft(s) == s;
    assert TrimRight(s) == s;
  }

  /** Stripping an already stripped string changes nothing. */
  lemma StripIdempotent(s: string)
    ensures Strip(Strip(s)) == Strip(s)
  {
    var r := Strip(s);
    assert TrimLeft(r) == r;
    assert TrimRight(r) == r;
  }
}
