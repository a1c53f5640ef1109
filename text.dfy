/** String helpers that script.js takes from the JavaScript runtime:
    `toLowerCase` (restricted to ASCII here), `includes` and `trim`. */
module Text {

  predicate IsUpper(c: char) {
    'A' <= c <= 'Z'
  }

  /** `toLowerCase` on one character, for the ASCII letters only. */
  function LowerChar(c: char): (r: char)
    ensures !IsUpper(r)
    ensures !IsUpper(c) ==> r == c
    ensures IsUpper(c) ==> 'a' <= r <= 'z' && r as int - c as int == 'a' as int - 'A' as int
  {
    if IsUpper(c) then (c as int - 'A' as int + 'a' as int) as char else c
  }

  /** `String.prototype.toLowerCase`, character by character. */
  function Lower(s: string): (r: string)
    ensures |r| == |s|
    ensures forall i :: 0 <= i < |s| ==> r[i] == LowerChar(s[i])
    ensures forall i :: 0 <= i < |r| ==> !IsUpper(r[i])
  {
    seq(|s|, i requires 0 <= i < |s| => LowerChar(s[i]))
  }

  lemma LowerIdempotent(s: string)
    ensures Lower(Lower(s)) == Lower(s)
  {
    assert forall i :: 0 <= i < |s| ==> Lower(Lower(s))[i] == LowerChar(Lower(s)[i]);
  }

  predicate IsPrefix(p: string, s: string) {
    |p| <= |s| && s[..|p|] == p
  }

  /** `s.includes(t)`: t occurs in s as a contiguous block (the empty string occurs everywhere). */
  predicate Contains(s: string, t: string)
    ensures Contains(s, t) ==> |t| <= |s|
    ensures IsPrefix(t, s) ==> Contains(s, t)
    decreases |s|
  {
    if |t| > |s| then false
    else if IsPrefix(t, s) then true
    else Contains(s[1..], t)
  }

  /** The window of s starting at offset i equals t. */
  predicate OccursAt(s: string, t: string, i: int) {
    0 <= i <= |s| - |t| && s[i..i + |t|] == t
  }

  /** An occurrence at any offset is found by `Contains`. */
  lemma {:induction false} OccursAtContains(s: string, t: string, i: int)
    requires OccursAt(s, t, i)
    ensures Contains(s, t)
    decreases i
  {
    if i > 0 && !IsPrefix(t, s) {
      assert s[1..][i - 1..i - 1 + |t|] == s[i..i + |t|];
      OccursAtContains(s[1..], t, i - 1);
    }
  }

  /** `Contains` agrees with the direct definition: some window of s equals t. */
  lemma {:induction false} ContainsIffOccurs(s: string, t: string)
    ensures Contains(s, t) <==> exists i :: OccursAt(s, t, i)
    decreases |s|
  {
    if Contains(s, t) {
      if IsPrefix(t, s) {
        assert OccursAt(s, t, 0);
      } else {
        ContainsIffOccurs(s[1..], t);
        var i :| OccursAt(s[1..], t, i);
        assert s[i + 1..i + 1 + |t|] == s[1..][i..i + |t|];
        assert OccursAt(s, t, i + 1);
      }
    }
    forall i | OccursAt(s, t, i)
      ensures Contains(s, t)
    {
      OccursAtContains(s, t, i);
    }
  }

  lemma ContainsEmpty(s: string)
    ensures Contains(s, "")
  {
    ContainsIffOccurs(s, "");
    assert OccursAt(s, "", 0);
  }

  /** ECMAScript WhiteSpace and LineTerminator code points, the characters `trim` removes. */
  predicate IsWhitespace(c: char) {
    || c == '\t' || c == '\n' || c == '\U{B}' || c == '\U{C}' || c == '\r' || c == ' '
    || c == '\U{A0}' || c == '\U{1680}' || ('\U{2000}' <= c <= '\U{200A}')
    || c == '\U{2028}' || c == '\U{2029}' || c == '\U{202F}' || c == '\U{205F}'
    || c == '\U{3000}' || c == '\U{FEFF}'
  }

  lemma LowerCharKeepsWhitespace(c: char)
    ensures IsWhitespace(LowerChar(c)) == IsWhitespace(c)
  {
  }

  /** Lower-casing neither creates nor removes whitespace at the ends. */
  lemma LowerKeepsTrimmed(s: string)
    ensures IsTrimmed(Lower(s)) == IsTrimmed(s)
  {
    if s != [] {
      LowerCharKeepsWhitespace(s[0]);
      LowerCharKeepsWhitespace(s[|s| - 1]);
    }
  }

  /** Neither the first nor the last character is whitespace. */
  predicate IsTrimmed(s: string) {
    s == [] || (!IsWhitespace(s[0]) && !IsWhitespace(s[|s| - 1]))
  }

  predicate AllWhitespace(s: string) {
    forall i :: 0 <= i < |s| ==> IsWhitespace(s[i])
  }

  /** Removes the leading whitespace: the result is a suffix of s, what was cut is all
      whitespace, and the result does not start with whitespace. */
  function TrimStart(s: string): (r: string)
    ensures |r| <= |s| && r == s[|s| - |r|..]
    ensures AllWhitespace(s[..|s| - |r|])
    ensures r == [] || !IsWhitespace(r[0])
  {
    if s != [] && IsWhitespace(s[0]) then TrimStart(s[1..]) else s
  }

  /** Removes the trailing whitespace: the result is a prefix of s, what was cut is all
      whitespace, and the result does not end with whitespace. */
  function TrimEnd(s: string): (r: string)
    ensures |r| <= |s| && r == s[..|r|]
    ensures AllWhitespace(s[|r|..])
    ensures r == [] || !IsWhitespace(r[|r| - 1])
  {
    if s != [] && IsWhitespace(s[|s| - 1]) then TrimEnd(s[..|s| - 1]) else s
  }

  /** s splits as whitespace, then r, then whitespace, with r starting at offset i. */
  predicate SplitsAround(s: string, r: string, i: int) {
    && 0 <= i && i + |r| <= |s|
    && s[i..i + |r|] == r
    && AllWhitespace(s[..i])
    && AllWhitespace(s[i + |r|..])
  }

  /** `String.prototype.trim`. */
  function Trim(s: string): (r: string)
    ensures IsTrimmed(r)
    ensures exists i :: SplitsAround(s, r, i)
  {
    var t := TrimStart(s);
    var r := TrimEnd(t);
    TrimmedSplits(s, t, r);
    r
  }

  /** Cutting whitespace off the front of s and then off the back of what remains leaves
      r between two runs of whitespace. */
  lemma TrimmedSplits(s: string, t: string, r: string)
    requires |t| <= |s| && t == s[|s| - |t|..] && AllWhitespace(s[..|s| - |t|])
    requires |r| <= |t| && r == t[..|r|] && AllWhitespace(t[|r|..])
    ensures SplitsAround(s, r, |s| - |t|)
  {
    assert s[|s| - |t|..][..|r|] == s[|s| - |t|..|s| - |t| + |r|];
    assert s[|s| - |t| + |r|..] == t[|r|..];
  }

  lemma {:induction false} TrimOfTrimmed(s: string)
    requires IsTrimmed(s)
    ensures Trim(s) == s
  {
    assert TrimStart(s) == s;
    assert TrimEnd(s) == s;
  }

  /** The query normalisation of the search handler: `value.trim().toLowerCase()`. */
  predicate IsNormalized(q: string) {
    Lower(q) == q && IsTrimmed(q)
  }

  /** Lower-casing keeps a split around whitespace: whitespace stays whitespace, and the
      middle part is lower-cased in place. */
  lemma LowerSplitsAround(s: string, r: string, i: int)
    requires SplitsAround(s, r, i)
    ensures SplitsAround(Lower(s), Lower(r), i)
  {
    var ls, lr := Lower(s), Lower(r);
    forall k | 0 <= k < |s|
      ensures IsWhitespace(ls[k]) == IsWhitespace(s[k])
    {
      LowerCharKeepsWhitespace(s[k]);
    }
    assert ls[..i] == Lower(s[..i]);
    assert forall k :: 0 <= k < |r| ==> ls[i..i + |r|][k] == lr[k];
  }

  /** The stored query is trimmed and lower-case, and it is exactly the lower-cased input
      with the whitespace around it removed. */
  function NormalizeQuery(value: string): (q: string)
    ensures IsNormalized(q)
    ensures exists i :: SplitsAround(Lower(value), q, i)
  {
    var t := Trim(value);
    var q := Lower(t);
    LowerIdempotent(t);
    LowerKeepsTrimmed(t);
    var i :| SplitsAround(value, t, i);
    LowerSplitsAround(value, t, i);
    q
  }

  /** In a split around whitespace with a non-empty trimmed middle, everything before the
      middle is whitespace and its first character is not. */
  lemma LeadingWhitespace(s: string, r: string, i: int)
    requires SplitsAround(s, r, i) && IsTrimmed(r) && r != []
    ensures forall k :: 0 <= k < i ==> IsWhitespace(s[k])
    ensures !IsWhitespace(s[i])
  {
    assert s[i] == s[i..i + |r|][0];
    forall k | 0 <= k < i
      ensures IsWhitespace(s[k])
    {
      assert s[k] == s[..i][k];
    }
  }

  /** Likewise, everything after the middle is whitespace and its last character is not. */
  lemma TrailingWhitespace(s: string, r: string, i: int)
    requires SplitsAround(s, r, i) && IsTrimmed(r) && r != []
    ensures forall k :: i + |r| <= k < |s| ==> IsWhitespace(s[k])
    ensures !IsWhitespace(s[i + |r| - 1])
  {
    assert s[i + |r| - 1] == s[i..i + |r|][|r| - 1];
    forall k | i + |r| <= k < |s|
      ensures IsWhitespace(s[k])
    {
      assert s[k] == s[i + |r|..][k - i - |r|];
    }
  }

  /** The middle of a split is empty exactly when the whole text is whitespace. */
  lemma EmptyMiddleIffAllWhitespace(s: string, r: string, i: int)
    requires SplitsAround(s, r, i) && IsTrimmed(r)
    ensures r == [] <==> AllWhitespace(s)
  {
    if r == [] {
      forall k | 0 <= k < |s|
        ensures IsWhitespace(s[k])
      {
        if k < i {
          assert s[k] == s[..i][k];
        } else {
          assert s[k] == s[i..][k - i];
        }
      }
    } else {
      LeadingWhitespace(s, r, i);
    }
  }

  /** At most one trimmed string sits between two runs of whitespace of a text, so the
      contract of `Trim` fixes its result. */
  lemma TrimmedSplitUnique(s: string, r1: string, i1: int, r2: string, i2: int)
    requires IsTrimmed(r1) && SplitsAround(s, r1, i1)
    requires IsTrimmed(r2) && SplitsAround(s, r2, i2)
    ensures r1 == r2
  {
    EmptyMiddleIffAllWhitespace(s, r1, i1);
    EmptyMiddleIffAllWhitespace(s, r2, i2);
    if r1 != [] {
      LeadingWhitespace(s, r1, i1);
      LeadingWhitespace(s, r2, i2);
      TrailingWhitespace(s, r1, i1);
      TrailingWhitespace(s, r2, i2);
      assert i1 == i2;
      assert i1 + |r1| == i2 + |r2|;
    }
  }

  /** Queries that differ only in letter case are stored alike: the search is
      case-insensitive in the query as well as in titles and tags. */
  lemma NormalizeQueryIgnoresCase(v: string, w: string)
    requires Lower(v) == Lower(w)
    ensures NormalizeQuery(v) == NormalizeQuery(w)
  {
    var qv, qw := NormalizeQuery(v), NormalizeQuery(w);
    var iv :| SplitsAround(Lower(v), qv, iv);
    var iw :| SplitsAround(Lower(w), qw, iw);
    TrimmedSplitUnique(Lower(v), qv, iv, qw, iw);
  }

  /** Normalising an already normalised query changes nothing. */
  lemma NormalizeIdempotent(value: string)
    ensures NormalizeQuery(NormalizeQuery(value)) == NormalizeQuery(value)
  {
    var q := NormalizeQuery(value);
    TrimOfTrimmed(q);
  }
}
