/**
 * Character classes and string helpers with Python's meaning: `str.isspace`
 * (which is also what the `\s` of the `re` module matches on `str` patterns),
 * `str.isalnum`, `str.strip`, `in` on strings and `str.lower` on ASCII.
 */
module Text {
  import opened Common

  /** Python's `str.isspace()` for one character; `re`'s `\s` matches exactly these. */
  predicate IsSpace(c: char)
  {
    || c == ' ' || c == '\t' || c == '\n' || c == '\r'
    || c == '\U{0B}' || c == '\U{0C}'                      // vertical tab, form feed
    || ('\U{1C}' <= c <= '\U{1F}')                          // file/group/record/unit separators
    || c == '\U{85}' || c == '\U{A0}' || c == '\U{1680}'
    || ('\U{2000}' <= c <= '\U{200A}')
    || c == '\U{2028}' || c == '\U{2029}' || c == '\U{202F}' || c == '\U{205F}' || c == '\U{3000}'
  }

  /**
   * Python's `str.isalnum()` for one character, restricted to the ASCII and
   * Latin-1 ranges: ASCII letters and digits, the Latin-1 letters (accented
   * Portuguese letters among them), and the Latin-1 superscript digits,
   * fractions and ordinal indicators that Python also counts.
   */
  predicate IsAlnum(c: char)
  {
    || ('a' <= c <= 'z') || ('A' <= c <= 'Z') || ('0' <= c <= '9')
    || c == '\U{AA}' || c == '\U{B2}' || c == '\U{B3}' || c == '\U{B5}' || c == '\U{B9}' || c == '\U{BA}'
    || ('\U{BC}' <= c <= '\U{BE}')
    || ('\U{C0}' <= c <= '\U{D6}') || ('\U{D8}' <= c <= '\U{F6}') || ('\U{F8}' <= c <= '\U{FF}')
  }

  /** ASCII lower-casing of one character. */
  function LowerChar(c: char): (r: char)
    ensures 'A' <= c <= 'Z' ==> 'a' <= r <= 'z'
    ensures !('A' <= c <= 'Z') ==> r == c
  {
    if 'A' <= c <= 'Z' then (c as int + 32) as char else c
  }

  function Lower(s: string): (r: string)
    ensures |r| == |s|
    ensures forall i :: 0 <= i < |s| ==> r[i] == LowerChar(s[i])
  {
    seq(|s|, i requires 0 <= i < |s| => LowerChar(s[i]))
  }

  /** `p` occurs in `s` starting at index `i`. */
  predicate OccursAt(s: string, p: string, i: nat)
  {
    i + |p| <= |s| && s[i..i + |p|] == p
  }

  /** Python's `p in s`: a left-to-right search for `p`. */
  function Contains(s: string, p: string): (found: bool)
    ensures found <==> exists i: nat :: OccursAt(s, p, i)
    decreases |s|
  {
    if |p| > |s| then false
    else if s[..|p|] == p then
      assert OccursAt(s, p, 0);
      true
    else
      var rest := Contains(s[1..], p);
      if rest then
        var i: nat :| OccursAt(s[1..], p, i);
        assert s[1..][i..i + |p|] == s[i + 1..i + 1 + |p|];
        assert OccursAt(s, p, i + 1);
        true
      else
        assert !OccursAt(s, p, 0) by {
          assert s[0..|p|] == s[..|p|];
        }
        forall i: nat | OccursAt(s, p, i) && i > 0 ensures OccursAt(s[1..], p, i - 1) {
          assert s[1..][i - 1..i - 1 + |p|] == s[i..i + |p|];
        }
        false
  }

  /** The number of whitespace characters at the start of `s`. */
  function LeadingSpaceCount(s: string): (n: nat)
    ensures n <= |s| && (n == |s| || !IsSpace(s[n]))
    ensures forall k :: 0 <= k < n ==> IsSpace(s[k])
  {
    if s != [] && IsSpace(s[0]) then 1 + LeadingSpaceCount(s[1..]) else 0
  }

  /** The number of whitespace characters at the end of `s`. */
  function TrailingSpaceCount(s: string): (n: nat)
    ensures n <= |s| && (n == |s| || !IsSpace(s[|s| - n - 1]))
    ensures forall k :: |s| - n <= k < |s| ==> IsSpace(s[k])
  {
    if s != [] && IsSpace(s[|s| - 1]) then 1 + TrailingSpaceCount(s[..|s| - 1]) else 0
  }

  /** `s` without its leading whitespace (Python's `str.lstrip()`). */
  function StripLeft(s: string): (r: string)
    ensures r == [] || !IsSpace(r[0])
    ensures |r| <= |s| && r == s[|s| - |r|..]
    ensures forall k :: 0 <= k < |s| - |r| ==> IsSpace(s[k])
  {
    s[LeadingSpaceCount(s)..]
  }

  /** `s` without its trailing whitespace (Python's `str.rstrip()`). */
  function StripRight(s: string): (r: string)
    ensures r == [] || !IsSpace(r[|r| - 1])
    ensures |r| <= |s| && r == s[..|r|]
    ensures forall k :: |r| <= k < |s| ==> IsSpace(s[k])
  {
    s[..|s| - TrailingSpaceCount(s)]
  }

  /** Python's `str.strip()`: both ends, whitespace only. */
  function Strip(s: string): (r: string)
    ensures r == [] || (!IsSpace(r[0]) && !IsSpace(r[|r| - 1]))
    ensures exists i: nat :: IsStripOf(s, r, i)
    ensures IsSubseq(r, s)
  {
    StripFacts(s);
    StripSubseq(s);
    StripRight(StripLeft(s))
  }

  lemma StripFacts(s: string)
    ensures var r := StripRight(StripLeft(s));
      && (r == [] || (!IsSpace(r[0]) && !IsSpace(r[|r| - 1])))
      && IsStripOf(s, r, |s| - |StripLeft(s)|)
  {
    StripIsSlice(s);
    LeadingSpaces(s);
  }

  lemma StripSubseq(s: string)
    ensures IsSubseq(StripRight(StripLeft(s)), s)
  {
    var i := |s| - |StripLeft(s)|;
    var r := StripRight(StripLeft(s));
    StripIsSlice(s);
    SliceIsSubseq(s, i, i + |r|);
  }

  /** `r` is the slice of `s` at `i`, with only whitespace before and after it. */
  predicate IsStripOf(s: string, r: string, i: nat)
  {
    && i + |r| <= |s| && r == s[i..i + |r|]
    && (forall k :: 0 <= k < i ==> IsSpace(s[k]))
    && (forall k :: i + |r| <= k < |s| ==> IsSpace(s[k]))
  }

  /** What `Strip` keeps is one slice of `s`, followed only by whitespace. */
  lemma StripIsSlice(s: string)
    ensures var left := StripLeft(s);
      var r := StripRight(left);
      var i := |s| - |left|;
      && i + |r| <= |s| && r == s[i..i + |r|]
      && (r == [] || !IsSpace(r[0]))
      && (forall k :: i + |r| <= k < |s| ==> IsSpace(s[k]))
  {
    var left := StripLeft(s);
    var r := StripRight(left);
    var i := |s| - |left|;
    assert left == s[i..] && r == left[..|r|];
    assert forall k :: |r| <= k < |left| ==> IsSpace(left[k]);
    PrefixOfSuffix(s, i, r);
  }

  /** A prefix `r` of the suffix of `s` from `i`, with only whitespace after `r`. */
  lemma PrefixOfSuffix(s: string, i: nat, r: string)
    requires i <= |s| && |r| <= |s| - i && r == s[i..][..|r|]
    requires forall k :: |r| <= k < |s| - i ==> IsSpace(s[i..][k])
    ensures i + |r| <= |s| && r == s[i..i + |r|]
    ensures r != [] ==> r[0] == s[i]
    ensures forall k :: i + |r| <= k < |s| ==> IsSpace(s[k])
  {
    forall k | i + |r| <= k < |s| ensures IsSpace(s[k]) {
      assert s[k] == s[i..][k - i];
    }
  }

  lemma LeadingSpaces(s: string)
    ensures var i := |s| - |StripLeft(s)|; forall k :: 0 <= k < i ==> IsSpace(s[k])
  {
  }

  /** A string with no whitespace at either end is its own `strip()`. */
  lemma StrippedUnchanged(s: string)
    requires s == [] || (!IsSpace(s[0]) && !IsSpace(s[|s| - 1]))
    ensures Strip(s) == s
  {
    assert StripLeft(s) == s;
  }

  /** Every character of `s` is whitespace. */
  predicate AllSpace(s: string)
  {
    forall k :: 0 <= k < |s| ==> IsSpace(s[k])
  }

  /** No character of `s` is whitespace. */
  predicate NoSpace(s: string)
  {
    forall k :: 0 <= k < |s| ==> !IsSpace(s[k])
  }

  /** `lstrip` removes exactly the whitespace in front of a text that starts with a non-space. */
  lemma {:induction false} StripLeftOverSpaces(w: string, u: string)
    requires AllSpace(w)
    requires u == [] || !IsSpace(u[0])
    ensures StripLeft(w + u) == u
    decreases |w|
  {
    if w == [] {
      assert w + u == u;
    } else {
      assert (w + u)[0] == w[0];
      assert (w + u)[1..] == w[1..] + u;
      StripLeftOverSpaces(w[1..], u);
    }
  }

  /** A slice of `s` is a subsequence of `s`. */
  lemma SliceIsSubseq<T>(s: seq<T>, i: nat, j: nat)
    requires i <= j <= |s|
    ensures IsSubseq(s[i..j], s)
  {
    var t := s[i..];
    assert s[i..j] == t[..j - i];
    SubseqRefl(s[i..j]);
    SubseqOfPrefix(s[i..j], t, j - i);
    SuffixIsSubseq(s, i);
    SubseqTrans(s[i..j], t, s);
  }

  /** A subsequence of a later suffix is a subsequence of an earlier one. */
  lemma SubseqOfLaterSuffix<T>(s: seq<T>, k: nat, next: nat, r: seq<T>)
    requires k <= next <= |s| && IsSubseq(r, s[next..])
    ensures IsSubseq(r, s[k..])
  {
    SuffixIsSubseq(s[k..], next - k);
    assert s[k..][next - k..] == s[next..];
    SubseqTrans(r, s[next..], s[k..]);
  }

  /** Keeping the first element of a suffix keeps the relation. */
  lemma SubseqConsSuffix<T>(s: seq<T>, k: nat, r: seq<T>)
    requires k < |s| && IsSubseq(r, s[k + 1..])
    ensures IsSubseq([s[k]] + r, s[k..])
  {
    SubseqCons(s[k], r, s[k + 1..]);
    assert [s[k]] + s[k + 1..] == s[k..];
  }

  /** A suffix of `s` is a subsequence of `s`. */
  lemma {:induction false} SuffixIsSubseq<T>(s: seq<T>, k: nat)
    requires k <= |s|
    ensures IsSubseq(s[k..], s)
  {
    if k == 0 {
      SubseqRefl(s);
    } else {
      SuffixIsSubseq(s[1..], k - 1);
      assert s[1..][k - 1..] == s[k..];
    }
  }
}
