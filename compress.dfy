/**
 * `compress.py`: the HTML minifier, the stripper of inline styles and data
 * attributes, and the file names `compress_html_file` derives. Each `re.sub`
 * is written out as the left-to-right scan Python's regex engine performs:
 * try a match at the current position; on success drop the matched text and
 * continue after it, otherwise keep one character and move on.
 */
module Compress {
  import opened Common
  import opened Text

  // ---------------------------------------------------------------- searching

  /** The first index `j >= k` holding `c`. */
  function IndexOf(s: string, c: char, k: nat): (r: Option<nat>)
    ensures r.Some? ==> k <= r.value < |s| && s[r.value] == c
    ensures r.Some? ==> forall j :: k <= j < r.value ==> s[j] != c
    ensures r.None? ==> forall j :: k <= j < |s| ==> s[j] != c
    decreases |s| - k
  {
    if k >= |s| then None
    else if s[k] == c then Some(k)
    else IndexOf(s, c, k + 1)
  }

  predicate StartsWith(s: string, p: string)
  {
    |p| <= |s| && s[..|p|] == p
  }

  ghost predicate NoOccurrence(s: string, p: string)
  {
    forall j: nat :: !OccursAt(s, p, j)
  }

  lemma NoOccurrenceInSuffix(s: string, p: string, k: nat)
    requires NoOccurrence(s, p) && k <= |s|
    ensures NoOccurrence(s[k..], p)
  {
    forall j: nat ensures !OccursAt(s[k..], p, j) {
      assert !OccursAt(s, p, k + j);
      if j + |p| <= |s| - k {
        assert s[k..][j..j + |p|] == s[k + j..k + j + |p|];
      }
    }
  }

  // ---------------------------------------------------------------- minify_html

  /** `<!--` starts at `i`. */
  predicate OpensAt(s: string, i: nat)
  {
    i + 4 <= |s| && s[i] == '<' && s[i + 1] == '!' && s[i + 2] == '-' && s[i + 3] == '-'
  }

  /** `-->` starts at `i`. */
  predicate ClosesAt(s: string, i: nat)
  {
    i + 3 <= |s| && s[i] == '-' && s[i + 1] == '-' && s[i + 2] == '>'
  }

  /** The first `j >= k` at which `-->` starts; `CloseFromFinds` states it. */
  function CloseFrom(s: string, k: nat): Option<nat>
    decreases |s| - k
  {
    if k + 3 > |s| then None
    else if ClosesAt(s, k) then Some(k)
    else CloseFrom(s, k + 1)
  }

  lemma {:induction false} CloseFromFinds(s: string, k: nat)
    ensures var r := CloseFrom(s, k);
      && (r.Some? ==> k <= r.value && ClosesAt(s, r.value))
      && (r.Some? ==> forall j: nat :: k <= j < r.value ==> !ClosesAt(s, j))
      && (r.None? ==> forall j: nat :: k <= j ==> !ClosesAt(s, j))
    decreases |s| - k
  {
    if k + 3 <= |s| && !ClosesAt(s, k) {
      CloseFromFinds(s, k + 1);
    }
  }

  /** An HTML comment starts at `i`: an opening marker with a closing one somewhere after it. */
  predicate CommentAt(s: string, i: nat)
  {
    OpensAt(s, i) && CloseFrom(s, i + 4).Some?
  }

  /**
   * `re.sub(r'<!--.*?-->', '', s, flags=re.DOTALL)` from index `k` on: a
   * comment starting at `k` is dropped through the nearest closing marker,
   * otherwise the character at `k` is kept.
   */
  function StripCommentsFrom(s: string, k: nat): (r: string)
    requires k <= |s|
    ensures |r| <= |s| - k
    decreases |s| - k
  {
    if k == |s| then []
    else if CommentAt(s, k) then
      CloseFromFinds(s, k + 4);
      StripCommentsFrom(s, CloseFrom(s, k + 4).value + 3)
    else
      [s[k]] + StripCommentsFrom(s, k + 1)
  }

  lemma KeepStep(s: string, k: nat)
    requires k < |s| && !CommentAt(s, k)
    ensures StripCommentsFrom(s, k) == [s[k]] + StripCommentsFrom(s, k + 1)
  {
  }

  lemma SkipStep(s: string, k: nat)
    requires k < |s| && CommentAt(s, k)
    ensures k + 7 <= CloseFrom(s, k + 4).value + 3 <= |s|
    ensures StripCommentsFrom(s, k) == StripCommentsFrom(s, CloseFrom(s, k + 4).value + 3)
  {
    CloseFromFinds(s, k + 4);
  }

  /** Only characters are dropped, and the rest keep their order. */
  lemma {:induction false} StripCommentsFromSubseq(s: string, k: nat)
    requires k <= |s|
    ensures IsSubseq(StripCommentsFrom(s, k), s[k..])
    decreases |s| - k
  {
    if k < |s| {
      if CommentAt(s, k) {
        SkipStep(s, k);
        var next := CloseFrom(s, k + 4).value + 3;
        var rest := StripCommentsFrom(s, next);
        StripCommentsFromSubseq(s, next);
        SubseqOfLaterSuffix(s, k, next, rest);
      } else {
        var rest := StripCommentsFrom(s, k + 1);
        KeepStep(s, k);
        StripCommentsFromSubseq(s, k + 1);
        SubseqConsSuffix(s, k, rest);
      }
    }
  }

  function StripComments(s: string): (r: string)
    ensures |r| <= |s|
    ensures IsSubseq(r, s)
  {
    assert s[0..] == s;
    StripCommentsFromSubseq(s, 0);
    StripCommentsFrom(s, 0)
  }

  /** Between `k` and `n`, where no comment starts, every character is kept. */
  lemma {:induction false} KeptUpTo(s: string, k: nat, n: nat)
    requires k <= n <= |s|
    requires forall i :: k <= i < n ==> !CommentAt(s, i)
    ensures StripCommentsFrom(s, k) == s[k..n] + StripCommentsFrom(s, n)
    decreases n - k
  {
    if k < n {
      KeepStep(s, k);
      KeptUpTo(s, k + 1, n);
      SliceCons(s, k, n);
      ConsOntoConcat(s[k], s[k + 1..n], StripCommentsFrom(s, n));
    }
  }

  /** `s` holds no `<!--`. */
  ghost predicate NoOpening(s: string)
  {
    forall i: nat :: !OpensAt(s, i)
  }

  /** `s` holds no `-->`. */
  ghost predicate NoClosing(s: string)
  {
    forall i: nat :: !ClosesAt(s, i)
  }

  /** Text with no opening marker, or no closing marker, holds no comment and is unchanged. */
  lemma WithoutCommentUnchanged(s: string)
    ensures NoOpening(s) ==> StripComments(s) == s
    ensures NoClosing(s) ==> StripComments(s) == s
  {
    if NoOpening(s) || NoClosing(s) {
      forall i | 0 <= i < |s| ensures !CommentAt(s, i) {
        CloseFromFinds(s, i + 4);
      }
      KeptUpTo(s, 0, |s|);
      assert s[0..|s|] == s;
    }
  }

  /** An opening marker that no closing marker follows starts no comment: the text is kept as it is. */
  lemma UnclosedCommentKept(a: string, b: string)
    requires NoOpening(a) && NoClosing(b)
    ensures StripComments(a + "<!--" + b) == a + "<!--" + b
  {
    var s := a + "<!--" + b;
    assert s[|a|] == '<';
    forall i | 0 <= i < |s| ensures !CommentAt(s, i) {
      if i < |a| {
        if i + 4 <= |a| {
          assert !OpensAt(a, i);
          assert s[i] == a[i] && s[i + 1] == a[i + 1] && s[i + 2] == a[i + 2] && s[i + 3] == a[i + 3];
        }
      } else {
        forall j: nat | i + 4 <= j ensures !ClosesAt(s, j) {
          if j + 3 <= |s| {
            var k: nat := j - |a| - 4;
            assert !ClosesAt(b, k);
            assert s[j] == b[k] && s[j + 1] == b[k + 1] && s[j + 2] == b[k + 2];
          }
        }
        CloseFromFinds(s, i + 4);
      }
    }
    KeptUpTo(s, 0, |s|);
    assert s[0..|s|] == s;
  }

  /** Searching a suffix finds the same closing marker, shifted. */
  lemma {:induction false} CloseFromShift(s: string, m: nat, j: nat)
    requires m <= |s|
    ensures CloseFrom(s, m + j) == (match CloseFrom(s[m..], j) case Some(x) => Some(x + m) case None => None)
    decreases |s| - m - j
  {
    var t := s[m..];
    if m + j + 3 <= |s| {
      assert ClosesAt(s, m + j) <==> ClosesAt(t, j) by {
        assert s[m + j] == t[j] && s[m + j + 1] == t[j + 1] && s[m + j + 2] == t[j + 2];
      }
      if !ClosesAt(s, m + j) {
        CloseFromShift(s, m, j + 1);
      }
    }
  }

  /** A comment starts at `m + k` in `s` exactly when one starts at `k` in `s[m..]`, and ends at the same place. */
  lemma CommentAtShift(s: string, m: nat, k: nat)
    requires m + k < |s|
    ensures CommentAt(s, m + k) <==> CommentAt(s[m..], k)
    ensures CommentAt(s, m + k) ==>
      CloseFrom(s, m + k + 4).value == CloseFrom(s[m..], k + 4).value + m
  {
    var t := s[m..];
    if m + k + 4 <= |s| {
      assert s[m + k] == t[k] && s[m + k + 1] == t[k + 1] && s[m + k + 2] == t[k + 2] && s[m + k + 3] == t[k + 3];
    }
    CloseFromShift(s, m, k + 4);
  }

  /** Stripping from `m + k` is stripping the suffix from `m` on, from `k`. */
  lemma {:induction false} StripShift(s: string, m: nat, k: nat)
    requires m + k <= |s|
    ensures StripCommentsFrom(s, m + k) == StripCommentsFrom(s[m..], k)
    decreases |s| - m - k
  {
    if m + k < |s| {
      CommentAtShift(s, m, k);
      if CommentAt(s[m..], k) {
        var next := ShiftSkip(s, m, k);
        StripShift(s, m, next);
      } else {
        ShiftKeep(s, m, k);
        StripShift(s, m, k + 1);
      }
    }
  }

  /** A comment at `k` of the suffix is one at `m + k` of `s`: both scans go on after it. */
  lemma ShiftSkip(s: string, m: nat, k: nat) returns (next: nat)
    requires m + k < |s| && CommentAt(s[m..], k) && CommentAt(s, m + k)
    requires CloseFrom(s, m + k + 4).value == CloseFrom(s[m..], k + 4).value + m
    ensures k < next <= |s| - m
    ensures StripCommentsFrom(s, m + k) == StripCommentsFrom(s, m + next)
    ensures StripCommentsFrom(s[m..], k) == StripCommentsFrom(s[m..], next)
  {
    next := CloseFrom(s[m..], k + 4).value + 3;
    assert k < next <= |s| - m && StripCommentsFrom(s[m..], k) == StripCommentsFrom(s[m..], next) by {
      SkipStep(s[m..], k);
    }
    assert StripCommentsFrom(s, m + k) == StripCommentsFrom(s, m + next) by {
      SkipStep(s, m + k);
    }
  }

  /** No comment at `k` of the suffix: both scans keep the same character. */
  lemma ShiftKeep(s: string, m: nat, k: nat)
    requires m + k < |s| && !CommentAt(s[m..], k) && !CommentAt(s, m + k)
    ensures StripCommentsFrom(s, m + k) == [s[m + k]] + StripCommentsFrom(s, m + k + 1)
    ensures StripCommentsFrom(s[m..], k) == [s[m + k]] + StripCommentsFrom(s[m..], k + 1)
  {
    KeepStep(s[m..], k);
    KeepStep(s, m + k);
    assert s[m..][k] == s[m + k];
  }

  /** A comment starts at `m` and its first closing marker is at `at`. */
  lemma FirstCloseAt(s: string, m: nat, at: nat)
    requires OpensAt(s, m) && m + 4 <= at && ClosesAt(s, at)
    requires forall j: nat :: m + 4 <= j < at ==> !ClosesAt(s, j)
    ensures CommentAt(s, m) && CloseFrom(s, m + 4) == Some(at)
  {
    CloseFromFinds(s, m + 4);
  }

  /** The markers of the comment after `a`, as characters. */
  lemma CommentMarkers(a: string, b: string, c: string)
    requires NoClosing(b)
    ensures var s := a + "<!--" + b + "-->" + c;
      && OpensAt(s, |a|) && ClosesAt(s, |a| + 4 + |b|)
      && forall j: nat :: |a| + 4 <= j < |a| + 4 + |b| ==> !ClosesAt(s, j)
  {
    var s := a + "<!--" + b + "-->" + c;
    var m := |a|;
    var at := m + 4 + |b|;
    assert s[m] == '<' && s[m + 1] == '!' && s[m + 2] == '-' && s[m + 3] == '-';
    assert s[at] == '-' && s[at + 1] == '-' && s[at + 2] == '>';
    forall j: nat | m + 4 <= j < at ensures !ClosesAt(s, j) {
      if j + 3 <= at {
        assert s[j] == b[j - m - 4] && s[j + 1] == b[j - m - 3] && s[j + 2] == b[j - m - 2];
        assert !ClosesAt(b, j - m - 4);
      } else {
        assert s[j + 2] == '-';
      }
    }
  }

  /**
   * A comment is removed from its opening marker through the nearest closing
   * marker after it, and the text before it is kept.
   */
  lemma CommentRemoved(a: string, b: string, c: string)
    requires NoOpening(a) && NoClosing(b)
    ensures StripComments(a + "<!--" + b + "-->" + c) == a + StripComments(c)
  {
    var s := a + "<!--" + b + "-->" + c;
    var next := |a| + 4 + |b| + 3;
    assert StripComments(s) == a + StripCommentsFrom(s, |a|) by {
      ConcatParts(a, "<!--", b, "-->", c, next);
      KeptBeforeOpening(a, "<!--" + b + "-->" + c);
    }
    CommentSkipped(a, b, c);
    CommentTail(a, b, c);
  }

  /** After the comment, stripping goes on as on the text that follows it. */
  lemma CommentTail(a: string, b: string, c: string)
    ensures StripCommentsFrom(a + "<!--" + b + "-->" + c, |a| + 4 + |b| + 3) == StripComments(c)
  {
    CommentSuffix(a, b, c);
    CommentTailAt(a, b, c);
  }

  /** The text after a comment's closing marker is `c`. */
  lemma CommentSuffix(a: string, b: string, c: string)
    ensures |a| + 4 + |b| + 3 <= |a + "<!--" + b + "-->" + c|
    ensures (a + "<!--" + b + "-->" + c)[|a| + 4 + |b| + 3..] == c
  {
    ConcatParts(a, "<!--", b, "-->", c, |a| + 4 + |b| + 3);
  }

  lemma CommentTailAt(a: string, b: string, c: string)
    requires |a| + 4 + |b| + 3 <= |a + "<!--" + b + "-->" + c|
    requires (a + "<!--" + b + "-->" + c)[|a| + 4 + |b| + 3..] == c
    ensures StripCommentsFrom(a + "<!--" + b + "-->" + c, |a| + 4 + |b| + 3) == StripComments(c)
  {
    StripFromSuffix(a + "<!--" + b + "-->" + c, |a| + 4 + |b| + 3, c);
  }

  /** Stripping from `next` is stripping the suffix that starts there. */
  lemma StripFromSuffix(s: string, next: nat, c: string)
    requires next <= |s| && s[next..] == c
    ensures StripCommentsFrom(s, next) == StripComments(c)
  {
    StripShift(s, next, 0);
  }

  /** Five pieces joined: regrouped after the first, and what follows the first four. */
  lemma ConcatParts<T>(a: seq<T>, o: seq<T>, b: seq<T>, e: seq<T>, c: seq<T>, n: nat)
    requires n == |a| + |o| + |b| + |e|
    ensures a + o + b + e + c == a + (o + b + e + c)
    ensures n <= |a + o + b + e + c| && (a + o + b + e + c)[n..] == c
  {
  }

  /** Text without an opening marker is kept up to an opening marker right after it. */
  lemma KeptBeforeOpening(a: string, rest: string)
    requires NoOpening(a) && OpensAt(rest, 0)
    ensures StripCommentsFrom(a + rest, 0) == a + StripCommentsFrom(a + rest, |a|)
  {
    var s := a + rest;
    var m := |a|;
    forall i | 0 <= i < m ensures !CommentAt(s, i) {
      if i + 4 <= m {
        assert s[i] == a[i] && s[i + 1] == a[i + 1] && s[i + 2] == a[i + 2] && s[i + 3] == a[i + 3];
        assert !OpensAt(a, i);
      } else {
        assert s[m] == rest[0] == '<';
      }
    }
    KeptUpTo(s, 0, m);
    assert s[0..m] == a;
  }

  /** The comment right after `a` is skipped through its closing marker. */
  lemma CommentSkipped(a: string, b: string, c: string)
    requires NoClosing(b)
    ensures StripCommentsFrom(a + "<!--" + b + "-->" + c, |a|) ==
            StripCommentsFrom(a + "<!--" + b + "-->" + c, |a| + 4 + |b| + 3)
  {
    CommentMarkers(a, b, c);
    FirstCloseAt(a + "<!--" + b + "-->" + c, |a|, |a| + 4 + |b|);
    SkipToClose(a + "<!--" + b + "-->" + c, |a|, |a| + 4 + |b|);
  }

  lemma SkipToClose(s: string, m: nat, at: nat)
    requires m < |s| && CommentAt(s, m) && CloseFrom(s, m + 4) == Some(at)
    ensures at + 3 <= |s| && StripCommentsFrom(s, m) == StripCommentsFrom(s, at + 3)
  {
    SkipStep(s, m);
  }

  /** Every whitespace character is a plain space. */
  predicate PlainSpacesOnly(s: string)
  {
    forall c :: c in s && IsSpace(c) ==> c == ' '
  }

  /** No two whitespace characters are adjacent. */
  predicate NoAdjacentSpaces(s: string)
  {
    forall i :: 0 <= i < |s| - 1 ==> !(IsSpace(s[i]) && IsSpace(s[i + 1]))
  }

  predicate NoSpaceBeforeGt(s: string)
  {
    forall i :: 0 <= i < |s| - 1 && s[i + 1] == '>' ==> !IsSpace(s[i])
  }

  predicate NoSpaceAfterLt(s: string)
  {
    forall i :: 0 <= i < |s| - 1 && s[i] == '<' ==> !IsSpace(s[i + 1])
  }

  /** `re.sub(r'\s+', ' ', s)`: each whitespace run becomes one space. */
  function CollapseSpaces(s: string): (r: string)
    ensures |r| <= |s|
    ensures r == [] <==> s == []
    ensures r != [] ==> (IsSpace(r[0]) <==> IsSpace(s[0]))
    ensures PlainSpacesOnly(r)
    ensures NoAdjacentSpaces(r)
    ensures forall c :: c in r && c != ' ' ==> c in s
    ensures (forall c :: c in s ==> !IsSpace(c)) ==> r == s
    decreases |s|
  {
    if s == [] then []
    else if IsSpace(s[0]) then
      var rest := StripLeft(s);
      [' '] + CollapseSpaces(rest)
    else
      [s[0]] + CollapseSpaces(s[1..])
  }

  /** `re.sub(r'\s+>', '>', s)`: a whitespace run is dropped when a `>` follows it. */
  function DropSpaceBeforeGt(s: string): (r: string)
    ensures |r| <= |s|
    ensures r != [] ==> s != [] && (IsSpace(r[0]) ==> IsSpace(s[0]))
    ensures r != [] && r[0] == '>' ==> StripLeft(s) != [] && StripLeft(s)[0] == '>'
    decreases |s|
  {
    if s == [] then []
    else if IsSpace(s[0]) && StripLeft(s) != [] && StripLeft(s)[0] == '>' then
      var rest := StripLeft(s);
      ['>'] + DropSpaceBeforeGt(rest[1..])
    else
      var tail := DropSpaceBeforeGt(s[1..]);
      assert IsSpace(s[0]) ==> StripLeft(s[1..]) == StripLeft(s);
      [s[0]] + tail
  }

  /** After that step no whitespace precedes a `>`, and no two whitespace characters become adjacent. */
  lemma {:induction false} DropSpaceBeforeGtClean(s: string)
    ensures NoSpaceBeforeGt(DropSpaceBeforeGt(s))
    ensures NoAdjacentSpaces(s) ==> NoAdjacentSpaces(DropSpaceBeforeGt(s))
    decreases |s|
  {
    if s != [] {
      var r := DropSpaceBeforeGt(s);
      if IsSpace(s[0]) && StripLeft(s) != [] && StripLeft(s)[0] == '>' {
        var rest := StripLeft(s);
        DropSpaceBeforeGtClean(rest[1..]);
        ConsClean('>', DropSpaceBeforeGt(rest[1..]));
      } else {
        DropSpaceBeforeGtClean(s[1..]);
        assert IsSpace(s[0]) ==> StripLeft(s[1..]) == StripLeft(s);
        ConsClean(s[0], DropSpaceBeforeGt(s[1..]));
        if NoAdjacentSpaces(s) && |s| > 1 {
          assert !(IsSpace(s[0]) && IsSpace(s[1]));
          NoAdjacentSpacesTail(s);
        }
      }
    }
  }

  /** `re.sub(r'<\s+', '<', s)`: whitespace right after a `<` is dropped. */
  function DropSpaceAfterLt(s: string): (r: string)
    ensures |r| <= |s|
    ensures r != [] ==> s != [] && (IsSpace(r[0]) <==> IsSpace(s[0])) && (r[0] == '>' ==> s[0] == '>')
    decreases |s|
  {
    if s == [] then []
    else if s[0] == '<' then
      ['<'] + DropSpaceAfterLt(StripLeft(s[1..]))
    else
      [s[0]] + DropSpaceAfterLt(s[1..])
  }

  /** After that step no whitespace follows a `<`; the step keeps the other two properties. */
  lemma {:induction false} DropSpaceAfterLtClean(s: string)
    ensures NoSpaceAfterLt(DropSpaceAfterLt(s))
    ensures NoSpaceBeforeGt(s) ==> NoSpaceBeforeGt(DropSpaceAfterLt(s))
    ensures NoAdjacentSpaces(s) ==> NoAdjacentSpaces(DropSpaceAfterLt(s))
    decreases |s|
  {
    if s != [] {
      if s[0] == '<' {
        var rest := StripLeft(s[1..]);
        DropSpaceAfterLtClean(rest);
        ConsClean('<', DropSpaceAfterLt(rest));
        if NoSpaceBeforeGt(s) {
          StripLeftKeepsClean(s[1..]);
          NoSpaceBeforeGtTail(s);
        }
        if NoAdjacentSpaces(s) {
          StripLeftKeepsClean(s[1..]);
          NoAdjacentSpacesTail(s);
        }
      } else {
        DropSpaceAfterLtClean(s[1..]);
        ConsClean(s[0], DropSpaceAfterLt(s[1..]));
        if NoSpaceBeforeGt(s) {
          NoSpaceBeforeGtTail(s);
          assert |s| > 1 && s[1] == '>' ==> !IsSpace(s[0]);
        }
        if NoAdjacentSpaces(s) {
          NoAdjacentSpacesTail(s);
          assert |s| > 1 ==> !(IsSpace(s[0]) && IsSpace(s[1]));
        }
      }
    }
  }

  /** How the three properties of `[c] + t` follow from those of `t` and its first character. */
  lemma ConsClean(c: char, t: string)
    ensures NoSpaceBeforeGt(t) && (t == [] || t[0] != '>' || !IsSpace(c)) ==> NoSpaceBeforeGt([c] + t)
    ensures NoSpaceAfterLt(t) && (t == [] || c != '<' || !IsSpace(t[0])) ==> NoSpaceAfterLt([c] + t)
    ensures NoAdjacentSpaces(t) && (t == [] || !IsSpace(c) || !IsSpace(t[0])) ==> NoAdjacentSpaces([c] + t)
  {
    var r := [c] + t;
    assert forall i :: 1 <= i < |r| ==> r[i] == t[i - 1];
  }

  lemma NoAdjacentSpacesTail(s: string)
    requires s != [] && NoAdjacentSpaces(s)
    ensures NoAdjacentSpaces(s[1..])
  {
    var t := s[1..];
    assert forall i :: 0 <= i < |t| ==> t[i] == s[i + 1];
  }

  lemma NoSpaceBeforeGtTail(s: string)
    requires s != [] && NoSpaceBeforeGt(s)
    ensures NoSpaceBeforeGt(s[1..])
  {
    var t := s[1..];
    assert forall i :: 0 <= i < |t| ==> t[i] == s[i + 1];
  }

  /** Dropping leading characters keeps both properties. */
  lemma {:induction false} StripLeftKeepsClean(s: string)
    ensures NoSpaceBeforeGt(s) ==> NoSpaceBeforeGt(StripLeft(s))
    ensures NoAdjacentSpaces(s) ==> NoAdjacentSpaces(StripLeft(s))
    decreases |s|
  {
    if s != [] && IsSpace(s[0]) {
      if NoSpaceBeforeGt(s) {
        NoSpaceBeforeGtTail(s);
      }
      if NoAdjacentSpaces(s) {
        NoAdjacentSpacesTail(s);
      }
      StripLeftKeepsClean(s[1..]);
    }
  }

  // ---------------------------------------------------------------- what the whitespace steps keep

  /** `s` with every whitespace character deleted: the text the whitespace steps must not change. */
  function Squash(s: string): (r: string)
    ensures |r| <= |s|
    ensures NoSpace(r)
    ensures forall c :: c in r <==> c in s && !IsSpace(c)
  {
    if s == [] then []
    else if IsSpace(s[0]) then Squash(s[1..])
    else [s[0]] + Squash(s[1..])
  }

  /** Deleting whitespace from the front first changes nothing. */
  lemma {:induction false} SquashStripLeft(s: string)
    ensures Squash(StripLeft(s)) == Squash(s)
    decreases |s|
  {
    if s != [] && IsSpace(s[0]) {
      SquashStripLeft(s[1..]);
    }
  }

  lemma SquashCons(c: char, t: string)
    ensures Squash([c] + t) == if IsSpace(c) then Squash(t) else [c] + Squash(t)
  {
    assert ([c] + t)[1..] == t;
  }

  /**
   * The collapse step character by character: a whitespace character becomes
   * one space unless whitespace came just before it, in which case it goes.
   */
  function CollapseByChar(s: string, afterSpace: bool): string
    decreases |s|
  {
    if s == [] then []
    else if IsSpace(s[0]) then (if afterSpace then [] else [' ']) + CollapseByChar(s[1..], true)
    else [s[0]] + CollapseByChar(s[1..], false)
  }

  /** Inside a whitespace run the rest of the run goes. */
  lemma {:induction false} CollapseRunAbsorbed(s: string)
    ensures CollapseByChar(s, true) == CollapseByChar(StripLeft(s), true)
    decreases |s|
  {
    if s != [] && IsSpace(s[0]) {
      assert [] + CollapseByChar(s[1..], true) == CollapseByChar(s[1..], true);
      CollapseRunAbsorbed(s[1..]);
    }
  }

  /** `CollapseSpaces` is the character-by-character rule, starting outside any run. */
  lemma {:induction false} CollapseSpacesByChar(s: string)
    ensures CollapseSpaces(s) == CollapseByChar(s, false)
    decreases |s|
  {
    if s != [] {
      if IsSpace(s[0]) {
        var rest := StripLeft(s);
        CollapseSpacesByChar(rest);
        CollapseRunAbsorbed(s[1..]);
        assert StripLeft(s[1..]) == rest;
        assert CollapseByChar(rest, true) == CollapseByChar(rest, false);
      } else {
        CollapseSpacesByChar(s[1..]);
      }
    }
  }

  /** Collapsing changes whitespace only: the other characters stay, in order. */
  lemma {:induction false} CollapseSpacesKeepsText(s: string)
    ensures Squash(CollapseSpaces(s)) == Squash(s)
    decreases |s|
  {
    if s != [] {
      if IsSpace(s[0]) {
        var rest := StripLeft(s);
        CollapseSpacesKeepsText(rest);
        SquashCons(' ', CollapseSpaces(rest));
        SquashStripLeft(s);
      } else {
        CollapseSpacesKeepsText(s[1..]);
        SquashCons(s[0], CollapseSpaces(s[1..]));
      }
    }
  }

  /** The first non-whitespace character of `s` is a `>`. */
  predicate GtAhead(s: string)
    decreases |s|
  {
    s != [] && (s[0] == '>' || (IsSpace(s[0]) && GtAhead(s[1..])))
  }

  lemma {:induction false} GtAheadByStripLeft(s: string)
    ensures GtAhead(s) <==> StripLeft(s) != [] && StripLeft(s)[0] == '>'
    decreases |s|
  {
    if s != [] && IsSpace(s[0]) {
      GtAheadByStripLeft(s[1..]);
    }
  }

  /**
   * The `>` step character by character: a whitespace character goes exactly
   * when the first non-whitespace character after it is a `>`.
   */
  function DropBeforeGtByChar(s: string): string
    decreases |s|
  {
    if s == [] then []
    else if IsSpace(s[0]) && GtAhead(s[1..]) then DropBeforeGtByChar(s[1..])
    else [s[0]] + DropBeforeGtByChar(s[1..])
  }

  /** Before a `>`, the whole whitespace run goes. */
  lemma {:induction false} DropRunBeforeGt(s: string)
    requires GtAhead(s)
    ensures DropBeforeGtByChar(s) == DropBeforeGtByChar(StripLeft(s))
    decreases |s|
  {
    if IsSpace(s[0]) {
      DropRunBeforeGt(s[1..]);
    }
  }

  /** `DropSpaceBeforeGt` is the character-by-character rule. */
  lemma {:induction false} DropSpaceBeforeGtByChar(s: string)
    ensures DropSpaceBeforeGt(s) == DropBeforeGtByChar(s)
    decreases |s|
  {
    if s != [] {
      var rest := StripLeft(s);
      GtAheadByStripLeft(s);
      GtAheadByStripLeft(s[1..]);
      assert IsSpace(s[0]) ==> StripLeft(s[1..]) == rest;
      if IsSpace(s[0]) && rest != [] && rest[0] == '>' {
        DropSpaceBeforeGtByChar(rest[1..]);
        DropRunBeforeGt(s);
      } else {
        DropSpaceBeforeGtByChar(s[1..]);
      }
    }
  }

  /**
   * The `<` step character by character: a whitespace character goes exactly
   * when the run it belongs to follows a `<`.
   */
  function DropAfterLtByChar(s: string, afterLt: bool): string
    decreases |s|
  {
    if s == [] then []
    else if IsSpace(s[0]) && afterLt then DropAfterLtByChar(s[1..], true)
    else [s[0]] + DropAfterLtByChar(s[1..], s[0] == '<')
  }

  /** After a `<`, the whole whitespace run goes. */
  lemma {:induction false} DropRunAfterLt(s: string)
    ensures DropAfterLtByChar(s, true) == DropAfterLtByChar(StripLeft(s), false)
    decreases |s|
  {
    if s != [] && IsSpace(s[0]) {
      DropRunAfterLt(s[1..]);
    }
  }

  /** `DropSpaceAfterLt` is the character-by-character rule, starting after no `<`. */
  lemma {:induction false} DropSpaceAfterLtByChar(s: string)
    ensures DropSpaceAfterLt(s) == DropAfterLtByChar(s, false)
    decreases |s|
  {
    if s != [] {
      if s[0] == '<' {
        DropSpaceAfterLtByChar(StripLeft(s[1..]));
        DropRunAfterLt(s[1..]);
      } else {
        DropSpaceAfterLtByChar(s[1..]);
      }
    }
  }

  /** Dropping whitespace before `>` removes whitespace only and keeps the order. */
  lemma {:induction false} DropBeforeGtByCharKeepsText(s: string)
    ensures Squash(DropBeforeGtByChar(s)) == Squash(s)
    ensures IsSubseq(DropBeforeGtByChar(s), s)
    decreases |s|
  {
    if s != [] {
      var tail := DropBeforeGtByChar(s[1..]);
      var dropped := IsSpace(s[0]) && GtAhead(s[1..]);
      assert DropBeforeGtByChar(s) == if dropped then tail else [s[0]] + tail;
      DropBeforeGtByCharKeepsText(s[1..]);
      assert [s[0]] + s[1..] == s;
      SquashCons(s[0], s[1..]);
      SquashCons(s[0], tail);
      SuffixIsSubseq(s, 1);
      if dropped {
        SubseqTrans(tail, s[1..], s);
      } else {
        SubseqCons(s[0], tail, s[1..]);
      }
    }
  }

  /** Dropping whitespace after `<` removes whitespace only and keeps the order. */
  lemma {:induction false} DropAfterLtByCharKeepsText(s: string, afterLt: bool)
    ensures Squash(DropAfterLtByChar(s, afterLt)) == Squash(s)
    ensures IsSubseq(DropAfterLtByChar(s, afterLt), s)
    decreases |s|
  {
    if s != [] {
      var tail := DropAfterLtByChar(s[1..], if IsSpace(s[0]) && afterLt then true else s[0] == '<');
      DropAfterLtByCharKeepsText(s[1..], if IsSpace(s[0]) && afterLt then true else s[0] == '<');
      SuffixIsSubseq(s, 1);
      if IsSpace(s[0]) && afterLt {
        SubseqTrans(tail, s[1..], s);
      } else {
        SquashCons(s[0], tail);
        SubseqCons(s[0], tail, s[1..]);
        assert [s[0]] + s[1..] == s;
      }
    }
  }

  /** `minify_html`. */
  function Minify(s: string): (r: string)
    ensures |r| <= |s|
    ensures PlainSpacesOnly(r)
    ensures NoAdjacentSpaces(r)
    ensures NoSpaceBeforeGt(r)
    ensures NoSpaceAfterLt(r)
    ensures Squash(r) == Squash(StripComments(s))
  {
    var collapsed := CollapseSpaces(StripComments(s));
    var dropped := DropSpaceBeforeGt(collapsed);
    DropSpaceBeforeGtClean(collapsed);
    DropSpaceAfterLtClean(dropped);
    MinifyKeepsText(s);
    DropSpaceAfterLt(dropped)
  }

  /** Dropping whitespace before `>` removes whitespace only and keeps the order. */
  lemma DropSpaceBeforeGtKeepsText(s: string)
    ensures Squash(DropSpaceBeforeGt(s)) == Squash(s)
    ensures IsSubseq(DropSpaceBeforeGt(s), s)
  {
    DropSpaceBeforeGtByChar(s);
    DropBeforeGtByCharKeepsText(s);
  }

  /** Dropping whitespace after `<` removes whitespace only and keeps the order. */
  lemma DropSpaceAfterLtKeepsText(s: string)
    ensures Squash(DropSpaceAfterLt(s)) == Squash(s)
    ensures IsSubseq(DropSpaceAfterLt(s), s)
  {
    DropSpaceAfterLtByChar(s);
    DropAfterLtByCharKeepsText(s, false);
  }

  /** Minifying removes the comments and changes whitespace only; the two drops add no character. */
  lemma MinifyKeepsText(s: string)
    ensures var collapsed := CollapseSpaces(StripComments(s));
      var r := DropSpaceAfterLt(DropSpaceBeforeGt(collapsed));
      && Squash(r) == Squash(StripComments(s))
      && forall c :: c in r ==> c in collapsed
  {
    var collapsed := CollapseSpaces(StripComments(s));
    var dropped := DropSpaceBeforeGt(collapsed);
    var r := DropSpaceAfterLt(dropped);
    CollapseSpacesKeepsText(StripComments(s));
    DropSpaceBeforeGtKeepsText(collapsed);
    DropSpaceAfterLtKeepsText(dropped);
    SubseqTrans(r, dropped, collapsed);
    SubseqMembers(r, collapsed);
  }

  // ---------------------------------------------------------------- remove_redundant_data

  /** The two attribute patterns of `remove_redundant_data`. */
  datatype Attribute = Style | Data

  /** The literal parts of the two patterns. */
  const StyleOpen: string := "style=\""
  const DataOpen: string := "data-"
  const ValueOpen: string := "=\""
  const Quote: string := "\""

  /**
   * The length of the match of `\s+style="[^"]*"` (for `Style`) or
   * `\s+data-[^=]*="[^"]*"` (for `Data`) at the start of `t`, if any: a
   * whitespace run (the greedy `\s+` can only stop where whitespace ends,
   * since the next character of the pattern is not whitespace), then the
   * rest of the pattern.
   */
  function MatchAt(a: Attribute, t: string): (m: Option<nat>)
    ensures m.Some? ==> 0 < m.value <= |t| && IsSpace(t[0])
  {
    if t == [] || !IsSpace(t[0]) then None
    else
      var rest := StripLeft(t);
      Shift(MatchAfterSpaces(a, rest), |t| - |rest|)
  }

  /** A match length, moved on by `k` characters. */
  function Shift(m: Option<nat>, k: nat): (r: Option<nat>)
    ensures r.Some? <==> m.Some?
    ensures r.Some? ==> r.value == m.value + k
  {
    match m
    case Some(n) => Some(n + k)
    case None => None
  }

  /**
   * The length of the match of the pattern after its `\s+` at the start of
   * `rest`: `[^"]*"` ends at the first quote, and `[^=]*=` at the first `=`.
   */
  function MatchAfterSpaces(a: Attribute, rest: string): (m: Option<nat>)
    ensures m.Some? ==> m.value <= |rest|
  {
    match a
    case Style =>
      if !StartsWith(rest, StyleOpen) then None
      else
        (match IndexOf(rest, '"', 7)
         case Some(q) => Some(q + 1)
         case None => None)
    case Data =>
      if !StartsWith(rest, DataOpen) then None
      else
        match IndexOf(rest, '=', 5)
        case None => None
        case Some(e) =>
          if e + 1 < |rest| && rest[e + 1] == '"' then
            (match IndexOf(rest, '"', e + 2)
             case Some(q) => Some(q + 1)
             case None => None)
          else None
  }

  /** After a whitespace run, matching is matching the rest, shifted by the run's length. */
  lemma MatchAfterRun(a: Attribute, w: string, u: string)
    requires w != [] && AllSpace(w) && (u == [] || !IsSpace(u[0]))
    ensures MatchAt(a, w + u) == Shift(MatchAfterSpaces(a, u), |w|)
  {
    var s := w + u;
    assert s != [] && IsSpace(s[0]) by {
      assert s[0] == w[0];
    }
    assert StripLeft(s) == u by {
      StripLeftOverSpaces(w, u);
    }
    assert MatchAt(a, s) == Shift(MatchAfterSpaces(a, StripLeft(s)), |s| - |StripLeft(s)|);
  }

  /** `re.sub(<pattern of a>, '', s)`. */
  function RemoveAttribute(s: string, a: Attribute): (r: string)
    ensures |r| <= |s|
    decreases |s|
  {
    if s == [] then []
    else
      match MatchAt(a, s)
      case Some(n) => RemoveAttribute(s[n..], a)
      case None => [s[0]] + RemoveAttribute(s[1..], a)
  }

  /** `remove_redundant_data`: inline styles first, then data attributes. */
  function RemoveRedundantData(s: string): (r: string)
    ensures |r| <= |s|
    ensures NoSpace(s) ==> r == s
  {
    RemoveAttributeUnchanged(s, Style);
    RemoveAttributeUnchanged(RemoveAttribute(s, Style), Data);
    RemoveAttribute(RemoveAttribute(s, Style), Data)
  }

  /** Text without whitespace holds no match and is unchanged. */
  lemma RemoveAttributeUnchanged(s: string, a: Attribute)
    ensures NoSpace(s) ==> RemoveAttribute(s, a) == s
  {
    if NoSpace(s) {
      RemoveAttributeKeeps(s, [], a);
      assert s + [] == s;
    }
  }

  lemma RemoveKeepStep(s: string, a: Attribute)
    requires s != [] && MatchAt(a, s).None?
    ensures RemoveAttribute(s, a) == [s[0]] + RemoveAttribute(s[1..], a)
  {
  }

  lemma RemoveSkipStep(s: string, a: Attribute)
    requires MatchAt(a, s).Some?
    ensures RemoveAttribute(s, a) == RemoveAttribute(s[MatchAt(a, s).value..], a)
  {
  }

  /** After a match the scan goes on with the text that follows it. */
  lemma RemoveAfterMatch(a: Attribute, w: string, x: string, t: string)
    requires MatchAt(a, w + (x + t)) == Some(|w| + |x|)
    ensures RemoveAttribute(w + (x + t), a) == RemoveAttribute(t, a)
  {
    AfterPrefix(w, x, t);
  }

  /** Removing an attribute only drops characters and keeps the rest in order. */
  lemma {:induction false} RemoveAttributeSubseq(s: string, a: Attribute)
    ensures IsSubseq(RemoveAttribute(s, a), s)
    decreases |s|
  {
    if s != [] {
      match MatchAt(a, s)
      case Some(n) =>
        RemoveSkipStep(s, a);
        RemoveAttributeSubseq(s[n..], a);
        SuffixIsSubseq(s, n);
        SubseqTrans(RemoveAttribute(s[n..], a), s[n..], s);
      case None =>
        RemoveKeepStep(s, a);
        RemoveAttributeSubseq(s[1..], a);
        SubseqCons(s[0], RemoveAttribute(s[1..], a), s[1..]);
        assert [s[0]] + s[1..] == s;
    }
  }

  /** `remove_redundant_data` only drops characters and keeps the rest in order. */
  lemma RemoveRedundantDataSubseq(s: string)
    ensures IsSubseq(RemoveRedundantData(s), s)
    ensures forall c :: c in RemoveRedundantData(s) ==> c in s
  {
    RemoveAttributeSubseq(s, Style);
    RemoveAttributeSubseq(RemoveAttribute(s, Style), Data);
    SubseqTrans(RemoveRedundantData(s), RemoveAttribute(s, Style), s);
    SubseqMembers(RemoveRedundantData(s), s);
  }

  /** `style="v"`: an inline style, without the whitespace in front of it. */
  function StyleText(v: string): (r: string)
    ensures |r| == 8 + |v|
  {
    StyleOpen + v + Quote
  }

  /** `data-k="v"`: a data attribute, without the whitespace in front of it. */
  function DataText(k: string, v: string): (r: string)
    ensures |r| == 8 + |k| + |v|
  {
    DataOpen + k + ValueOpen + v + Quote
  }

  /** `style="`, a value without quotes and the closing quote form one match. */
  lemma StyleValueMatch(v: string, t: string)
    requires '"' !in v
    ensures MatchAfterSpaces(Style, StyleText(v) + t) == Some(8 + |v|)
    ensures (StyleText(v) + t)[0] == 's'
  {
    var u := StyleText(v) + t;
    assert u[..7] == StyleOpen;
    assert u[7 + |v|] == '"';
    assert forall j :: 7 <= j < 7 + |v| ==> u[j] == v[j - 7];
  }

  /** `data-`, a name without `=`, `="`, a value without quotes and the closing quote form one match. */
  lemma DataValueMatch(k: string, v: string, t: string)
    requires '=' !in k && '"' !in v
    ensures MatchAfterSpaces(Data, DataText(k, v) + t) == Some(8 + |k| + |v|)
    ensures (DataText(k, v) + t)[0] == 'd'
  {
    var u := DataText(k, v) + t;
    assert u[..5] == DataOpen;
    assert u[5 + |k|] == '=' && u[6 + |k|] == '"' && u[7 + |k| + |v|] == '"';
    assert forall j :: 5 <= j < 5 + |k| ==> u[j] == k[j - 5];
    assert forall j :: 7 + |k| <= j < 7 + |k| + |v| ==> u[j] == v[j - 7 - |k|];
  }

  /** Whitespace followed by an inline style form one match. */
  lemma StyleAttributeMatch(w: string, v: string, t: string)
    requires w != [] && AllSpace(w) && '"' !in v
    ensures MatchAt(Style, w + (StyleText(v) + t)) == Some(|w| + |StyleText(v)|)
  {
    var u := StyleText(v) + t;
    var m := MatchAfterSpaces(Style, u);
    assert m == Some(8 + |v|) && !IsSpace(u[0]) by {
      StyleValueMatch(v, t);
    }
    assert Shift(m, |w|) == Some(|w| + |StyleText(v)|);
    MatchAfterRun(Style, w, u);
  }

  /** Whitespace followed by a data attribute whose name holds no `=` form one match. */
  lemma DataAttributeMatch(w: string, k: string, v: string, t: string)
    requires w != [] && AllSpace(w) && '=' !in k && '"' !in v
    ensures MatchAt(Data, w + (DataText(k, v) + t)) == Some(|w| + |DataText(k, v)|)
  {
    var u := DataText(k, v) + t;
    var m := MatchAfterSpaces(Data, u);
    assert m == Some(8 + |k| + |v|) && !IsSpace(u[0]) by {
      DataValueMatch(k, v, t);
    }
    assert Shift(m, |w|) == Some(|w| + |DataText(k, v)|);
    MatchAfterRun(Data, w, u);
  }

  /**
   * Every match of the style pattern is a whitespace run, `style="`, a value
   * without quotes and the closing quote.
   */
  lemma StyleMatchShape(x: string)
    requires MatchAt(Style, x).Some?
    ensures exists w, v, t :: && w != [] && AllSpace(w) && '"' !in v
                              && x == w + (StyleText(v) + t)
                              && MatchAt(Style, x) == Some(|w| + |StyleText(v)|)
  {
    var u := StripLeft(x);
    var w := x[..|x| - |u|];
    LeadingRun(x);
    MatchAfterRun(Style, w, u);
    StyleRestMatch(u);
    var v, t :| && '"' !in v && u == StyleText(v) + t
                && MatchAfterSpaces(Style, u) == Some(|StyleText(v)|);
    assert x == w + (StyleText(v) + t);
  }

  /** What follows the whitespace of a style match. */
  lemma StyleRestMatch(u: string)
    requires MatchAfterSpaces(Style, u).Some?
    ensures exists v, t :: && '"' !in v && u == StyleText(v) + t
                           && MatchAfterSpaces(Style, u) == Some(|StyleText(v)|)
  {
    var q := IndexOf(u, '"', 7).value;
    StyleRestShape(u, q);
    assert u == StyleText(u[7..q]) + u[q + 1..];
  }

  /**
   * Every match of the data pattern is a whitespace run, `data-`, a name
   * without `=`, `="`, a value without quotes and the closing quote.
   */
  lemma DataMatchShape(x: string)
    requires MatchAt(Data, x).Some?
    ensures exists w, k, v, t :: && w != [] && AllSpace(w) && '=' !in k && '"' !in v
                                 && x == w + (DataText(k, v) + t)
                                 && MatchAt(Data, x) == Some(|w| + |DataText(k, v)|)
  {
    var u := StripLeft(x);
    var w := x[..|x| - |u|];
    LeadingRun(x);
    MatchAfterRun(Data, w, u);
    DataRestMatch(u);
    var k, v, t :| && '=' !in k && '"' !in v && u == DataText(k, v) + t
                   && MatchAfterSpaces(Data, u) == Some(|DataText(k, v)|);
    assert x == w + (DataText(k, v) + t);
  }

  /** What follows the whitespace of a data match. */
  lemma DataRestMatch(u: string)
    requires MatchAfterSpaces(Data, u).Some?
    ensures exists k, v, t :: && '=' !in k && '"' !in v && u == DataText(k, v) + t
                              && MatchAfterSpaces(Data, u) == Some(|DataText(k, v)|)
  {
    var e := IndexOf(u, '=', 5).value;
    var q := IndexOf(u, '"', e + 2).value;
    DataRestShape(u, e, q);
    assert u == DataText(u[5..e], u[e + 2..q]) + u[q + 1..];
  }

  /** The text after the whitespace of a style match, cut at its closing quote `q`. */
  lemma StyleRestShape(u: string, q: nat)
    requires StartsWith(u, StyleOpen) && IndexOf(u, '"', 7) == Some(q)
    ensures u == StyleText(u[7..q]) + u[q + 1..] && '"' !in u[7..q]
    ensures |StyleText(u[7..q])| == q + 1
  {
    assert u[..7] == StyleOpen;
    assert u == u[..7] + u[7..q] + [u[q]] + u[q + 1..];
    var v := u[7..q];
    forall j | 0 <= j < |v| ensures v[j] != '"' {
      assert v[j] == u[7 + j];
    }
  }

  /**
   * The text after the whitespace of a data match, cut at its `=` (`e`) and
   * its closing quote (`q`).
   */
  lemma DataRestShape(u: string, e: nat, q: nat)
    requires StartsWith(u, DataOpen) && IndexOf(u, '=', 5) == Some(e)
    requires e + 1 < |u| && u[e + 1] == '"' && IndexOf(u, '"', e + 2) == Some(q)
    ensures u == DataText(u[5..e], u[e + 2..q]) + u[q + 1..]
    ensures '=' !in u[5..e] && '"' !in u[e + 2..q]
    ensures |DataText(u[5..e], u[e + 2..q])| == q + 1
  {
    assert u[..5] == DataOpen;
    assert u[e..e + 2] == ValueOpen;
    assert u == u[..5] + u[5..e] + u[e..e + 2] + u[e + 2..q] + [u[q]] + u[q + 1..];
    var k, v := u[5..e], u[e + 2..q];
    forall j | 0 <= j < |k| ensures k[j] != '=' {
      assert k[j] == u[5 + j];
    }
    forall j | 0 <= j < |v| ensures v[j] != '"' {
      assert v[j] == u[e + 2 + j];
    }
  }

  /** `x` is its leading whitespace run followed by the rest; the run is not empty when `x` starts with whitespace. */
  lemma LeadingRun(x: string)
    requires x != [] && IsSpace(x[0])
    ensures var u := StripLeft(x); var w := x[..|x| - |u|];
      w != [] && AllSpace(w) && x == w + u
  {
    var u := StripLeft(x);
    assert u == [] || u[0] != x[0];
  }

  /** What follows a matched prefix `w + x`. */
  lemma AfterPrefix<T>(w: seq<T>, x: seq<T>, t: seq<T>)
    ensures (w + (x + t))[|w| + |x|..] == t
  {
  }

  lemma StyleMatchSkipped(w: string, v: string, t: string)
    requires MatchAt(Style, w + (StyleText(v) + t)) == Some(|w| + |StyleText(v)|)
    ensures RemoveAttribute(w + (StyleText(v) + t), Style) == RemoveAttribute(t, Style)
  {
    RemoveAfterMatch(Style, w, StyleText(v), t);
  }

  lemma DataMatchSkipped(w: string, k: string, v: string, t: string)
    requires MatchAt(Data, w + (DataText(k, v) + t)) == Some(|w| + |DataText(k, v)|)
    ensures RemoveAttribute(w + (DataText(k, v) + t), Data) == RemoveAttribute(t, Data)
  {
    RemoveAfterMatch(Data, w, DataText(k, v), t);
  }

  /** An inline style is removed whole, with the whitespace in front of it. */
  lemma StyleAttributeRemoved(w: string, v: string, t: string)
    requires w != [] && AllSpace(w) && '"' !in v
    ensures RemoveAttribute(w + (StyleText(v) + t), Style) == RemoveAttribute(t, Style)
  {
    StyleAttributeMatch(w, v, t);
    StyleMatchSkipped(w, v, t);
  }

  /** A data attribute is removed whole, with the whitespace in front of it. */
  lemma DataAttributeRemoved(w: string, k: string, v: string, t: string)
    requires w != [] && AllSpace(w) && '=' !in k && '"' !in v
    ensures RemoveAttribute(w + (DataText(k, v) + t), Data) == RemoveAttribute(t, Data)
  {
    DataAttributeMatch(w, k, v, t);
    DataMatchSkipped(w, k, v, t);
  }

  /** Text without whitespace cannot start a match and is kept. */
  lemma {:induction false} RemoveAttributeKeeps(u: string, t: string, a: Attribute)
    requires NoSpace(u)
    ensures RemoveAttribute(u + t, a) == u + RemoveAttribute(t, a)
    decreases |u|
  {
    if u == [] {
      assert u + t == t;
    } else {
      var rt := RemoveAttribute(t, a);
      HeadOfConcat(u, t);
      assert RemoveAttribute(u + t, a) == [u[0]] + RemoveAttribute(u[1..] + t, a) by {
        RemoveKeepStep(u + t, a);
      }
      RemoveAttributeKeeps(u[1..], t, a);
      ConsOntoConcat(u[0], u[1..], rt);
    }
  }

  /** Text starting with a `d` does not start `style="`. */
  lemma NoStyleAtD(u: string)
    requires u != [] && u[0] == 'd'
    ensures MatchAfterSpaces(Style, u) == None && !IsSpace(u[0])
  {
    assert u[0] != StyleOpen[0];
  }

  /** A whitespace run not followed by the rest of the pattern is kept, and the scan goes on after it. */
  lemma {:induction false} KeepsRunWithoutMatch(a: Attribute, w: string, u: string)
    requires AllSpace(w) && (u == [] || !IsSpace(u[0])) && MatchAfterSpaces(a, u) == None
    ensures RemoveAttribute(w + u, a) == w + RemoveAttribute(u, a)
    decreases |w|
  {
    if w == [] {
      assert w + u == u;
    } else {
      HeadOfConcat(w, u);
      MatchAfterRun(a, w, u);
      assert RemoveAttribute(w + u, a) == [w[0]] + RemoveAttribute(w[1..] + u, a) by {
        RemoveKeepStep(w + u, a);
      }
      KeepsRunWithoutMatch(a, w[1..], u);
      ConsOntoConcat(w[0], w[1..], RemoveAttribute(u, a));
    }
  }

  lemma DataAttributeNoSpace(k: string, v: string)
    requires NoSpace(k) && NoSpace(v)
    ensures NoSpace(DataText(k, v))
  {
    var d := DataText(k, v);
    forall j | 0 <= j < |d| ensures !IsSpace(d[j]) {
      if 5 <= j < 5 + |k| {
        assert d[j] == k[j - 5];
      } else if 7 + |k| <= j < 7 + |k| + |v| {
        assert d[j] == v[j - 7 - |k|];
      }
    }
  }

  /** `remove_redundant_data` drops an inline style and keeps the text without whitespace before it. */
  lemma StyleAttributeDropped(a: string, w: string, v: string, t: string)
    requires NoSpace(a) && w != [] && AllSpace(w) && '"' !in v
    ensures RemoveRedundantData(a + (w + (StyleText(v) + t))) == a + RemoveRedundantData(t)
  {
    var x := w + (StyleText(v) + t);
    var styled := RemoveAttribute(t, Style);
    assert RemoveAttribute(a + x, Style) == a + styled by {
      RemoveAttributeKeeps(a, x, Style);
      StyleAttributeRemoved(w, v, t);
    }
    assert RemoveAttribute(a + styled, Data) == a + RemoveAttribute(styled, Data) by {
      RemoveAttributeKeeps(a, styled, Data);
    }
  }

  /**
   * `remove_redundant_data` drops a data attribute whose name and value hold
   * no whitespace, and keeps the text without whitespace before it.
   */
  lemma DataAttributeDropped(a: string, w: string, k: string, v: string, t: string)
    requires NoSpace(a) && w != [] && AllSpace(w) && '=' !in k && '"' !in v && NoSpace(k) && NoSpace(v)
    ensures RemoveRedundantData(a + (w + (DataText(k, v) + t))) == a + RemoveRedundantData(t)
  {
    var d := DataText(k, v);
    var styled := RemoveAttribute(t, Style);
    assert RemoveAttribute(a + (w + (d + t)), Style) == a + (w + (d + styled)) by {
      DataAttributeNoSpace(k, v);
      DataValueMatch(k, v, t);
      RemoveAttributeKeeps(a, w + (d + t), Style);
      NoStyleAtD(d + t);
      KeepsRunWithoutMatch(Style, w, d + t);
      RemoveAttributeKeeps(d, t, Style);
    }
    assert RemoveAttribute(a + (w + (d + styled)), Data) == a + RemoveAttribute(styled, Data) by {
      RemoveAttributeKeeps(a, w + (d + styled), Data);
      DataAttributeRemoved(w, k, v, styled);
    }
  }

  /** Stripping attributes after minifying keeps every whitespace character a plain space. */
  lemma CompressedTextPlainSpaces(s: string)
    ensures PlainSpacesOnly(RemoveRedundantData(Minify(s)))
    ensures |RemoveRedundantData(Minify(s))| <= |s|
  {
    RemoveRedundantDataSubseq(Minify(s));
  }

  // ---------------------------------------------------------------- file names

  /** Python's `s.replace(old, new)`: every non-overlapping occurrence of `target`, left to right. */
  function ReplaceAll(s: string, target: string, replacement: string): string
    requires target != []
    decreases |s|
  {
    if |s| < |target| then s
    else if IsPrefix(target, s) then
      replacement + ReplaceAll(s[|target|..], target, replacement)
    else
      [s[0]] + ReplaceAll(s[1..], target, replacement)
  }

  /** Text without the target is left as it is. */
  lemma {:induction false} ReplaceAllWithoutTarget(s: string, target: string, replacement: string)
    requires target != []
    ensures NoOccurrence(s, target) ==> ReplaceAll(s, target, replacement) == s
    decreases |s|
  {
    if |s| >= |target| && NoOccurrence(s, target) {
      assert !OccursAt(s, target, 0);
      IsPrefixOccurs(target, s);
      NoOccurrenceInSuffix(s, target, 1);
      ReplaceAllWithoutTarget(s[1..], target, replacement);
      assert s == [s[0]] + s[1..];
    }
  }

  /** The default output name: `input_file.replace('.html', '.min.html')`. */
  function DefaultOutputName(input: string): (out: string)
    ensures NoOccurrence(input, ".html") ==> out == input
  {
    ReplaceAllWithoutTarget(input, ".html", ".min.html");
    ReplaceAll(input, ".html", ".min.html")
  }

  /**
   * The first occurrence of `target`, at `i`, is replaced and the scan goes on
   * after it; with `ReplaceAllWithoutTarget` this fixes every result.
   */
  lemma {:induction false} ReplaceAtFirstOccurrence(s: string, target: string, replacement: string, i: nat)
    requires target != [] && OccursAt(s, target, i)
    requires forall j: nat :: j < i ==> !OccursAt(s, target, j)
    ensures ReplaceAll(s, target, replacement) == s[..i] + (replacement + ReplaceAll(s[i + |target|..], target, replacement))
    decreases i
  {
    var tail := replacement + ReplaceAll(s[i + |target|..], target, replacement);
    if i == 0 {
      ReplaceHere(s, target, replacement);
      assert s[..0] + tail == tail;
    } else {
      var t := s[1..];
      ReplaceKeepBefore(s, target, replacement, i);
      ReplaceAtFirstOccurrence(t, target, replacement, i - 1);
      ConsOntoConcat(s[0], t[..i - 1], tail);
    }
  }

  /** Before the first occurrence, the first character is kept and the occurrence moves one place down. */
  lemma ReplaceKeepBefore(s: string, target: string, replacement: string, i: nat)
    requires target != [] && 0 < i && OccursAt(s, target, i)
    requires forall j: nat :: j < i ==> !OccursAt(s, target, j)
    ensures ReplaceAll(s, target, replacement) == [s[0]] + ReplaceAll(s[1..], target, replacement)
    ensures OccursAt(s[1..], target, i - 1) && forall j: nat :: j < i - 1 ==> !OccursAt(s[1..], target, j)
    ensures s[1..][i - 1 + |target|..] == s[i + |target|..] && s[..i] == [s[0]] + s[1..][..i - 1]
  {
    assert !OccursAt(s, target, 0);
    ReplaceKeep(s, target, replacement);
    OccurrencesInTail(s, target, i);
    TailSlices(s, i, i + |target|);
  }

  /** `p` is a prefix of `s`, compared character by character. */
  predicate IsPrefix(p: string, s: string)
    decreases |p|
  {
    |p| <= |s| && (p == [] || (p[0] == s[0] && IsPrefix(p[1..], s[1..])))
  }

  lemma {:induction false} IsPrefixOccurs(p: string, s: string)
    ensures IsPrefix(p, s) <==> OccursAt(s, p, 0)
    decreases |p|
  {
    if p != [] && |p| <= |s| {
      IsPrefixOccurs(p[1..], s[1..]);
      assert s[0..|p|] == [s[0]] + s[1..][0..|p| - 1];
    }
  }

  /** An occurrence at the front is replaced. */
  lemma ReplaceHere(s: string, target: string, replacement: string)
    requires target != [] && OccursAt(s, target, 0)
    ensures ReplaceAll(s, target, replacement) == replacement + ReplaceAll(s[|target|..], target, replacement)
  {
    IsPrefixOccurs(target, s);
  }

  /** Without an occurrence at the front, the first character is kept. */
  lemma ReplaceKeep(s: string, target: string, replacement: string)
    requires target != [] && |target| <= |s| && !OccursAt(s, target, 0)
    ensures ReplaceAll(s, target, replacement) == [s[0]] + ReplaceAll(s[1..], target, replacement)
  {
    IsPrefixOccurs(target, s);
  }

  /** Occurrences in `s[1..]` are those of `s` one position further on. */
  lemma OccurrencesInTail(s: string, target: string, i: nat)
    requires 0 < i && OccursAt(s, target, i)
    requires forall j: nat :: j < i ==> !OccursAt(s, target, j)
    ensures OccursAt(s[1..], target, i - 1)
    ensures forall j: nat :: j < i - 1 ==> !OccursAt(s[1..], target, j)
  {
    var t := s[1..];
    assert t[i - 1..i - 1 + |target|] == s[i..i + |target|];
    forall j: nat | j < i - 1 ensures !OccursAt(t, target, j) {
      assert !OccursAt(s, target, j + 1);
      if j + |target| <= |t| {
        assert t[j..j + |target|] == s[j + 1..j + 1 + |target|];
      }
    }
  }

  /** Slicing `s[1..]` is slicing `s` one position further on. */
  lemma TailSlices<T>(s: seq<T>, i: nat, k: nat)
    requires 0 < i <= |s| && 0 < k <= |s|
    ensures s[..i] == [s[0]] + s[1..][..i - 1]
    ensures s[1..][k - 1..] == s[k..]
  {
  }

  /** The first element and the rest of `u + t`, for a non-empty `u`. */
  lemma HeadOfConcat<T>(u: seq<T>, t: seq<T>)
    requires u != []
    ensures (u + t)[0] == u[0] && (u + t)[1..] == u[1..] + t && [u[0]] + u[1..] == u
  {
  }

  /** A non-empty slice is its first element followed by the rest. */
  lemma SliceCons<T>(s: seq<T>, k: nat, n: nat)
    requires k < n <= |s|
    ensures s[k..n] == [s[k]] + s[k + 1..n]
  {
  }

  lemma ConsOntoConcat(x: char, a: string, b: string)
    ensures [x] + (a + b) == ([x] + a) + b
  {
  }

  /** A name ending in its only `.html` gets `.min.html` in its place. */
  lemma OutputNameOfHtmlFile(stem: string)
    requires NoOccurrence(stem, ".html")
    ensures DefaultOutputName(stem + ".html") == stem + ".min.html"
  {
    var s := stem + ".html";
    var n := |stem|;
    assert s[n..n + 5] == ".html";
    forall j: nat | j < n ensures !OccursAt(s, ".html", j) {
      if j + 5 <= n {
        assert s[j..j + 5] == stem[j..j + 5];
        assert !OccursAt(stem, ".html", j);
      } else if j + 5 <= |s| {
        assert s[j..j + 5][n - j] == s[n] == '.';
      }
    }
    ReplaceAtFirstOccurrence(s, ".html", ".min.html", n);
    assert s[..n] == stem;
    assert s[n + 5..] == [];
  }

  /** The gzip copy's name. */
  function GzipName(output: string): (gz: string)
    ensures |gz| == |output| + 3 && gz[..|output|] == output && gz[|output|..] == ".gz"
  {
    output + ".gz"
  }

  /**
   * How `compress_html_file` ends: `False` for a missing input, the
   * `ZeroDivisionError` of the size ratio for an empty one, `True` otherwise.
   */
  datatype Outcome = Missing | ZeroDivision | Done

  /** The output name: the one given, or the default derived from the input's. */
  function OutputName(input: string, output: Option<string>): string
  {
    if output.Some? then output.value else DefaultOutputName(input)
  }

  /**
   * `compress_html_file` on a directory of files (name to text). The
   * minified, stripped text is written to the output name before the size
   * ratio divides by the input's size, so an empty input leaves the output
   * written and no gzip copy; otherwise the gzip image of the output (by the
   * compressor `gzip`) is written at the output name plus `.gz`.
   */
  function CompressHtmlFile(files: map<string, string>, input: string, output: Option<string>,
                            gzip: string -> string): (res: (Outcome, map<string, string>))
    ensures res.0 == Missing <==> input !in files
    ensures input !in files ==> res.1 == files
    ensures input in files ==>
      var out := OutputName(input, output);
      var content := RemoveRedundantData(Minify(files[input]));
      && out in res.1 && res.1[out] == content
      && |res.1[out]| <= |files[input]|
      && PlainSpacesOnly(res.1[out])
      && (res.0 == ZeroDivision <==> files[input] == [])
      && (res.0 == ZeroDivision ==> res.1.Keys == files.Keys + {out})
      && (res.0 == Done ==>
            GzipName(out) in res.1 && res.1[GzipName(out)] == gzip(content) &&
            res.1.Keys == files.Keys + {out, GzipName(out)})
      && (forall f :: f in files && f != out && f != GzipName(out) ==> f in res.1 && res.1[f] == files[f])
      && (res.0 == ZeroDivision ==> forall f :: f in files && f != out ==> res.1[f] == files[f])
  {
    if input !in files then (Missing, files)
    else
      var out := OutputName(input, output);
      var content := RemoveRedundantData(Minify(files[input]));
      CompressedTextPlainSpaces(files[input]);
      var written := files[out := content];
      if files[input] == [] then (ZeroDivision, written)
      else (Done, written[GzipName(out) := gzip(content)])
  }
}
