/** The escape filter applied to every chunk of process output: a regular
    expression substitution that deletes ESC-introduced control sequences
    (ECMA-48 section 5.4 shape: ESC, one byte in @.._, parameter bytes
    0..?, intermediate bytes space../, one final byte @..~). */
module AnsiEscape {

  import opened Options

  const ESC: char := '\U{1B}'

  predicate IsIntroducer(c: char) { '@' <= c <= '_' }    // 0x40..0x5F
  predicate IsParameter(c: char) { '0' <= c <= '?' }     // 0x30..0x3F
  predicate IsIntermediate(c: char) { ' ' <= c <= '/' }  // 0x20..0x2F
  predicate IsFinal(c: char) { '@' <= c <= '~' }         // 0x40..0x7E

  /** t is one whole escape sequence whose parameter run is t[2..k] and whose
      intermediate run is t[k..|t|-1]: the regular language of the pattern,
      stated without any scanning. */
  predicate ShapedAt(t: seq<char>, k: nat) {
    3 <= |t| && 2 <= k <= |t| - 1 &&
    t[0] == ESC && IsIntroducer(t[1]) && IsFinal(t[|t| - 1]) &&
    (forall j :: 2 <= j < k ==> IsParameter(t[j])) &&
    (forall j :: k <= j < |t| - 1 ==> IsIntermediate(t[j]))
  }

  ghost predicate IsEscape(t: seq<char>) {
    exists k: nat :: ShapedAt(t, k)
  }

  /** Some escape sequence lies wholly inside s. */
  ghost predicate ContainsEscape(s: seq<char>) {
    exists i, n :: 0 <= i <= n <= |s| && IsEscape(s[i..n])
  }

  /** Some escape sequence inside s starts before position k and ends after it. */
  ghost predicate SpansSplit(s: seq<char>, k: nat) {
    exists i, n :: 0 <= i < k < n <= |s| && IsEscape(s[i..n])
  }

  /** The end of the run of characters satisfying p that starts at i. */
  function SkipWhile(s: seq<char>, i: nat, p: char -> bool): (j: nat)
    requires i <= |s|
    ensures i <= j <= |s|
    ensures forall k :: i <= k < j ==> p(s[k])
    ensures j < |s| ==> !p(s[j])
    decreases |s| - i
  {
    if i == |s| || !p(s[i]) then i else SkipWhile(s, i + 1, p)
  }

  /** Any index that ends a run of p characters starting at i is the one
      SkipWhile finds. */
  lemma {:induction false} SkipWhileFindsRunEnd(s: seq<char>, i: nat, j: nat, p: char -> bool)
    requires i <= j <= |s|
    requires forall k :: i <= k < j ==> p(s[k])
    requires j < |s| ==> !p(s[j])
    ensures SkipWhile(s, i, p) == j
    decreases j - i
  {
    if i < j {
      SkipWhileFindsRunEnd(s, i + 1, j, p);
    }
  }

  /** The pattern fixes where each run ends: whatever shape s[..n] has,
      its parameter run and intermediate run are the greedy ones. */
  lemma ShapeIsGreedy(s: seq<char>, n: nat, k: nat)
    requires n <= |s| && ShapedAt(s[..n], k)
    ensures k == SkipWhile(s, 2, IsParameter)
    ensures n - 1 == SkipWhile(s, k, IsIntermediate)
  {
    assert forall j :: 0 <= j < n ==> s[..n][j] == s[j];
    SkipWhileFindsRunEnd(s, 2, k, IsParameter);
    SkipWhileFindsRunEnd(s, k, n - 1, IsIntermediate);
  }

  /** Length of the escape sequence at the start of s, if there is one. Since
      the character classes are disjoint there is at most one, so this is the
      match a backtracking regex engine finds at position 0. */
  function MatchLength(s: seq<char>): (r: Option<nat>)
    ensures r.Some? ==> 3 <= r.value <= |s|
    ensures forall n :: 0 <= n <= |s| ==> (IsEscape(s[..n]) <==> r == Some(n))
  {
    if |s| < 3 || s[0] != ESC || !IsIntroducer(s[1]) then
      assert forall n, k: nat :: 0 <= n <= |s| ==> !ShapedAt(s[..n], k);
      None
    else
      var p := SkipWhile(s, 2, IsParameter);
      var q := SkipWhile(s, p, IsIntermediate);
      assert forall n, k: nat :: 0 <= n <= |s| && ShapedAt(s[..n], k) ==> n == q + 1 && IsFinal(s[q]) by {
        forall n, k: nat | 0 <= n <= |s| && ShapedAt(s[..n], k)
          ensures n == q + 1 && IsFinal(s[q])
        {
          ShapeIsGreedy(s, n, k);
          assert s[..n][n - 1] == s[q];
        }
      }
      if q < |s| && IsFinal(s[q]) then
        assert ShapedAt(s[..q + 1], p);
        Some(q + 1)
      else
        None
  }

  /** Python's `pattern.sub('', s)`: scan left to right, delete the escape
      sequence starting here if there is one and resume after it, otherwise
      keep this character and move on. */
  function Strip(s: seq<char>): (r: seq<char>)
    ensures |r| <= |s|
    decreases |s|
  {
    if s == [] then []
    else
      match MatchLength(s)
      case Some(n) => Strip(s[n..])
      case None => [s[0]] + Strip(s[1..])
  }

  /** The scan of s stops at position k (no deleted sequence straddles it). */
  predicate ScanVisits(s: seq<char>, k: nat)
    decreases |s|
  {
    k == 0 ||
    (s != [] &&
     match MatchLength(s)
     case Some(n) => n <= k && ScanVisits(s[n..], k - n)
     case None => ScanVisits(s[1..], k - 1))
  }

  predicate IsSubsequence(a: seq<char>, b: seq<char>)
    decreases |b|
  {
    if a == [] then true
    else if b == [] then false
    else if a[0] == b[0] then IsSubsequence(a[1..], b[1..])
    else IsSubsequence(a, b[1..])
  }

  // ---------------------------------------------------------------------
  // Leftmost, non-overlapping: the two rules that determine Strip.

  /** An escape sequence at the front is deleted and scanning resumes after it. */
  lemma StripDeletesLeadingEscape(t: seq<char>, u: seq<char>)
    requires IsEscape(t)
    ensures Strip(t + u) == Strip(u)
  {
    assert (t + u)[..|t|] == t;
    assert (t + u)[|t|..] == u;
  }

  /** A character that starts no escape sequence is kept. */
  lemma StripKeepsNonEscapeStart(c: char, u: seq<char>)
    requires forall n :: 0 <= n <= |u| + 1 ==> !IsEscape(([c] + u)[..n])
    ensures Strip([c] + u) == [c] + Strip(u)
  {
    assert ([c] + u)[1..] == u;
  }

  // ---------------------------------------------------------------------
  // Relating MatchLength on a string and on an extension of it.

  lemma MatchLengthExtend(a: seq<char>, b: seq<char>)
    ensures MatchLength(a).Some? ==> MatchLength(a + b) == MatchLength(a)
    ensures MatchLength(a + b).Some? && MatchLength(a + b).value <= |a| ==>
              MatchLength(a) == MatchLength(a + b)
  {
    forall n | 0 <= n <= |a| ensures (a + b)[..n] == a[..n] { }
  }

  lemma SliceOfSuffix(s: seq<char>, d: nat, i: nat, n: nat)
    requires d <= |s| && i <= n <= |s| - d
    ensures s[d..][i..n] == s[d + i..d + n]
  {
  }

  // ---------------------------------------------------------------------
  // Properties of Strip.

  /** Text with no ESC in front is copied through unchanged. */
  lemma {:induction false} StripKeepsPlainPrefix(u: seq<char>, v: seq<char>)
    requires ESC !in u
    ensures Strip(u + v) == u + Strip(v)
  {
    if u != [] {
      var s := u + v;
      assert s[0] == u[0] != ESC;
      assert s[1..] == u[1..] + v;
      StripKeepsPlainPrefix(u[1..], v);
      assert u == [u[0]] + u[1..];
    } else {
      assert u + v == v;
    }
  }

  /** A string without ESC is returned unchanged. */
  lemma StripWithoutEscUnchanged(s: seq<char>)
    requires ESC !in s
    ensures Strip(s) == s
  {
    StripKeepsPlainPrefix(s, []);
    assert s + [] == s;
  }

  /** The colour-coded example: both SGR sequences are removed. */
  lemma StripColouredHello()
    ensures Strip("\U{1B}[31mHello\U{1B}[0m") == "Hello"
  {
    assert ESC !in "Hello";
    var open, close := "\U{1B}[31m", "\U{1B}[0m";
    assert ShapedAt(open, 4);
    assert ShapedAt(close, 3);
    assert "\U{1B}[31mHello\U{1B}[0m" == open + ("Hello" + close);
    StripDeletesLeadingEscape(open, "Hello" + close);
    StripKeepsPlainPrefix("Hello", close);
    StripDeletesLeadingEscape(close, []);
    assert close + [] == close;
  }

  /** The output is a subsequence of the input, hence never longer. */
  lemma {:induction false} StripIsSubsequence(s: seq<char>)
    ensures IsSubsequence(Strip(s), s)
    ensures |Strip(s)| <= |s|
    decreases |s|
  {
    if s != [] {
      match MatchLength(s)
      case Some(n) =>
        StripIsSubsequence(s[n..]);
        SubsequenceOfSuffix(Strip(s[n..]), s, n);
      case None =>
        StripIsSubsequence(s[1..]);
        assert ([s[0]] + Strip(s[1..]))[1..] == Strip(s[1..]);
    }
  }

  lemma {:induction false} SubsequenceOfSuffix(a: seq<char>, b: seq<char>, n: nat)
    requires n <= |b| && IsSubsequence(a, b[n..])
    ensures IsSubsequence(a, b)
    decreases n
  {
    if n > 0 {
      assert b[1..][n - 1..] == b[n..];
      SubsequenceOfSuffix(a, b[1..], n - 1);
      if a != [] && a[0] == b[0] {
        SubsequenceDropFront(a, b[1..]);
      }
    }
  }

  lemma {:induction false} SubsequenceDropFront(a: seq<char>, b: seq<char>)
    requires a != [] && IsSubsequence(a, b)
    ensures IsSubsequence(a[1..], b)
    decreases |b|
  {
    if a[0] != b[0] {
      SubsequenceDropFront(a, b[1..]);
      if a[1..] != [] && a[1..][0] == b[0] {
        SubsequenceDropFront(a[1..], b[1..]);
      }
    } else if a[1..] != [] && a[1..][0] != b[0] {
      // IsSubsequence(a[1..], b[1..]) already holds
    } else if a[1..] != [] {
      SubsequenceDropFront(a[1..], b[1..]);
    }
  }

  /** With no escape sequence anywhere in it, the input comes back whole. */
  lemma {:induction false} StripUnchangedWithoutEscape(s: seq<char>)
    requires !ContainsEscape(s)
    ensures Strip(s) == s
    decreases |s|
  {
    if s != [] {
      assert forall m :: 0 <= m <= |s| ==> s[..m] == s[0..m];
      assert MatchLength(s) == None;
      forall i, n | 0 <= i <= n <= |s| - 1
        ensures !IsEscape(s[1..][i..n])
      {
        SliceOfSuffix(s, 1, i, n);
      }
      StripUnchangedWithoutEscape(s[1..]);
      assert [s[0]] + s[1..] == s;
    }
  }

  /** With an escape sequence somewhere in it, the input gets shorter. */
  lemma {:induction false} StripShortensWithEscape(s: seq<char>)
    requires ContainsEscape(s)
    ensures |Strip(s)| < |s|
    decreases |s|
  {
    var i, n :| 0 <= i <= n <= |s| && IsEscape(s[i..n]);
    match MatchLength(s)
    case Some(m) =>
      StripIsSubsequence(s[m..]);
    case None =>
      assert s[0..n] == s[..n];
      SliceOfSuffix(s, 1, i - 1, n - 1);
      StripShortensWithEscape(s[1..]);
  }

  /** Strip changes its input exactly when an escape sequence occurs in it. */
  lemma StripChangesIffEscape(s: seq<char>)
    ensures Strip(s) == s <==> !ContainsEscape(s)
  {
    if ContainsEscape(s) {
      StripShortensWithEscape(s);
    } else {
      StripUnchangedWithoutEscape(s);
    }
  }

  /** Removing a sequence can bring a new one together, so Strip is not
      idempotent. */
  lemma StripNotIdempotent()
    ensures Strip("\U{1B}\U{1B}[m[m") == "\U{1B}[m"
    ensures Strip(Strip("\U{1B}\U{1B}[m[m")) == ""
  {
    assert ESC !in "[m";
    var inner := "\U{1B}[m";
    assert ShapedAt(inner, 2);
    assert !IsEscape("\U{1B}\U{1B}[m[m"[..3]);
    assert "\U{1B}\U{1B}[m[m"[1..] == inner + "[m";
    StripDeletesLeadingEscape(inner, "[m");
    StripWithoutEscUnchanged("[m");
    StripDeletesLeadingEscape(inner, []);
    assert inner + [] == inner;
  }

  /** A sequence cut in two by a chunk boundary is not recognised in either
      chunk: stripping chunk by chunk leaks it. */
  lemma StripLeaksAcrossChunks()
    ensures Strip("\U{1B}[3" + "1mHi") == "Hi"
    ensures Strip("\U{1B}[3") + Strip("1mHi") == "\U{1B}[31mHi"
  {
    assert ESC !in "Hi" && ESC !in "1mHi";
    var sgr := "\U{1B}[31m";
    assert ShapedAt(sgr, 4);
    assert "\U{1B}[3" + "1mHi" == sgr + "Hi";
    StripDeletesLeadingEscape(sgr, "Hi");
    StripWithoutEscUnchanged("Hi");
    StripWithoutEscUnchanged("1mHi");
    StripKeepsTruncatedSequence();
  }

  /** ESC [ 3 lacks its final byte, so nothing in it is removed. */
  lemma StripKeepsTruncatedSequence()
    ensures Strip("\U{1B}[3") == "\U{1B}[3"
  {
    assert ESC !in "[3";
    var a := "\U{1B}[3";
    assert !IsFinal(a[2]);
    assert forall n :: 0 <= n <= |a| ==> !IsEscape(a[..n]);
    assert a == [a[0]] + "[3";
    StripKeepsNonEscapeStart(a[0], "[3");
    StripWithoutEscUnchanged("[3");
  }

  /** If no escape sequence straddles position k, the scan stops there. */
  lemma {:induction false} NoSpanScanVisits(s: seq<char>, k: nat)
    requires k <= |s| && !SpansSplit(s, k)
    ensures ScanVisits(s, k)
    decreases |s|
  {
    if k > 0 {
      match MatchLength(s)
      case Some(n) =>
        assert s[0..n] == s[..n];
        forall i, m | 0 <= i < k - n < m <= |s| - n
          ensures !IsEscape(s[n..][i..m])
        {
          SliceOfSuffix(s, n, i, m);
        }
        NoSpanScanVisits(s[n..], k - n);
      case None =>
        forall i, m | 0 <= i < k - 1 < m <= |s| - 1
          ensures !IsEscape(s[1..][i..m])
        {
          SliceOfSuffix(s, 1, i, m);
        }
        NoSpanScanVisits(s[1..], k - 1);
    }
  }

  /** Stripping two chunks separately agrees with stripping their
      concatenation when the scan of the whole stops at the boundary. */
  lemma {:induction false} StripConcatAtVisitedSplit(a: seq<char>, b: seq<char>)
    requires ScanVisits(a + b, |a|)
    ensures Strip(a + b) == Strip(a) + Strip(b)
    decreases |a|
  {
    if a == [] {
      assert a + b == b;
    } else {
      MatchLengthExtend(a, b);
      match MatchLength(a + b)
      case Some(n) =>
        assert (a + b)[n..] == a[n..] + b;
        StripConcatAtVisitedSplit(a[n..], b);
      case None =>
        assert (a + b)[1..] == a[1..] + b;
        StripConcatAtVisitedSplit(a[1..], b);
    }
  }

  /** Chunk-wise stripping is exact when no sequence straddles the boundary. */
  lemma StripConcatWithoutSpan(a: seq<char>, b: seq<char>)
    requires !SpansSplit(a + b, |a|)
    ensures Strip(a + b) == Strip(a) + Strip(b)
  {
    NoSpanScanVisits(a + b, |a|);
    StripConcatAtVisitedSplit(a, b);
  }

  /** ESC occurs in an escape sequence only as its first character. */
  lemma EscapeHasInnerEscFree(s: seq<char>, i: nat, n: nat)
    requires i <= n <= |s|
    ensures IsEscape(s[i..n]) ==> forall j :: i < j < n ==> s[j] != ESC
  {
    if IsEscape(s[i..n]) {
      var k: nat :| ShapedAt(s[i..n], k);
      forall j | i < j < n
        ensures s[j] != ESC
      {
        assert s[i..n][j - i] == s[j];
      }
    }
  }

  /** A non-empty proper prefix of an escape sequence is no escape sequence
      at its own front. */
  lemma ProperPrefixUnmatched(t: seq<char>, l: nat)
    requires IsEscape(t) && l < |t|
    ensures MatchLength(t[..l]) == None
  {
    MatchLengthExtend(t[..l], t[l..]);
    assert t[..l] + t[l..] == t;
    assert t[..|t|] == t;
  }

  /** A non-empty proper prefix of an escape sequence is kept whole: it is
      no escape sequence itself and holds no second ESC. */
  lemma StripKeepsProperPrefix(t: seq<char>, l: nat)
    requires IsEscape(t) && 1 <= l < |t|
    ensures Strip(t[..l]) == t[..l]
  {
    var p := t[..l];
    ProperPrefixUnmatched(t, l);
    assert t[0..|t|] == t;
    EscapeHasInnerEscFree(t, 0, |t|);
    assert ESC !in p[1..];
    StripWithoutEscUnchanged(p[1..]);
    assert Strip(p) == [p[0]] + Strip(p[1..]);
    assert p == [p[0]] + p[1..];
  }

  /** The scan reaches the start of every escape sequence that occurs in s:
      a sequence it steps over would have to contain a second ESC. */
  lemma {:induction false} OccurrenceVisited(s: seq<char>, i: nat, n: nat)
    requires i <= n <= |s| && IsEscape(s[i..n])
    ensures ScanVisits(s, i)
    decreases |s|
  {
    if i > 0 {
      assert s[i..n][0] == s[i];
      match MatchLength(s)
      case Some(m) =>
        assert s[..m] == s[0..m];
        EscapeHasInnerEscFree(s, 0, m);
        SliceOfSuffix(s, m, i - m, n - m);
        OccurrenceVisited(s[m..], i - m, n - m);
      case None =>
        SliceOfSuffix(s, 1, i - 1, n - 1);
        OccurrenceVisited(s[1..], i - 1, n - 1);
    }
  }

  /** Chunk-wise stripping goes wrong whenever a sequence straddles the
      boundary: the whole deletes it, the two chunks keep all of it. */
  lemma StripConcatWithSpanDiffers(a: seq<char>, b: seq<char>)
    requires SpansSplit(a + b, |a|)
    ensures |Strip(a + b)| < |Strip(a)| + |Strip(b)|
    ensures Strip(a + b) != Strip(a) + Strip(b)
  {
    var i, n :| 0 <= i < |a| < n <= |a + b| && IsEscape((a + b)[i..n]);
    var t := (a + b)[i..n];
    var u := b[n - |a|..];
    StripWholeAtSpan(a, b, i, n);
    StripFirstChunkAtSpan(a, b, i, n);
    StripSecondChunkAtSpan(a, b, i, n);
    assert |Strip(a + b)| == |Strip(a[..i])| + |Strip(u)|;
    assert |Strip(a)| + |Strip(b)| == |Strip(a[..i])| + |t| + |Strip(u)|;
  }

  /** The whole: the scan reaches i and deletes the straddling sequence. */
  lemma StripWholeAtSpan(a: seq<char>, b: seq<char>, i: nat, n: nat)
    requires i < |a| < n <= |a + b| && IsEscape((a + b)[i..n])
    ensures Strip(a + b) == Strip(a[..i]) + Strip(b[n - |a|..])
  {
    StripAtOccurrence(a + b, i, n);
    assert (a + b)[..i] == a[..i];
    assert (a + b)[n..] == b[n - |a|..];
  }

  /** The scan keeps what lies before an escape sequence it reaches, deletes
      the sequence, and goes on after it. */
  lemma StripAtOccurrence(s: seq<char>, i: nat, n: nat)
    requires i <= n <= |s| && IsEscape(s[i..n])
    ensures Strip(s) == Strip(s[..i]) + Strip(s[n..])
  {
    var p, q := s[..i], s[i..];
    OccurrenceVisited(s, i, n);
    assert s == p + q && |p| == i;
    StripConcatAtVisitedSplit(p, q);
    StripDeletesOccurrence(s, i, n);
  }

  /** An escape sequence at position i of s is deleted by the scan from i. */
  lemma StripDeletesOccurrence(s: seq<char>, i: nat, n: nat)
    requires i <= n <= |s| && IsEscape(s[i..n])
    ensures Strip(s[i..]) == Strip(s[n..])
  {
    assert s[i..] == s[i..n] + s[n..];
    StripDeletesLeadingEscape(s[i..n], s[n..]);
  }

  /** The first chunk: its scan also reaches i and keeps a[i..] whole. */
  lemma StripFirstChunkAtSpan(a: seq<char>, b: seq<char>, i: nat, n: nat)
    requires i < |a| < n <= |a + b| && IsEscape((a + b)[i..n])
    ensures Strip(a) == Strip(a[..i]) + a[i..]
  {
    assert (a + b)[i..n][0] == a[i];
    forall p, q | 0 <= p < i < q <= |a|
      ensures !IsEscape(a[p..q])
    {
      EscapeHasInnerEscFree(a, p, q);
    }
    NoSpanScanVisits(a, i);
    assert a == a[..i] + a[i..];
    StripConcatAtVisitedSplit(a[..i], a[i..]);
    StripKeepsCutOccurrence(a + b, i, |a|, n);
    assert (a + b)[i..|a|] == a[i..];
  }

  /** The part of an escape sequence before a cut is kept whole. */
  lemma StripKeepsCutOccurrence(s: seq<char>, i: nat, k: nat, n: nat)
    requires i < k < n <= |s| && IsEscape(s[i..n])
    ensures Strip(s[i..k]) == s[i..k]
  {
    assert s[i..n][..k - i] == s[i..k];
    StripKeepsProperPrefix(s[i..n], k - i);
  }

  /** The second chunk: the sequence's tail in b holds no ESC and is kept. */
  lemma StripSecondChunkAtSpan(a: seq<char>, b: seq<char>, i: nat, n: nat)
    requires i < |a| < n <= |a + b| && IsEscape((a + b)[i..n])
    ensures Strip(b) == b[..n - |a|] + Strip(b[n - |a|..])
  {
    EscapeHasInnerEscFree(a + b, i, n);
    var tail := b[..n - |a|];
    forall j | 0 <= j < |tail|
      ensures tail[j] != ESC
    {
      assert tail[j] == (a + b)[|a| + j];
    }
    assert ESC !in tail;
    assert b == b[..n - |a|] + b[n - |a|..];
    StripKeepsPlainPrefix(b[..n - |a|], b[n - |a|..]);
  }
}
