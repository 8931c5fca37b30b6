/** The Python string operations the application relies on: `str.upper`
    (restricted to ASCII letters), the `in` substring test, `str.strip()` with
    no argument, and `str.join`. */
module Text {

  /** `c.upper()` for one character, on the ASCII letters only. */
  function UpperChar(c: char): char
  {
    if 'a' <= c <= 'z' then (c as int - 32) as char else c
  }

  /** `s.upper()`, character by character. */
  function Upper(s: string): string
  {
    seq(|s|, i requires 0 <= i < |s| => UpperChar(s[i]))
  }

  lemma UpperSlice(s: string, i: nat, j: nat)
    requires i <= j <= |s|
    ensures Upper(s)[i..j] == Upper(s[i..j])
  {
    assert forall k :: 0 <= k < j - i ==> Upper(s)[i..j][k] == UpperChar(s[i + k]);
  }

  /** `p` occurs in `s` starting at index `i`. */
  predicate OccursAt(s: string, i: nat, p: string)
  {
    i + |p| <= |s| && s[i..i + |p|] == p
  }

  /** Python's `p in s` for two strings. */
  predicate Contains(s: string, p: string)
  {
    exists i :: 0 <= i <= |s| - |p| && OccursAt(s, i, p)
  }

  /** `p` occurs in `s` at `i` when the letter case of `s` is ignored. */
  predicate OccursAtIgnoringCase(s: string, i: nat, p: string)
  {
    i + |p| <= |s| && Upper(s[i..i + |p|]) == p
  }

  /** Looking for `p` in the upper-cased text is the same as looking for a
      stretch of the original text that upper-cases to `p`. */
  lemma ContainsUpper(s: string, p: string)
    ensures Contains(Upper(s), p) <==> exists i :: 0 <= i <= |s| - |p| && OccursAtIgnoringCase(s, i, p)
  {
    if Contains(Upper(s), p) {
      var i :| 0 <= i <= |s| - |p| && OccursAt(Upper(s), i, p);
      UpperSlice(s, i, i + |p|);
      assert OccursAtIgnoringCase(s, i, p);
    }
    if exists i :: 0 <= i <= |s| - |p| && OccursAtIgnoringCase(s, i, p) {
      var i :| 0 <= i <= |s| - |p| && OccursAtIgnoringCase(s, i, p);
      UpperSlice(s, i, i + |p|);
      assert OccursAt(Upper(s), i, p);
    }
  }

  /** Python's `str.isspace()` for one character: the characters that
      `str.strip()` removes when it is given no argument. */
  predicate IsSpace(c: char)
  {
    || c == '\t' || c == '\n' || c == '\U{B}' || c == '\U{C}' || c == '\r'
    || ('\U{1C}' <= c <= '\U{1F}')
    || c == ' ' || c == '\U{85}' || c == '\U{A0}' || c == '\U{1680}'
    || ('\U{2000}' <= c <= '\U{200A}')
    || c == '\U{2028}' || c == '\U{2029}' || c == '\U{202F}' || c == '\U{205F}' || c == '\U{3000}'
  }

  predicate AllSpace(s: string)
  {
    forall i :: 0 <= i < |s| ==> IsSpace(s[i])
  }

  /** First index at or after `i` that does not hold whitespace. */
  function SkipSpace(s: string, i: nat): (k: nat)
    requires i <= |s|
    ensures i <= k <= |s|
    ensures forall j :: i <= j < k ==> IsSpace(s[j])
    ensures k < |s| ==> !IsSpace(s[k])
    decreases |s| - i
  {
    if i < |s| && IsSpace(s[i]) then SkipSpace(s, i + 1) else i
  }

  /** Walking back from `j`, but not below `lo`, the end of the last
      non-whitespace character. */
  function SkipSpaceBack(s: string, lo: nat, j: nat): (k: nat)
    requires lo <= j <= |s|
    ensures lo <= k <= j
    ensures forall m :: k <= m < j ==> IsSpace(s[m])
    ensures lo < k ==> !IsSpace(s[k - 1])
    decreases j
  {
    if lo < j && IsSpace(s[j - 1]) then SkipSpaceBack(s, lo, j - 1) else j
  }

  /** The slice bounds `s.strip()` keeps: leading whitespace skipped, then
      trailing whitespace, never crossing the first bound. */
  function StripBounds(s: string): (b: (nat, nat))
    ensures b.0 <= b.1 <= |s|
  {
    var i := SkipSpace(s, 0);
    (i, SkipSpaceBack(s, i, |s|))
  }

  /** What `strip()` keeps: everything before the first bound and after the
      second is whitespace, the kept text neither begins nor ends with
      whitespace, and nothing is kept exactly when `s` is all whitespace. */
  lemma StripKeepsCore(s: string)
    ensures var b := StripBounds(s);
      && AllSpace(s[..b.0]) && AllSpace(s[b.1..])
      && (b.0 < b.1 ==> !IsSpace(s[b.0]) && !IsSpace(s[b.1 - 1]))
      && (b.0 == b.1 <==> AllSpace(s))
  {
    var b := StripBounds(s);
    assert forall m :: 0 <= m < b.0 ==> s[..b.0][m] == s[m];
    assert forall m :: 0 <= m < |s| - b.1 ==> s[b.1..][m] == s[b.1 + m];
  }

  /** `s.strip()`. */
  function Strip(s: string): string
  {
    s[StripBounds(s).0..StripBounds(s).1]
  }

  /** Stripping twice removes nothing more than stripping once. */
  lemma StripIdempotent(s: string)
    ensures Strip(Strip(s)) == Strip(s)
  {
    StripKeepsCore(s);
    var r := Strip(s);
    var b := StripBounds(r);
    if |r| > 0 {
      assert !IsSpace(r[0]) && !IsSpace(r[|r| - 1]);
      assert b == (0, |r|);
    }
  }

  /** Skipping forward over a stretch of whitespace lands where skipping
      from its end lands. */
  lemma {:induction false} SkipSpaceOver(s: string, i: nat, j: nat)
    requires i <= j <= |s|
    requires forall k :: i <= k < j ==> IsSpace(s[k])
    ensures SkipSpace(s, i) == SkipSpace(s, j)
    decreases j - i
  {
    if i < j {
      SkipSpaceOver(s, i + 1, j);
    }
  }

  /** Skipping backwards over a stretch of whitespace lands where skipping
      from its start lands. */
  lemma {:induction false} SkipSpaceBackOver(s: string, lo: nat, i: nat, j: nat)
    requires lo <= i <= j <= |s|
    requires forall k :: i <= k < j ==> IsSpace(s[k])
    ensures SkipSpaceBack(s, lo, j) == SkipSpaceBack(s, lo, i)
    decreases j - i
  {
    if i < j {
      SkipSpaceBackOver(s, lo, i, j - 1);
    }
  }

  /** Skipping forward inside `t` and inside `pre + t + post` agree up to the
      shift by `|pre|`; running off the end of `t` runs through `post`. */
  lemma {:induction false} SkipSpaceShift(pre: string, t: string, post: string, i: nat)
    requires AllSpace(post) && i <= |t|
    ensures var k := SkipSpace(t, i);
      SkipSpace(pre + t + post, |pre| + i) == if k < |t| then |pre| + k else |pre + t + post|
    decreases |t| - i
  {
    var x := pre + t + post;
    if i < |t| {
      assert x[|pre| + i] == t[i];
      if IsSpace(t[i]) {
        SkipSpaceShift(pre, t, post, i + 1);
      }
    }
  }

  /** Skipping backwards inside `t` and inside `pre + t + post` agree up to
      the shift by `|pre|`. */
  lemma {:induction false} SkipSpaceBackShift(pre: string, t: string, post: string, lo: nat, j: nat)
    requires lo <= j <= |t|
    ensures SkipSpaceBack(pre + t + post, |pre| + lo, |pre| + j) == |pre| + SkipSpaceBack(t, lo, j)
    decreases j
  {
    if lo < j {
      assert (pre + t + post)[|pre| + j - 1] == t[j - 1];
      SkipSpaceBackShift(pre, t, post, lo, j - 1);
    }
  }

  /** Where `strip()` starts in a padded text: after the padding, at the
      start of the stripped text, or at the very end if `t` is all whitespace. */
  lemma PaddedStart(pre: string, t: string, post: string)
    requires AllSpace(pre) && AllSpace(post)
    ensures var x, b := pre + t + post, StripBounds(t).0;
      StripBounds(x).0 == if b < |t| then |pre| + b else |x|
  {
    var x := pre + t + post;
    assert forall k :: 0 <= k < |pre| ==> x[k] == pre[k];
    SkipSpaceOver(x, 0, |pre|);
    SkipSpaceShift(pre, t, post, 0);
  }

  /** Where `strip()` ends in a padded text whose core is not all whitespace:
      at the end of the stripped text, shifted by the padding. */
  lemma PaddedEnd(pre: string, t: string, post: string)
    requires AllSpace(pre) && AllSpace(post)
    requires StripBounds(t).0 < |t|
    ensures StripBounds(pre + t + post).1 == |pre| + StripBounds(t).1
  {
    var x := pre + t + post;
    var n := |pre|;
    PaddedStart(pre, t, post);
    var lo := StripBounds(x).0;
    assert forall k :: n + |t| <= k < |x| ==> x[k] == post[k - n - |t|];
    SkipSpaceBackOver(x, lo, n + |t|, |x|);
    SkipSpaceBackShift(pre, t, post, StripBounds(t).0, |t|);
  }

  /** Whitespace around a text is exactly what `strip()` takes away:
      padding a text with whitespace on either side does not change its
      stripped form. */
  lemma StripPadding(pre: string, t: string, post: string)
    requires AllSpace(pre) && AllSpace(post)
    ensures Strip(pre + t + post) == Strip(t)
  {
    var x := pre + t + post;
    var n := |pre|;
    var bt := StripBounds(t);
    PaddedStart(pre, t, post);
    if bt.0 < |t| {
      PaddedEnd(pre, t, post);
      assert x[n..n + |t|] == t;
      assert x[n + bt.0..n + bt.1] == x[n..n + |t|][bt.0..bt.1];
    }
  }

  /** `sep.join(parts)`. */
  function Join(parts: seq<string>, sep: string): string
    decreases |parts|
  {
    if |parts| == 0 then ""
    else if |parts| == 1 then parts[0]
    else Join(parts[..|parts| - 1], sep) + sep + parts[|parts| - 1]
  }

  /** Joining two non-empty lists puts one separator between their joins. */
  lemma {:induction false} JoinAppend(a: seq<string>, b: seq<string>, sep: string)
    requires |a| > 0 && |b| > 0
    ensures Join(a + b, sep) == Join(a, sep) + sep + Join(b, sep)
    decreases |b|
  {
    var ab := a + b;
    if |b| == 1 {
      assert ab[..|ab| - 1] == a;
    } else {
      var b' := b[..|b| - 1];
      assert ab[..|ab| - 1] == a + b';
      JoinAppend(a, b', sep);
    }
  }

  /** The total length of the parts. */
  function TotalLength(parts: seq<string>): nat
    decreases |parts|
  {
    if |parts| == 0 then 0 else TotalLength(parts[..|parts| - 1]) + |parts[|parts| - 1]|
  }

  /** The join is as long as the parts together plus one separator between
      each two neighbouring parts. */
  lemma {:induction false} JoinLength(parts: seq<string>, sep: string)
    requires |parts| > 0
    ensures |Join(parts, sep)| == TotalLength(parts) + (|parts| - 1) * |sep|
    decreases |parts|
  {
    if |parts| > 1 {
      JoinLength(parts[..|parts| - 1], sep);
      assert (|parts| - 1) * |sep| == (|parts| - 2) * |sep| + |sep|;
    }
  }
}
