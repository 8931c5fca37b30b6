/** The test suite's `extract_code`: for one sender, every python code block
    `PY_CODE_RE = re.compile(r"```python(.*?)```", re.S)` finds in that
    sender's string messages, joined with blank lines.

    `findall` is modelled as the scan the regular-expression engine performs:
    from left to right, at each position try the pattern; the lazy `.*?`
    stops at the first closing fence, and `re.S` lets it run over newlines
    (no character is excluded from the body); after a match the scan resumes
    behind its closing fence; where no match starts the scan moves one
    character on. */
module CodeExtract {
  import opened Messages
  import opened Text

  const Opener: string := "```python"
  const Fence: string := "```"
  const Separator: string := "\n\n"

  /** Three backticks at `i`, compared character by character. */
  predicate FenceAt(s: string, i: nat)
  {
    i + 3 <= |s| && s[i] == '`' && s[i + 1] == '`' && s[i + 2] == '`'
  }

  /** The opener at `i`: three backticks followed by `python`. */
  predicate OpenerAt(s: string, i: nat)
  {
    && FenceAt(s, i) && i + 9 <= |s|
    && s[i + 3] == 'p' && s[i + 4] == 'y' && s[i + 5] == 't'
    && s[i + 6] == 'h' && s[i + 7] == 'o' && s[i + 8] == 'n'
  }

  /** The character tests are the substring tests for the two literals. */
  lemma FenceAtIff(s: string, i: nat)
    ensures FenceAt(s, i) <==> OccursAt(s, i, Fence)
  {
    if i + |Fence| <= |s| {
      var w := s[i..i + |Fence|];
      assert w[0] == s[i] && w[1] == s[i + 1] && w[2] == s[i + 2];
    }
  }

  lemma OpenerAtIff(s: string, i: nat)
    ensures OpenerAt(s, i) <==> OccursAt(s, i, Opener)
  {
    if i + |Opener| <= |s| {
      var w := s[i..i + |Opener|];
      assert w[0] == s[i] && w[1] == s[i + 1] && w[2] == s[i + 2];
      assert w[3] == s[i + 3] && w[4] == s[i + 4] && w[5] == s[i + 5];
      assert w[6] == s[i + 6] && w[7] == s[i + 7] && w[8] == s[i + 8];
    }
  }

  /** Where the lazy body that begins at `from` ends: the first closing fence
      at or after `from`, if there is one. */
  function FindClose(s: string, from: nat): (r: Option<nat>)
    ensures r.Some? ==> from <= r.value && r.value + |Fence| <= |s| && FenceAt(s, r.value)
    decreases |s| - from
  {
    if from + |Fence| > |s| then None
    else if FenceAt(s, from) then Some(from)
    else FindClose(s, from + 1)
  }

  /** The fence found is the first one, and none is found only when there is
      none to find. */
  lemma {:induction false} FindCloseFirst(s: string, from: nat)
    ensures var r := FindClose(s, from);
      && (r.Some? ==> forall j :: from <= j < r.value ==> !FenceAt(s, j))
      && (r.None? <==> forall j :: from <= j ==> !FenceAt(s, j))
    decreases |s| - from
  {
    if from + |Fence| <= |s| && !FenceAt(s, from) {
      FindCloseFirst(s, from + 1);
    }
  }

  /** One match of the pattern: the opener at `open`, the captured body from
      `open + |Opener|` up to `close`, the closing fence at `close`. */
  datatype Span = Span(open: nat, close: nat)

  /** `sp` is a match of the pattern in `s`: an opener, then a body holding no
      closing fence (the lazy `.*?`), then a closing fence. */
  predicate IsMatch(s: string, sp: Span)
  {
    && OpenerAt(s, sp.open)
    && sp.open + |Opener| <= sp.close
    && FenceAt(s, sp.close)
    && forall j :: sp.open + |Opener| <= j < sp.close ==> !FenceAt(s, j)
  }

  /** The pattern matches starting at `p`: an opener there, and a closing
      fence somewhere after it. */
  ghost predicate CanMatchAt(s: string, p: nat)
  {
    OpenerAt(s, p) && exists q :: p + |Opener| <= q && FenceAt(s, q)
  }

  /** The matches `finditer` reports from position `pos` on. */
  function Matches(s: string, pos: nat): seq<Span>
    requires pos <= |s|
    decreases |s| - pos
  {
    if pos == |s| then []
    else if !OpenerAt(s, pos) then Matches(s, pos + 1)
    else match FindClose(s, pos + |Opener|)
      case None => Matches(s, pos + 1)
      case Some(close) => [Span(pos, close)] + Matches(s, close + |Fence|)
  }

  /** Where the k-th stretch between matches begins and ends: before the first
      match, between two, and after the last. */
  function GapStart(pos: nat, m: seq<Span>, k: nat): nat
    requires k <= |m|
  {
    if k == 0 then pos else m[k - 1].close + |Fence|
  }

  function GapEnd(s: string, m: seq<Span>, k: nat): nat
    requires k <= |m|
  {
    if k == |m| then |s| else m[k].open
  }

  /** The reference meaning of `findall` from `pos`: every element is a match,
      they follow one another without overlapping, and no match starts in any
      stretch the scan passed over — before the first, between two, or after
      the last. */
  ghost predicate LeftmostMatches(s: string, pos: nat, m: seq<Span>)
  {
    && (forall k :: 0 <= k < |m| ==> IsMatch(s, m[k]))
    && (forall k :: 0 <= k <= |m| ==> GapStart(pos, m, k) <= GapEnd(s, m, k))
    && (forall k, p :: 0 <= k <= |m| && GapStart(pos, m, k) <= p < GapEnd(s, m, k) ==> !CanMatchAt(s, p))
  }

  /** No match starts anywhere in `s[lo..hi]`. */
  ghost predicate NoMatchIn(s: string, lo: nat, hi: nat)
  {
    forall p :: lo <= p < hi ==> !CanMatchAt(s, p)
  }

  /** The scan's test at one position agrees with the reference: a match
      starts there exactly when an opener does and a closing fence follows it. */
  lemma CanMatchIff(s: string, pos: nat)
    ensures CanMatchAt(s, pos) <==> OpenerAt(s, pos) && FindClose(s, pos + |Opener|).Some?
  {
    FindCloseFirst(s, pos + |Opener|);
    if OpenerAt(s, pos) && FindClose(s, pos + |Opener|).Some? {
      var q := FindClose(s, pos + |Opener|).value;
      assert pos + |Opener| <= q && FenceAt(s, q);
    }
  }

  lemma LeftmostNil(s: string, pos: nat)
    requires pos <= |s|
    requires NoMatchIn(s, pos, |s|)
    ensures LeftmostMatches(s, pos, [])
  {
  }

  lemma LeftmostCons(s: string, pos: nat, sp: Span, rest: seq<Span>)
    requires IsMatch(s, sp) && pos <= sp.open
    requires NoMatchIn(s, pos, sp.open)
    requires LeftmostMatches(s, sp.close + |Fence|, rest)
    ensures LeftmostMatches(s, pos, [sp] + rest)
  {
    var m := [sp] + rest;
    forall k | 1 <= k <= |m|
      ensures GapStart(pos, m, k) == GapStart(sp.close + |Fence|, rest, k - 1)
      ensures GapEnd(s, m, k) == GapEnd(s, rest, k - 1)
    {
    }
    forall k | 0 <= k < |m| ensures IsMatch(s, m[k]) {
      if k > 0 {
        assert m[k] == rest[k - 1];
      }
    }
    forall k, p | 0 <= k <= |m| && GapStart(pos, m, k) <= p < GapEnd(s, m, k)
      ensures !CanMatchAt(s, p)
    {
      if k > 0 {
        assert GapStart(sp.close + |Fence|, rest, k - 1) <= p < GapEnd(s, rest, k - 1);
      }
    }
  }

  lemma LeftmostSkip(s: string, pos: nat, m: seq<Span>)
    requires !CanMatchAt(s, pos)
    requires LeftmostMatches(s, pos + 1, m)
    ensures LeftmostMatches(s, pos, m)
  {
    forall k | 1 <= k <= |m| ensures GapStart(pos, m, k) == GapStart(pos + 1, m, k) { }
    forall k, p | 0 <= k <= |m| && GapStart(pos, m, k) <= p < GapEnd(s, m, k)
      ensures !CanMatchAt(s, p)
    {
      if p != pos {
        assert GapStart(pos + 1, m, k) <= p < GapEnd(s, m, k);
      }
    }
  }

  /** The scan finds the leftmost, non-overlapping matches and misses none. */
  lemma {:induction false} MatchesAreLeftmost(s: string, pos: nat)
    requires pos <= |s|
    ensures LeftmostMatches(s, pos, Matches(s, pos))
    decreases |s| - pos
  {
    if pos == |s| {
      LeftmostNil(s, pos);
    } else if OpenerAt(s, pos) && FindClose(s, pos + |Opener|).Some? {
      var close := FindClose(s, pos + |Opener|).value;
      MatchesAtOpener(s, pos, close);
      MatchesAreLeftmost(s, close + |Fence|);
      LeftmostCons(s, pos, Span(pos, close), Matches(s, close + |Fence|));
    } else {
      CanMatchIff(s, pos);
      MatchesSkip(s, pos);
      MatchesAreLeftmost(s, pos + 1);
      LeftmostSkip(s, pos, Matches(s, pos + 1));
    }
  }

  /** Taking a reference list apart: its first element is the first match
      after `pos`, and the rest is the reference list from behind it. */
  lemma LeftmostHead(s: string, pos: nat, m: seq<Span>)
    requires LeftmostMatches(s, pos, m) && |m| > 0
    ensures IsMatch(s, m[0]) && pos <= m[0].open
    ensures NoMatchIn(s, pos, m[0].open)
    ensures LeftmostMatches(s, m[0].close + |Fence|, m[1..])
  {
    var rest := m[1..];
    assert GapStart(pos, m, 0) <= GapEnd(s, m, 0);
    forall k | 0 <= k <= |rest|
      ensures GapStart(m[0].close + |Fence|, rest, k) == GapStart(pos, m, k + 1)
      ensures GapEnd(s, rest, k) == GapEnd(s, m, k + 1)
    {
    }
    forall k | 0 <= k < |rest| ensures IsMatch(s, rest[k]) {
      assert rest[k] == m[k + 1];
    }
    forall k, p | 0 <= k <= |rest| && GapStart(m[0].close + |Fence|, rest, k) <= p < GapEnd(s, rest, k)
      ensures !CanMatchAt(s, p)
    {
      assert GapStart(pos, m, k + 1) <= p < GapEnd(s, m, k + 1);
    }
    forall p | pos <= p < m[0].open ensures !CanMatchAt(s, p) {
      assert GapStart(pos, m, 0) <= p < GapEnd(s, m, 0);
    }
  }

  /** Where a match can start at `pos`, the reference list opens with it. */
  lemma LeftmostFirst(s: string, pos: nat, m: seq<Span>)
    requires pos <= |s|
    requires LeftmostMatches(s, pos, m) && CanMatchAt(s, pos)
    ensures |m| > 0 && m[0].open == pos
  {
    assert pos < |s|;
    assert GapStart(pos, m, 0) <= pos;
  }

  /** Where no match can start at `pos`, the reference list also describes
      the text from `pos + 1`. */
  lemma LeftmostUnskip(s: string, pos: nat, m: seq<Span>)
    requires pos < |s|
    requires LeftmostMatches(s, pos, m) && !CanMatchAt(s, pos)
    ensures LeftmostMatches(s, pos + 1, m)
  {
    if |m| > 0 {
      var sp := m[0];
      assert IsMatch(s, sp);
      assert CanMatchAt(s, sp.open) by {
        assert sp.open + |Opener| <= sp.close && FenceAt(s, sp.close);
      }
      assert GapStart(pos, m, 0) <= GapEnd(s, m, 0);
      assert sp.open != pos;
    }
    forall k | 1 <= k <= |m| ensures GapStart(pos, m, k) == GapStart(pos + 1, m, k) { }
    forall k, p | 0 <= k <= |m| && GapStart(pos + 1, m, k) <= p < GapEnd(s, m, k)
      ensures !CanMatchAt(s, p)
    {
      assert GapStart(pos, m, k) <= p < GapEnd(s, m, k);
    }
  }

  /** A match is determined by where it opens: its closing fence is the
      first one after the opener. */
  lemma MatchCloseIsFirstFence(s: string, sp: Span)
    requires IsMatch(s, sp)
    ensures FindClose(s, sp.open + |Opener|) == Some(sp.close)
  {
    FindCloseFirst(s, sp.open + |Opener|);
  }

  /** The reference meaning pins the scan down: the only list of spans that
      satisfies it is the one the scan produces. */
  lemma {:induction false} LeftmostMatchesUnique(s: string, pos: nat, m: seq<Span>)
    requires pos <= |s|
    requires LeftmostMatches(s, pos, m)
    ensures m == Matches(s, pos)
    decreases |s| - pos
  {
    if pos == |s| {
      if |m| > 0 {
        LeftmostHead(s, pos, m);
      }
    } else {
      CanMatchIff(s, pos);
      if CanMatchAt(s, pos) {
        var close := FindClose(s, pos + |Opener|).value;
        assert |m| > 0 && m[0] == Span(pos, close) && LeftmostMatches(s, close + |Fence|, m[1..]) by {
          LeftmostFirst(s, pos, m);
          LeftmostHead(s, pos, m);
          MatchCloseIsFirstFence(s, m[0]);
        }
        MatchesAtOpener(s, pos, close);
        LeftmostMatchesUnique(s, close + |Fence|, m[1..]);
        assert m == [m[0]] + m[1..];
      } else {
        MatchesSkip(s, pos);
        LeftmostUnskip(s, pos, m);
        LeftmostMatchesUnique(s, pos + 1, m);
      }
    }
  }

  /** The scan's step at an opener whose closing fence is found. */
  lemma MatchesAtOpener(s: string, pos: nat, close: nat)
    requires pos < |s| && OpenerAt(s, pos)
    requires FindClose(s, pos + |Opener|) == Some(close)
    ensures close + |Fence| <= |s|
    ensures IsMatch(s, Span(pos, close))
    ensures Matches(s, pos) == [Span(pos, close)] + Matches(s, close + |Fence|)
  {
    assert IsMatch(s, Span(pos, close)) by {
      FindCloseFirst(s, pos + |Opener|);
    }
  }

  /** The text a match captures: the body between opener and closing fence
      (a span that does not fit in `s`, which no match is, captures nothing). */
  function Body(s: string, sp: Span): string
  {
    if sp.open + |Opener| <= sp.close <= |s| then s[sp.open + |Opener|..sp.close] else ""
  }

  function Bodies(s: string, m: seq<Span>): seq<string>
  {
    seq(|m|, k requires 0 <= k < |m| => Body(s, m[k]))
  }

  /** The scan's matches are matches. */
  lemma MatchesAreMatches(s: string, pos: nat)
    requires pos <= |s|
    ensures forall k :: 0 <= k < |Matches(s, pos)| ==> IsMatch(s, Matches(s, pos)[k])
  {
    MatchesAreLeftmost(s, pos);
  }

  /** `PY_CODE_RE.findall(s)`: the captured bodies, left to right. */
  function Snippets(s: string): seq<string>
  {
    Bodies(s, Matches(s, 0))
  }

  /** Each snippet is the text between an opener and the first closing fence
      after that opener. */
  lemma SnippetBetweenFences(s: string, k: nat)
    requires k < |Snippets(s)|
    ensures var sp := Matches(s, 0)[k];
      && OpenerAt(s, sp.open) && FenceAt(s, sp.close)
      && FindClose(s, sp.open + |Opener|) == Some(sp.close)
      && Snippets(s)[k] == s[sp.open + |Opener|..sp.close]
  {
    MatchesAreMatches(s, 0);
    MatchCloseIsFirstFence(s, Matches(s, 0)[k]);
  }

  /** Since the body ends at the first closing fence, no snippet contains one. */
  lemma SnippetsHoldNoFence(s: string, k: nat)
    requires k < |Snippets(s)|
    ensures !Contains(Snippets(s)[k], Fence)
  {
    MatchesAreMatches(s, 0);
    var sp := Matches(s, 0)[k];
    assert IsMatch(s, sp);
    SliceWithoutFence(s, sp.open + |Opener|, sp.close);
  }

  /** A stretch of `s` where no closing fence starts does not contain one. */
  lemma SliceWithoutFence(s: string, lo: nat, hi: nat)
    requires lo <= hi <= |s|
    requires forall j :: lo <= j < hi ==> !FenceAt(s, j)
    ensures !Contains(s[lo..hi], Fence)
  {
    var b := s[lo..hi];
    forall i | 0 <= i <= |b| - |Fence| ensures !OccursAt(b, i, Fence) {
      assert lo + i + |Fence| <= hi;
      var u, v := b[i..i + |Fence|], s[lo + i..lo + i + |Fence|];
      assert forall t :: 0 <= t < |u| ==> u[t] == v[t];
      assert u == v;
      assert !FenceAt(s, lo + i);
      FenceAtIff(s, lo + i);
    }
  }

  /** Snippets appear in the order of their openers, and each one lies
      wholly before the next opener: matches never overlap. */
  lemma SnippetsInOrder(s: string, k: nat, l: nat)
    requires k < l < |Matches(s, 0)|
    ensures Matches(s, 0)[k].close + |Fence| <= Matches(s, 0)[l].open
  {
    MatchesAreLeftmost(s, 0);
    var m := Matches(s, 0);
    OrderedSpans(m, k, l, s);
  }

  lemma {:induction false} OrderedSpans(m: seq<Span>, k: nat, l: nat, s: string)
    requires k < l < |m|
    requires LeftmostMatches(s, 0, m)
    ensures m[k].close + |Fence| <= m[l].open
    decreases l - k
  {
    assert GapStart(0, m, k + 1) <= GapEnd(s, m, k + 1);
    if l > k + 1 {
      OrderedSpans(m, k + 1, l, s);
      assert IsMatch(s, m[k + 1]);
    }
  }

  /** An opener with no closing fence anywhere after it contributes nothing:
      no match opens at it or after it. */
  lemma UnclosedOpenerContributesNothing(s: string, p: nat)
    requires OpenerAt(s, p)
    requires forall q :: p + |Opener| <= q ==> !FenceAt(s, q)
    ensures forall k :: 0 <= k < |Matches(s, 0)| ==> Matches(s, 0)[k].open < p
  {
    MatchesAreLeftmost(s, 0);
    var m := Matches(s, 0);
    forall k | 0 <= k < |m| ensures m[k].open < p {
      assert IsMatch(s, m[k]);
      assert FenceAt(s, m[k].close);
    }
  }

  /** A text without an opener has no snippets. */
  lemma {:induction false} NoOpenerNoMatches(s: string, pos: nat)
    requires pos <= |s|
    requires forall i :: pos <= i < |s| ==> !OpenerAt(s, i)
    ensures Matches(s, pos) == []
    decreases |s| - pos
  {
    if pos < |s| {
      NoOpenerNoMatches(s, pos + 1);
    }
  }

  lemma NoOpenerNoSnippets(s: string)
    requires forall i :: 0 <= i < |s| ==> !OpenerAt(s, i)
    ensures Snippets(s) == []
  {
    NoOpenerNoMatches(s, 0);
  }

  lemma NoFenceAt(s: string, j: nat)
    requires j < |s| && s[j] != '`'
    ensures !FenceAt(s, j)
  {
    if j + |Fence| <= |s| {
      assert s[j..j + |Fence|][0] == s[j];
    }
  }

  /** Because of `re.S` a snippet may span lines. */
  lemma SnippetSpansLines()
    ensures Snippets("```python\nx=1\n```") == ["\nx=1\n"]
  {
    var s := "```python\nx=1\n```";
    assert OpenerAt(s, 0);
    assert s[9] == '\n' && s[10] == 'x' && s[11] == '=' && s[12] == '1' && s[13] == '\n';
    NoFenceAt(s, 9);
    NoFenceAt(s, 10);
    NoFenceAt(s, 11);
    NoFenceAt(s, 12);
    NoFenceAt(s, 13);
    assert FenceAt(s, 14);
    assert FindClose(s, 9) == Some(14);
    assert Matches(s, 17) == [];
    assert Matches(s, 0) == [Span(0, 14)];
    assert s[9..14] == "\nx=1\n";
  }

  /** The search for the closing fence, as a loop. */
  method FindCloseFrom(s: string, from: nat) returns (r: Option<nat>)
    ensures r == FindClose(s, from)
  {
    var q := from;
    while q + |Fence| <= |s|
      invariant from <= q
      invariant FindClose(s, q) == FindClose(s, from)
      decreases |s| - q
    {
      if s[q..q + |Fence|] == Fence {
        return Some(q);
      }
      q := q + 1;
    }
    return None;
  }

  /** `PY_CODE_RE.findall(s)` as the scanning loop: at an opener whose
      closing fence is found, take the body and resume behind the fence;
      otherwise move one character on. */
  method FindAll(s: string) returns (parts: seq<string>)
    ensures parts == Snippets(s)
  {
    var pos := 0;
    parts := [];
    while pos < |s|
      invariant pos <= |s|
      invariant Snippets(s) == parts + Bodies(s, Matches(s, pos))
      decreases |s| - pos
    {
      var close: Option<nat> := None;
      if OpenerAt(s, pos) {
        close := FindCloseFrom(s, pos + |Opener|);
      }
      if close.Some? {
        TakeStep(s, parts, pos, close.value);
        parts := parts + [s[pos + |Opener|..close.value]];
        pos := close.value + |Fence|;
      } else {
        SkipStep(s, parts, pos);
        pos := pos + 1;
      }
    }
    assert parts + [] == parts;
  }

  /** The loop's step at a match: the body joins `parts`, and the scan goes
      on behind the closing fence. */
  lemma TakeStep(s: string, parts: seq<string>, pos: nat, close: nat)
    requires pos < |s| && OpenerAt(s, pos)
    requires FindClose(s, pos + |Opener|) == Some(close)
    requires Snippets(s) == parts + Bodies(s, Matches(s, pos))
    ensures close + |Fence| <= |s|
    ensures Snippets(s) == (parts + [s[pos + |Opener|..close]]) + Bodies(s, Matches(s, close + |Fence|))
  {
    BodiesAtOpener(s, pos, close);
    var later := Bodies(s, Matches(s, close + |Fence|));
    assert parts + ([s[pos + |Opener|..close]] + later) == (parts + [s[pos + |Opener|..close]]) + later;
  }

  /** The loop's step where no match starts: the scan moves one character on. */
  lemma SkipStep(s: string, parts: seq<string>, pos: nat)
    requires pos < |s|
    requires !(OpenerAt(s, pos) && FindClose(s, pos + |Opener|).Some?)
    requires Snippets(s) == parts + Bodies(s, Matches(s, pos))
    ensures Snippets(s) == parts + Bodies(s, Matches(s, pos + 1))
  {
    MatchesSkip(s, pos);
  }

  /** The scan's step where no match starts. */
  lemma MatchesSkip(s: string, pos: nat)
    requires pos < |s|
    requires !(OpenerAt(s, pos) && FindClose(s, pos + |Opener|).Some?)
    ensures Matches(s, pos) == Matches(s, pos + 1)
  {
  }

  /** The scan's step at an opener whose closing fence is found, on bodies:
      the body comes first, then the bodies behind the fence. */
  lemma BodiesAtOpener(s: string, pos: nat, close: nat)
    requires pos < |s| && OpenerAt(s, pos)
    requires FindClose(s, pos + |Opener|) == Some(close)
    ensures close + |Fence| <= |s|
    ensures Bodies(s, Matches(s, pos))
         == [s[pos + |Opener|..close]] + Bodies(s, Matches(s, close + |Fence|))
  {
    MatchesAtOpener(s, pos, close);
    BodiesCons(s, Span(pos, close), Matches(s, close + |Fence|));
  }

  lemma BodiesCons(s: string, sp: Span, rest: seq<Span>)
    ensures Bodies(s, [sp] + rest) == [Body(s, sp)] + Bodies(s, rest)
  {
    var l, r := Bodies(s, [sp] + rest), [Body(s, sp)] + Bodies(s, rest);
    assert |l| == |r|;
    forall k | 0 <= k < |l| ensures l[k] == r[k] {
      if k > 0 {
        assert ([sp] + rest)[k] == rest[k - 1];
      }
    }
  }

  /** What one message yields: `m["name"] == sender and
      isinstance(m["content"], str)`; `m["content"]` is read only for the
      sender's own messages. */
  function MessageSnippets(m: Message, sender: string): Result<seq<string>>
  {
    if m.name.None? then Err(KeyError("name"))
    else if m.name.value != sender then Ok([])
    else if m.content.None? then Err(KeyError("content"))
    else if m.content.value.Str? then Ok(Snippets(m.content.value.s))
    else Ok([])
  }

  /** `parts.extend(...)` after earlier messages; the first exception stops the loop. */
  function Extend(before: Result<seq<string>>, next: Result<seq<string>>): Result<seq<string>>
  {
    if before.Err? then before
    else if next.Err? then next
    else Ok(before.value + next.value)
  }

  /** The list `parts` once every message has been visited. */
  function CodeParts(ms: seq<Message>, sender: string): Result<seq<string>>
    decreases |ms|
  {
    if |ms| == 0 then Ok([])
    else Extend(CodeParts(ms[..|ms| - 1], sender), MessageSnippets(ms[|ms| - 1], sender))
  }

  /** `extract_code(messages, sender)`. */
  function ExtractedCode(ms: seq<Message>, sender: string): Result<string>
  {
    match CodeParts(ms, sender)
    case Err(e) => Err(e)
    case Ok(parts) => Ok(Join(parts, Separator))
  }

  method ExtractCode(messages: seq<Message>, sender: string) returns (r: Result<string>)
    ensures r == ExtractedCode(messages, sender)
  {
    var parts: seq<string> := [];
    var i := 0;
    while i < |messages|
      invariant i <= |messages|
      invariant CodeParts(messages[..i], sender) == Ok(parts)
    {
      var m := messages[i];
      assert messages[..i + 1][..i] == messages[..i];
      if m.name.None? {
        CodePartsStopped(messages, i + 1, sender);
        return Err(KeyError("name"));
      }
      if m.name.value == sender {
        if m.content.None? {
          CodePartsStopped(messages, i + 1, sender);
          return Err(KeyError("content"));
        }
        if m.content.value.Str? {
          var found := FindAll(m.content.value.s);
          parts := parts + found;
        }
      }
      assert parts + [] == parts;
      assert CodeParts(messages[..i + 1], sender)
          == Extend(CodeParts(messages[..i], sender), MessageSnippets(m, sender));
      i := i + 1;
    }
    assert messages[..i] == messages;
    r := Ok(Join(parts, Separator));
  }

  /** Once a message has raised, the messages after it change nothing. */
  lemma {:induction false} CodePartsStopped(ms: seq<Message>, j: nat, sender: string)
    requires j <= |ms|
    requires CodeParts(ms[..j], sender).Err?
    ensures CodeParts(ms, sender) == CodeParts(ms[..j], sender)
    decreases |ms| - j
  {
    if j < |ms| {
      assert ms[..j + 1][..j] == ms[..j];
      CodePartsStopped(ms, j + 1, sender);
    } else {
      assert ms[..j] == ms;
    }
  }

  lemma ExtendAssociative(a: Result<seq<string>>, b: Result<seq<string>>, c: Result<seq<string>>)
    ensures Extend(Extend(a, b), c) == Extend(a, Extend(b, c))
  {
    if a.Ok? && b.Ok? && c.Ok? {
      assert (a.value + b.value) + c.value == a.value + (b.value + c.value);
    }
  }

  /** The snippets of two stretches of the log follow each other in log
      order, and the first exception, from whichever stretch, wins. */
  lemma {:induction false} CodePartsAppend(a: seq<Message>, b: seq<Message>, sender: string)
    ensures CodeParts(a + b, sender) == Extend(CodeParts(a, sender), CodeParts(b, sender))
    decreases |b|
  {
    if |b| == 0 {
      assert a + b == a;
      var x := CodeParts(a, sender);
      assert x.Ok? ==> x.value + [] == x.value;
    } else {
      var b' := b[..|b| - 1];
      var last := b[|b| - 1];
      assert (a + b)[..|a + b| - 1] == a + b';
      CodePartsAppend(a, b', sender);
      ExtendAssociative(CodeParts(a, sender), CodeParts(b', sender), MessageSnippets(last, sender));
    }
  }

  /** Only the sender's own string messages contribute: any message of another
      sender, or of the sender with content that is not a string, may be
      removed from the log without changing the result. */
  lemma IgnoredMessage(a: seq<Message>, m: Message, b: seq<Message>, sender: string)
    requires m.name.Some?
    requires m.name.value != sender || (m.content.Some? && !m.content.value.Str?)
    ensures CodeParts(a + [m] + b, sender) == CodeParts(a + b, sender)
  {
    assert MessageSnippets(m, sender) == Ok([]);
    assert CodeParts([m], sender) == Extend(Ok([]), Ok([]));
    CodePartsAppend(a + [m], b, sender);
    CodePartsAppend(a, [m], sender);
    CodePartsAppend(a, b, sender);
    var x := CodeParts(a, sender);
    assert x.Ok? ==> x.value + [] == x.value;
  }

  /** A message of the sender with string content contributes exactly the
      snippets of that string, after those of the messages before it. */
  lemma SenderMessageContributes(a: seq<Message>, m: Message, sender: string)
    requires m.name == Some(sender) && HasText(m)
    requires CodeParts(a, sender).Ok?
    ensures CodeParts(a + [m], sender) == Ok(CodeParts(a, sender).value + Snippets(m.content.value.s))
  {
    assert (a + [m])[..|a|] == a;
  }

  /** Every message has a name, and every message of the sender has a
      `content` key: `extract_code` raises no KeyError. */
  predicate Readable(ms: seq<Message>, sender: string)
  {
    forall i :: 0 <= i < |ms| ==> ms[i].name.Some? && (ms[i].name.value == sender ==> ms[i].content.Some?)
  }

  /** The codes of two stretches of the log, each with at least one snippet,
      are put together with one blank line between them. */
  lemma ExtractedCodeAppend(a: seq<Message>, b: seq<Message>, sender: string)
    requires CodeParts(a, sender).Ok? && |CodeParts(a, sender).value| > 0
    requires CodeParts(b, sender).Ok? && |CodeParts(b, sender).value| > 0
    ensures ExtractedCode(a + b, sender)
         == Ok(ExtractedCode(a, sender).value + Separator + ExtractedCode(b, sender).value)
  {
    CodePartsAppend(a, b, sender);
    JoinAppend(CodeParts(a, sender).value, CodeParts(b, sender).value, Separator);
  }

  /** No string message of the sender holds an opener. */
  predicate NoSenderOpener(ms: seq<Message>, sender: string)
  {
    forall i, p :: (0 <= i < |ms| && ms[i].name == Some(sender) && HasText(ms[i])
      && 0 <= p < |ms[i].content.value.s|) ==> !OpenerAt(ms[i].content.value.s, p)
  }

  /** Where no string message of the sender holds an opener, the code
      extracted is the empty string. */
  lemma {:induction false} NoOpenerNoCode(ms: seq<Message>, sender: string)
    requires Readable(ms, sender)
    requires NoSenderOpener(ms, sender)
    ensures CodeParts(ms, sender) == Ok([])
    ensures ExtractedCode(ms, sender) == Ok("")
    decreases |ms|
  {
    if |ms| > 0 {
      var init, last := ms[..|ms| - 1], ms[|ms| - 1];
      assert Readable(init, sender) by {
        forall i | 0 <= i < |init| ensures init[i] == ms[i] { }
      }
      assert NoSenderOpener(init, sender) by {
        forall i | 0 <= i < |init| ensures init[i] == ms[i] { }
      }
      NoOpenerNoCode(init, sender);
      if last.name == Some(sender) && HasText(last) {
        NoOpenerNoSnippets(last.content.value.s);
      }
      assert MessageSnippets(last, sender) == Ok([]);
      var none: seq<string> := [];
      assert none + none == none;
    }
  }

  /** A log in which the coding agent wrote one block and another agent wrote
      about it: the code extracted for the coding agent is that block's body. */
  lemma ExtractCodeExample()
    ensures ExtractedCode([Message(Some("CodingAgent"), Some(Str("```python\nx=1\n```"))),
                           Message(Some("ReviewAgent"), Some(Str("```python\ny=2\n```")))],
                          "CodingAgent")
         == Ok("\nx=1\n")
  {
    var coder := Message(Some("CodingAgent"), Some(Str("```python\nx=1\n```")));
    var reviewer := Message(Some("ReviewAgent"), Some(Str("```python\ny=2\n```")));
    SnippetSpansLines();
    assert [coder][..0] == [];
    assert [] + ["\nx=1\n"] == ["\nx=1\n"];
    assert CodeParts([coder], "CodingAgent") == Ok(["\nx=1\n"]);
    IgnoredMessage([coder], reviewer, [], "CodingAgent");
    assert [coder] + [reviewer] + [] == [coder, reviewer];
    assert [coder] + [] == [coder];
  }
}
