/**
 * Phase 1 of the response cleaner: finding the end of the model's hidden
 * reasoning. Each marker is a literal pattern searched case-insensitively the
 * way `re.finditer` searches: left to right, and resuming after each match, so
 * that matches never overlap.
 */
module Markers {
  import opened Text

  /** The pattern list as the cleaner declares it, duplicates included. */
  const ReasoningPatterns: seq<string> :=
    ["`</think>`", "`</think>`", "</think>", "</think>", "</text>", "</thinking>", "</reasoning>"]

  /** A regex match: the half-open span `[start, end)` of the text. */
  datatype Match = Match(start: nat, end: nat)

  /** `p` occurs at offset `i` of `text`, ignoring case; patterns are never empty. */
  predicate Occurs(text: string, p: string, i: nat) {
    |p| > 0 && MatchesAt(text, i, p)
  }

  /** The matches `re.finditer(p, text, re.IGNORECASE)` yields from offset `from` on. */
  function FindIter(text: string, p: string, from: nat): (ms: seq<Match>)
    requires |p| > 0
    ensures forall j :: 0 <= j < |ms| ==>
      from <= ms[j].start && ms[j].end == ms[j].start + |p| && Occurs(text, p, ms[j].start)
    ensures forall j :: 0 < j < |ms| ==> ms[j - 1].end <= ms[j].start
    decreases |text| - from
  {
    if from + |p| > |text| then []
    else if Occurs(text, p, from) then
      var rest := FindIter(text, p, from + |p|);
      [Match(from, from + |p|)] + rest
    else
      FindIter(text, p, from + 1)
  }

  /** `finditer` misses no occurrence: when it yields nothing, nothing occurs. */
  lemma {:induction false} FindIterNone(text: string, p: string, from: nat)
    requires |p| > 0 && FindIter(text, p, from) == []
    ensures forall i: nat :: from <= i ==> !Occurs(text, p, i)
    decreases |text| - from
  {
    if from + |p| <= |text| {
      FindIterNone(text, p, from + 1);
    }
  }

  /** Nothing occurs before the first match `finditer` yields. */
  lemma {:induction false} FindIterFirst(text: string, p: string, from: nat)
    requires |p| > 0 && FindIter(text, p, from) != []
    ensures forall i: nat :: from <= i < FindIter(text, p, from)[0].start ==> !Occurs(text, p, i)
    decreases |text| - from
  {
    if !Occurs(text, p, from) {
      FindIterFirst(text, p, from + 1);
    }
  }

  /** Nothing occurs at or after the end `e` of the last match `finditer` yields. */
  lemma {:induction false} FindIterLast(text: string, p: string, from: nat, e: nat)
    requires |p| > 0
    requires var ms := FindIter(text, p, from); ms != [] && e == ms[|ms| - 1].end
    ensures forall i: nat :: e <= i ==> !Occurs(text, p, i)
    decreases |text| - from, 1
  {
    if Occurs(text, p, from) {
      FindIterLastAfterHit(text, p, from, e);
    } else {
      FindIterLast(text, p, from + 1, e);
    }
  }

  /** `FindIterLast` when a match starts at `from`: the last match is this one or one of the rest. */
  lemma {:induction false} FindIterLastAfterHit(text: string, p: string, from: nat, e: nat)
    requires |p| > 0 && Occurs(text, p, from)
    requires var ms := FindIter(text, p, from); ms != [] && e == ms[|ms| - 1].end
    ensures forall i: nat :: e <= i ==> !Occurs(text, p, i)
    decreases |text| - from, 0
  {
    if FindIter(text, p, from + |p|) == [] {
      OnlyHit(text, p, from);
      FindIterNone(text, p, from + |p|);
    } else {
      LastOfRest(text, p, from);
      FindIterLast(text, p, from + |p|, e);
    }
  }

  /** `finditer` skips no occurrence between two consecutive matches: the scan
      resumes at the end of one match and yields the next occurrence it meets. */
  lemma {:induction false} FindIterGap(text: string, p: string, from: nat, j: nat)
    requires |p| > 0 && 0 < j < |FindIter(text, p, from)|
    ensures var ms := FindIter(text, p, from);
            forall i: nat :: ms[j - 1].end <= i < ms[j].start ==> !Occurs(text, p, i)
    decreases |text| - from
  {
    if Occurs(text, p, from) {
      if j == 1 {
        FindIterFirst(text, p, from + |p|);
      } else {
        FindIterGap(text, p, from + |p|, j - 1);
      }
    } else {
      FindIterGap(text, p, from + 1, j);
    }
  }

  /** After a match at `from` and none later, that match is the last. */
  lemma OnlyHit(text: string, p: string, from: nat)
    requires |p| > 0 && Occurs(text, p, from) && FindIter(text, p, from + |p|) == []
    ensures var ms := FindIter(text, p, from); ms != [] && ms[|ms| - 1].end == from + |p|
  {
  }

  /** After a match at `from`, the last match is the last of the rest, when there is one. */
  lemma LastOfRest(text: string, p: string, from: nat)
    requires |p| > 0 && from + |p| <= |text| && Occurs(text, p, from)
    requires FindIter(text, p, from + |p|) != []
    ensures var ms, rest := FindIter(text, p, from), FindIter(text, p, from + |p|);
            ms != [] && ms[|ms| - 1] == rest[|rest| - 1]
  {
  }

  /** The end offset of the last match of `p`, or -1 when there is none. */
  function LastEnd(text: string, p: string): (e: int)
    requires |p| > 0
    ensures -1 <= e <= |text|
  {
    var ms := FindIter(text, p, 0);
    if ms == [] then -1 else ms[|ms| - 1].end
  }

  predicate NonEmpty(pats: seq<string>) {
    forall j :: 0 <= j < |pats| ==> |pats[j]| > 0
  }

  /** The largest end offset of a last match over the patterns `pats`, or -1. */
  function MaxEnd(text: string, pats: seq<string>): (e: int)
    requires NonEmpty(pats)
    ensures -1 <= e <= |text|
  {
    if pats == [] then -1
    else
      var prev := MaxEnd(text, pats[..|pats| - 1]);
      var last := LastEnd(text, pats[|pats| - 1]);
      if last > prev then last else prev
  }

  /** The offset after which the cleaner keeps the text, or -1 when no marker occurs. */
  function MarkerEnd(text: string): (e: int)
    ensures -1 <= e <= |text|
  {
    MaxEnd(text, ReasoningPatterns)
  }

  /** No pattern of `pats` occurs anywhere in `s`. */
  ghost predicate NoneOccurs(s: string, pats: seq<string>) {
    forall p, i: nat :: p in pats ==> !Occurs(s, p, i)
  }

  /** No reasoning marker occurs anywhere in `s`. */
  ghost predicate NoMarker(s: string) {
    NoneOccurs(s, ReasoningPatterns)
  }

  /** A marker is found exactly when some pattern occurs somewhere. */
  lemma {:induction false} MaxEndFound(text: string, pats: seq<string>)
    requires NonEmpty(pats)
    ensures MaxEnd(text, pats) >= 0 <==> exists p, i :: p in pats && Occurs(text, p, i)
  {
    if pats != [] {
      var init, p := pats[..|pats| - 1], pats[|pats| - 1];
      MaxEndFound(text, init);
      assert pats == init + [p];
      var ms := FindIter(text, p, 0);
      if ms == [] {
        FindIterNone(text, p, 0);
      } else {
        assert Occurs(text, p, ms[0].start);
      }
    }
  }

  /** When a marker is found, the cut offset is the end of a real occurrence of a pattern. */
  lemma {:induction false} MaxEndIsMatchEnd(text: string, pats: seq<string>)
    requires NonEmpty(pats) && MaxEnd(text, pats) >= 0
    ensures exists p :: p in pats && |p| <= MaxEnd(text, pats) && Occurs(text, p, MaxEnd(text, pats) - |p|)
  {
    var init, p := pats[..|pats| - 1], pats[|pats| - 1];
    assert pats == init + [p];
    if LastEnd(text, p) > MaxEnd(text, init) {
      var ms := FindIter(text, p, 0);
      assert Occurs(text, p, ms[|ms| - 1].start);
    } else {
      MaxEndIsMatchEnd(text, init);
    }
  }

  /** No occurrence of any pattern starts at or after the cut offset. */
  lemma {:induction false} MaxEndNoLater(text: string, pats: seq<string>)
    requires NonEmpty(pats)
    ensures forall p, i: nat :: p in pats && Occurs(text, p, i) ==> i < MaxEnd(text, pats)
  {
    if pats != [] {
      var init, p := pats[..|pats| - 1], pats[|pats| - 1];
      assert pats == init + [p];
      MaxEndNoLater(text, init);
      if FindIter(text, p, 0) == [] {
        FindIterNone(text, p, 0);
      } else {
        FindIterLast(text, p, 0, LastEnd(text, p));
      }
    }
  }

  /** The first occurrence of any pattern ends at or before the cut offset:
      `finditer` always reports the leftmost occurrence first. */
  lemma {:induction false} MaxEndCoversFirst(text: string, pats: seq<string>, p: string, i: nat)
    requires NonEmpty(pats) && p in pats && Occurs(text, p, i)
    requires forall j: nat :: j < i ==> !Occurs(text, p, j)
    ensures i + |p| <= MaxEnd(text, pats)
  {
    var init, last := pats[..|pats| - 1], pats[|pats| - 1];
    assert pats == init + [last];
    if p == last {
      var ms := FindIter(text, p, 0);
      if ms == [] {
        FindIterNone(text, p, 0);
      } else {
        FindIterFirst(text, p, 0);
        assert ms[0].start == i;
        LastMatchLatest(ms, 0);
      }
    } else {
      MaxEndCoversFirst(text, init, p, i);
    }
  }

  /** Each pattern's last-match end is at most the cut offset. */
  lemma {:induction false} MaxEndUpper(text: string, pats: seq<string>, p: string)
    requires NonEmpty(pats) && p in pats
    ensures LastEnd(text, p) <= MaxEnd(text, pats)
  {
    var init, last := pats[..|pats| - 1], pats[|pats| - 1];
    assert pats == init + [last];
    if p != last {
      MaxEndUpper(text, init, p);
    }
  }

  /** A cut offset of 0 or more is some pattern's last-match end. */
  lemma {:induction false} MaxEndAttained(text: string, pats: seq<string>)
    requires NonEmpty(pats) && MaxEnd(text, pats) >= 0
    ensures exists p :: p in pats && LastEnd(text, p) == MaxEnd(text, pats)
  {
    var init, last := pats[..|pats| - 1], pats[|pats| - 1];
    assert pats == init + [last];
    if LastEnd(text, last) <= MaxEnd(text, init) {
      MaxEndAttained(text, init);
      var p :| p in init && LastEnd(text, p) == MaxEnd(text, init);
      assert p in pats;
    }
  }

  /** Every match `finditer` yields for any pattern ends at or before the cut offset. */
  lemma MaxEndIsLargest(text: string, pats: seq<string>)
    requires NonEmpty(pats)
    ensures forall p, m :: p in pats && m in FindIter(text, p, 0) ==> m.end <= MaxEnd(text, pats)
  {
    forall p, m | p in pats && m in FindIter(text, p, 0) ensures m.end <= MaxEnd(text, pats) {
      var j :| 0 <= j < |FindIter(text, p, 0)| && FindIter(text, p, 0)[j] == m;
      MatchEndUpper(text, pats, p, j);
    }
  }

  /** `MaxEndIsLargest` for the match at index `j` of one pattern. */
  lemma MatchEndUpper(text: string, pats: seq<string>, p: string, j: nat)
    requires NonEmpty(pats) && p in pats && j < |FindIter(text, p, 0)|
    ensures FindIter(text, p, 0)[j].end <= MaxEnd(text, pats)
  {
    var ms := FindIter(text, p, 0);
    forall k | 0 <= k < |ms| ensures ms[k].start <= ms[k].end {
    }
    LastMatchLatest(ms, j);
    assert LastEnd(text, p) == ms[|ms| - 1].end;
    MaxEndUpper(text, pats, p);
  }

  /** A cut offset of 0 or more is the end of a match `finditer` yields, the
      last one of its pattern, and not just of any occurrence. */
  lemma MaxEndIsYielded(text: string, pats: seq<string>)
    requires NonEmpty(pats) && MaxEnd(text, pats) >= 0
    ensures exists p, m :: p in pats && m in FindIter(text, p, 0) && m.end == MaxEnd(text, pats)
  {
    MaxEndAttained(text, pats);
    var p :| p in pats && LastEnd(text, p) == MaxEnd(text, pats);
    var ms := FindIter(text, p, 0);
    assert ms[|ms| - 1] in ms;
  }

  /** Matches in a `finditer` result end no later than the last one. */
  lemma {:induction false} LastMatchLatest(ms: seq<Match>, j: nat)
    requires j < |ms|
    requires forall k :: 0 <= k < |ms| ==> ms[k].start <= ms[k].end
    requires forall k :: 0 < k < |ms| ==> ms[k - 1].end <= ms[k].start
    ensures ms[j].end <= ms[|ms| - 1].end
    decreases |ms| - j
  {
    if j < |ms| - 1 {
      LastMatchLatest(ms, j + 1);
    }
  }

  /** An occurrence in a slice of the text is an occurrence in the text. */
  lemma OccursInSlice(text: string, a: nat, b: nat, p: string, i: nat)
    requires a <= b <= |text| && Occurs(text[a..b], p, i)
    ensures Occurs(text, p, a + i)
  {
    MatchesAtChars(text[a..b], i, p);
    MatchesAtChars(text, a + i, p);
    forall k | 0 <= k < |p| ensures Lower(text[a + i + k]) == Lower(p[k]) {
      assert text[a..b][i + k] == text[a + i + k];
    }
  }

  /** A slice of a text without any pattern holds none either. */
  lemma SliceHasNone(s: string, pats: seq<string>, a: nat, b: nat)
    requires a <= b <= |s| && NoneOccurs(s, pats)
    ensures NoneOccurs(s[a..b], pats)
  {
    forall p, i: nat | p in pats ensures !Occurs(s[a..b], p, i) {
      if Occurs(s[a..b], p, i) {
        OccursInSlice(s, a, b, p, i);
      }
    }
  }

  /** Stripping a text without any pattern leaves one without any pattern. */
  lemma StripHasNone(s: string, pats: seq<string>)
    requires NoneOccurs(s, pats)
    ensures NoneOccurs(Strip(s), pats)
  {
    var lo := LeadingSpaces(s);
    SliceHasNone(s, pats, lo, TrailingCut(s, lo));
  }

  /** What follows the cut offset holds no pattern: every pattern's last match
      ends at or before the offset, and `finditer` would have found a later one. */
  lemma AfterCutHasNone(text: string, pats: seq<string>, a: nat)
    requires NonEmpty(pats) && MaxEnd(text, pats) <= a <= |text|
    ensures NoneOccurs(text[a..], pats)
  {
    MaxEndNoLater(text, pats);
    assert text[a..] == text[a..|text|];
    forall p, i: nat | p in pats ensures !Occurs(text[a..|text|], p, i) {
      if Occurs(text[a..|text|], p, i) {
        OccursInSlice(text, a, |text|, p, i);
      }
    }
  }

  /** The stripped text from any offset at or after the cut offset holds no pattern. */
  lemma CutHasNone(text: string, pats: seq<string>, a: nat)
    requires NonEmpty(pats) && MaxEnd(text, pats) <= a <= |text|
    ensures NoneOccurs(Strip(text[a..]), pats)
  {
    AfterCutHasNone(text, pats, a);
    StripHasNone(text[a..], pats);
  }

  /** The stripped text after the cut offset holds no reasoning marker. */
  lemma CutHasNoMarker(text: string, a: nat)
    requires MarkerEnd(text) <= a <= |text|
    ensures NoMarker(Strip(text[a..]))
  {
    CutHasNone(text, ReasoningPatterns, a);
  }

  /** Every pattern opens with a backquote or `<`. */
  lemma PatternsOpen()
    ensures forall p :: p in ReasoningPatterns ==> |p| > 0 && (p[0] == '`' || p[0] == '<')
  {
  }

  /** Every pattern closes with `>` or a backquote. */
  lemma PatternsClose()
    ensures forall p :: p in ReasoningPatterns ==> |p| > 0 && (p[|p| - 1] == '>' || p[|p| - 1] == '`')
  {
  }

  /** A text holding none of the characters the patterns open with holds no pattern. */
  lemma NoOpenerNone(s: string, pats: seq<string>)
    requires forall p :: p in pats ==> |p| > 0 && (p[0] == '`' || p[0] == '<')
    requires '`' !in s && '<' !in s
    ensures NoneOccurs(s, pats)
  {
    forall p, i: nat | p in pats ensures !Occurs(s, p, i) {
      if i + |p| <= |s| {
        assert s[i] in s;
      }
    }
  }

  /** A text holding neither a backquote nor `<` holds no marker. */
  lemma NoOpenerNoMarker(s: string)
    requires '`' !in s && '<' !in s
    ensures NoMarker(s)
  {
    PatternsOpen();
    NoOpenerNone(s, ReasoningPatterns);
  }

  /** Whitespace holds no marker. */
  lemma SpaceHasNoMarker(s: string)
    requires AllSpace(s)
    ensures NoMarker(s)
  {
    assert '`' !in s && '<' !in s by {
      forall k | 0 <= k < |s| ensures s[k] != '`' && s[k] != '<' {
        assert IsSpace(s[k]);
      }
    }
    NoOpenerNoMarker(s);
  }

  /** The text just before the cut offset is `>` or a backquote, the last
      character of every pattern. */
  lemma CutFollowsCloser(text: string)
    requires MarkerEnd(text) >= 0
    ensures MarkerEnd(text) >= 1
    ensures text[MarkerEnd(text) - 1] == '>' || text[MarkerEnd(text) - 1] == '`'
  {
    PatternsClose();
    CloserAt(text, ReasoningPatterns, MarkerEnd(text));
  }

  /** When every pattern closes with `>` or a backquote, so does the text before the cut offset. */
  lemma CloserAt(text: string, pats: seq<string>, e: int)
    requires forall p :: p in pats ==> |p| > 0 && (p[|p| - 1] == '>' || p[|p| - 1] == '`')
    requires e == MaxEnd(text, pats) && e >= 0
    ensures e >= 1 && (text[e - 1] == '>' || text[e - 1] == '`')
  {
    MaxEndIsMatchEnd(text, pats);
    var p :| p in pats && |p| <= e && Occurs(text, p, e - |p|);
    MatchLastChar(text, e - |p|, p);
  }
}
