/**
 * The handful of Python `str` operations the chatbot relies on: whitespace,
 * ASCII case folding, `strip`, `split` on one character and `join`.
 */
module Text {
  import opened Wrappers

  /** Python's `str.isspace` (and the regex class `\s`) on the ASCII range:
      tab, line feed, vertical tab, form feed, carriage return, the four
      information separators U+001C..U+001F, and space. */
  predicate IsSpace(c: char) {
    c == ' ' || ('\t' <= c <= '\r') || ('\U{1C}' <= c <= '\U{1F}')
  }

  predicate AllSpace(s: string) {
    forall k :: 0 <= k < |s| ==> IsSpace(s[k])
  }

  /** ASCII lower-casing, the folding `re.IGNORECASE` applies to ASCII letters. */
  function Lower(c: char): (d: char)
    ensures 'A' <= c <= 'Z' ==> d != c && 'a' <= d <= 'z'
    ensures !('A' <= c <= 'Z') ==> d == c
  {
    if 'A' <= c <= 'Z' then (c as int + 32) as char else c
  }

  /** Two characters match ignoring case exactly when they are equal or are
      the capital and small forms of one ASCII letter. */
  lemma LowerEqual(a: char, b: char)
    ensures Lower(a) == Lower(b) <==>
            || a == b
            || ('A' <= a <= 'Z' && b as int == a as int + 32)
            || ('A' <= b <= 'Z' && a as int == b as int + 32)
  {
  }

  /** `pat` occurs in `s` at offset `i`, comparing letters without regard to case. */
  predicate MatchesAt(s: string, i: nat, pat: string) {
    i + |pat| <= |s| && MatchesFrom(s, i, pat, 0)
  }

  /** The characters of `pat` from index `k` on match those of `s` as far from `i`. */
  predicate MatchesFrom(s: string, i: nat, pat: string, k: nat)
    requires i + |pat| <= |s| && k <= |pat|
    decreases |pat| - k
  {
    k == |pat| || (Lower(s[i + k]) == Lower(pat[k]) && MatchesFrom(s, i, pat, k + 1))
  }

  /** `MatchesFrom` compares each remaining character, and nothing more. */
  lemma {:induction false} MatchesFromChars(s: string, i: nat, pat: string, k: nat)
    requires i + |pat| <= |s| && k <= |pat|
    ensures MatchesFrom(s, i, pat, k) <==> forall j :: k <= j < |pat| ==> Lower(s[i + j]) == Lower(pat[j])
    decreases |pat| - k
  {
    if k < |pat| {
      MatchesFromChars(s, i, pat, k + 1);
    }
  }

  /** A match pairs each character of `pat` with the one as far from `i`,
      ignoring case, and nothing more is asked. */
  lemma MatchesAtChars(s: string, i: nat, pat: string)
    ensures MatchesAt(s, i, pat) <==>
            i + |pat| <= |s| && forall k :: 0 <= k < |pat| ==> Lower(s[i + k]) == Lower(pat[k])
  {
    if i + |pat| <= |s| {
      MatchesFromChars(s, i, pat, 0);
    }
  }

  /** The last character of a match is the last character of the pattern, up to case. */
  lemma MatchLastChar(s: string, i: nat, pat: string)
    requires |pat| > 0 && MatchesAt(s, i, pat)
    ensures i + |pat| <= |s| && Lower(s[i + |pat| - 1]) == Lower(pat[|pat| - 1])
  {
    MatchesAtChars(s, i, pat);
    assert Lower(s[i + (|pat| - 1)]) == Lower(pat[|pat| - 1]);
  }

  /** Text holding `pat` verbatim at `i` matches it there. */
  lemma {:induction false} MatchesAtSame(s: string, i: nat, pat: string)
    requires i + |pat| <= |s| && s[i..i + |pat|] == pat
    ensures MatchesAt(s, i, pat)
  {
    MatchesAtChars(s, i, pat);
    forall k | 0 <= k < |pat| ensures Lower(s[i + k]) == Lower(pat[k]) {
      assert s[i..i + |pat|][k] == s[i + k];
    }
  }

  /** Number of whitespace characters at the front of `s`. */
  function LeadingSpaces(s: string): (n: nat)
    ensures n <= |s|
    ensures n < |s| ==> !IsSpace(s[n])
  {
    if s != [] && IsSpace(s[0]) then 1 + LeadingSpaces(s[1..]) else 0
  }

  /** Everything `LeadingSpaces` counts is whitespace. */
  lemma {:induction false} LeadingSpacesAll(s: string)
    ensures AllSpace(s[..LeadingSpaces(s)])
  {
    if s != [] && IsSpace(s[0]) {
      LeadingSpacesAll(s[1..]);
      var n := LeadingSpaces(s);
      forall k | 0 <= k < n ensures IsSpace(s[..n][k]) {
        if k > 0 {
          assert s[..n][k] == s[1..][..n - 1][k - 1];
        }
      }
    }
  }

  /** A whitespace run of length `n` followed by a non-space (or the end) is what `LeadingSpaces` counts. */
  lemma {:induction false} LeadingSpacesIs(s: string, n: nat)
    requires n <= |s| && AllSpace(s[..n]) && (n < |s| ==> !IsSpace(s[n]))
    ensures LeadingSpaces(s) == n
  {
    if n > 0 {
      assert s[..n][0] == s[0];
      var t := s[1..];
      var u := t[..n - 1];
      assert AllSpace(u) by {
        forall k | 0 <= k < |u| ensures IsSpace(u[k]) {
          assert u[k] == s[..n][k + 1];
        }
      }
      LeadingSpacesIs(t, n - 1);
    }
  }

  /** Length of `s` once its trailing whitespace is removed, never below `lo`. */
  function TrailingCut(s: string, lo: nat): (n: nat)
    requires lo <= |s|
    ensures lo <= n <= |s|
    ensures n > lo ==> !IsSpace(s[n - 1])
    decreases |s| - lo
  {
    if |s| > lo && IsSpace(s[|s| - 1]) then TrailingCut(s[..|s| - 1], lo) else |s|
  }

  /** Everything `TrailingCut` cuts off is whitespace. */
  lemma {:induction false} TrailingCutAll(s: string, lo: nat)
    requires lo <= |s|
    ensures AllSpace(s[TrailingCut(s, lo)..])
    decreases |s| - lo
  {
    if |s| > lo && IsSpace(s[|s| - 1]) {
      var init := s[..|s| - 1];
      TrailingCutAll(init, lo);
      var n := TrailingCut(s, lo);
      forall k | 0 <= k < |s| - n ensures IsSpace(s[n..][k]) {
        if n + k < |s| - 1 {
          assert s[n..][k] == init[n..][k];
        }
      }
    }
  }

  /** Python's `str.strip()` with no argument. */
  function Strip(s: string): (r: string)
    ensures |r| <= |s|
    ensures r != [] ==> !IsSpace(r[0]) && !IsSpace(r[|r| - 1])
  {
    var lo := LeadingSpaces(s);
    s[lo..TrailingCut(s, lo)]
  }

  /** What `Strip` removes is whitespace, and what it keeps is one slice of the input. */
  lemma StripSlice(s: string)
    ensures 0 <= LeadingSpaces(s) <= TrailingCut(s, LeadingSpaces(s)) <= |s|
    ensures Strip(s) == s[LeadingSpaces(s)..TrailingCut(s, LeadingSpaces(s))]
    ensures AllSpace(s[..LeadingSpaces(s)]) && AllSpace(s[TrailingCut(s, LeadingSpaces(s))..])
  {
    LeadingSpacesAll(s);
    TrailingCutAll(s, LeadingSpaces(s));
  }

  /** `strip()` leaves nothing exactly when the string is all whitespace. */
  lemma StripEmpty(s: string)
    ensures Strip(s) == [] <==> AllSpace(s)
  {
    StripSlice(s);
    var lo := LeadingSpaces(s);
    var hi := TrailingCut(s, lo);
    if hi == lo {
      forall k | 0 <= k < |s| ensures IsSpace(s[k]) {
        assert s[..lo][k] == s[k];
      }
    }
  }

  /** A string that neither starts nor ends with whitespace is left alone by `Strip`. */
  lemma {:induction false} StripUnchanged(s: string)
    requires s == [] || (!IsSpace(s[0]) && !IsSpace(s[|s| - 1]))
    ensures Strip(s) == s
  {
  }

  /** The first index of `c` in `s`, if any (Python's `str.find`). */
  function IndexOf(s: string, c: char): (r: Option<nat>)
    ensures r.None? <==> c !in s
    ensures r.Some? ==> r.value < |s| && s[r.value] == c && c !in s[..r.value]
  {
    if s == [] then None
    else if s[0] == c then Some(0)
    else match IndexOf(s[1..], c)
      case None => None
      case Some(i) => (assert s[1..][..i] == s[1..i + 1]; Some(i + 1))
  }

  /** `IndexOf` finds the first occurrence. */
  lemma {:induction false} IndexOfAt(s: string, c: char, n: nat)
    requires n < |s| && s[n] == c && c !in s[..n]
    ensures IndexOf(s, c) == Some(n)
  {
    if n > 0 {
      assert s[0] == s[..n][0];
      assert s[1..][..n - 1] == s[1..n];
      IndexOfAt(s[1..], c, n - 1);
    }
  }

  /** Python's `sep.join(parts)`. */
  function Join(parts: seq<string>, sep: string): (r: string)
    ensures |parts| == 1 ==> r == parts[0]
  {
    if parts == [] then []
    else if |parts| == 1 then parts[0]
    else parts[0] + sep + Join(parts[1..], sep)
  }

  /** Where piece `i` starts in `Join(parts, sep)`: the pieces before it, each followed by `sep`. */
  function JoinOffset(parts: seq<string>, sep: string, i: nat): nat
    requires i <= |parts|
  {
    if i == 0 then 0 else |parts[0]| + |sep| + JoinOffset(parts[1..], sep, i - 1)
  }

  /** The join ends right after its last piece: nothing follows it. */
  lemma {:induction false} JoinLength(parts: seq<string>, sep: string)
    requires |parts| >= 1
    ensures |Join(parts, sep)| == JoinOffset(parts, sep, |parts| - 1) + |parts[|parts| - 1]|
  {
    if |parts| > 1 {
      JoinLength(parts[1..], sep);
      assert parts[1..][|parts| - 2] == parts[|parts| - 1];
    }
  }

  /** Every piece appears in the join at its offset, in order, followed by
      `sep` unless it is the last. */
  lemma JoinAt(parts: seq<string>, sep: string, i: nat)
    requires i < |parts|
    ensures JoinOffset(parts, sep, i) <= |Join(parts, sep)|
    ensures (if i + 1 < |parts| then parts[i] + sep else parts[i]) <= Join(parts, sep)[JoinOffset(parts, sep, i)..]
  {
    JoinSuffix(parts, sep, i);
    JoinFirst(parts[i..], sep);
  }

  /** From the offset of piece `i` on, the join is the join of the pieces from `i` on. */
  lemma {:induction false} JoinSuffix(parts: seq<string>, sep: string, i: nat)
    requires i < |parts|
    ensures JoinOffset(parts, sep, i) <= |Join(parts, sep)|
    ensures Join(parts, sep)[JoinOffset(parts, sep, i)..] == Join(parts[i..], sep)
  {
    if i > 0 {
      var rest := parts[1..];
      var head, tail := parts[0] + sep, Join(rest, sep);
      assert Join(parts, sep) == head + tail;
      JoinSuffix(rest, sep, i - 1);
      assert rest[i - 1..] == parts[i..];
      var k := JoinOffset(rest, sep, i - 1);
      assert (head + tail)[|head| + k..] == tail[k..];
    }
  }

  /** Python's `s.split(sep)` for a one-character separator: the pieces between
      the occurrences of `sep`, so that joining them back with `sep` gives `s`. */
  function Split(s: string, sep: char): (parts: seq<string>)
    ensures |parts| >= 1
    ensures forall p :: p in parts ==> sep !in p
    ensures Join(parts, [sep]) == s
    decreases |s|
  {
    match IndexOf(s, sep)
    case None => [s]
    case Some(i) =>
      var rest := Split(s[i + 1..], sep);
      assert s == s[..i] + [sep] + s[i + 1..];
      [s[..i]] + rest
  }

  /** `Split` undoes `Join` whenever no piece holds the separator. */
  lemma {:induction false} SplitJoin(parts: seq<string>, sep: char)
    requires |parts| >= 1
    requires forall p :: p in parts ==> sep !in p
    ensures Split(Join(parts, [sep]), sep) == parts
  {
    if |parts| > 1 {
      var s := Join(parts, [sep]);
      var tail := Join(parts[1..], [sep]);
      assert s == parts[0] + [sep] + tail;
      assert s[..|parts[0]|] == parts[0];
      assert s[|parts[0]|] == sep;
      IndexOfAt(s, sep, |parts[0]|);
      assert s[|parts[0]| + 1..] == tail;
      SplitJoin(parts[1..], sep);
    } else {
      assert IndexOf(parts[0], sep) == None;
    }
  }

  /** The first piece opens the joined string, followed by the separator when more pieces come. */
  lemma JoinFirst(parts: seq<string>, sep: string)
    requires |parts| >= 1
    ensures parts[0] <= Join(parts, sep)
    ensures |parts| > 1 ==> parts[0] + sep <= Join(parts, sep)
  {
  }

  /** Pieces of an all-whitespace join are all whitespace. */
  lemma {:induction false} JoinAllSpace(parts: seq<string>, sep: string)
    requires AllSpace(Join(parts, sep))
    ensures forall j :: 0 <= j < |parts| ==> AllSpace(parts[j])
  {
    if |parts| > 1 {
      var whole := Join(parts, sep);
      var tail := Join(parts[1..], sep);
      assert whole == parts[0] + sep + tail;
      assert AllSpace(parts[0]) by {
        forall k | 0 <= k < |parts[0]| ensures IsSpace(parts[0][k]) {
          assert parts[0][k] == whole[k];
        }
      }
      assert AllSpace(tail) by {
        forall k | 0 <= k < |tail| ensures IsSpace(tail[k]) {
          assert tail[k] == whole[|parts[0]| + |sep| + k];
        }
      }
      JoinAllSpace(parts[1..], sep);
      assert forall j :: 1 <= j < |parts| ==> parts[j] == parts[1..][j - 1];
    }
  }
}
