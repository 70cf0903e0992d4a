/**
 * `clean_response`: the post-processor that removes a generation model's
 * hidden reasoning from its visible answer. `Clean` says what it returns;
 * `CleanResponse` is the loop-by-loop procedure, proved to return exactly that.
 */
module Sanitizer {
  import opened Wrappers
  import opened Text
  import opened Markers
  import opened Lines

  /** The cleaned answer: an empty input is returned as it is; if a reasoning
      marker occurs, the stripped text after the furthest marker match;
      otherwise the stripped kept lines, or the stripped input when those are
      blank. */
  function Clean(text: string): (r: string)
    ensures text == [] ==> r == []
  {
    if text == [] then text
    else if MarkerEnd(text) >= 0 then Strip(text[MarkerEnd(text)..])
    else
      var joined := Strip(Join(Kept(Split(text, '\n')), "\n"));
      if joined != [] then joined else Strip(text)
  }

  /** The cleaner as the service runs it: the marker loop, then, only if it
      found nothing, the line loop and the empty-result fallback. */
  method CleanResponse(text: string) returns (r: string)
    ensures r == Clean(text)
  {
    if text == [] {
      return text;
    }
    var lastMatch := FindReasoningEnd(text);
    if lastMatch.Some? {
      return Strip(text[lastMatch.value.end..]);
    }
    var lines := Split(text, '\n');
    var cleaned := KeepAnswerLines(lines);
    var result := Strip(Join(cleaned, "\n"));
    r := if result != [] then result else Strip(text);
  }

  /** The loop over the pattern list: it remembers the last match of each
      pattern and keeps the one ending furthest right. */
  method FindReasoningEnd(text: string) returns (lastMatch: Option<Match>)
    ensures lastMatch.None? <==> MarkerEnd(text) == -1
    ensures lastMatch.Some? ==> lastMatch.value.end == MarkerEnd(text)
  {
    lastMatch := None;
    var lastPos: int := -1;
    for i := 0 to |ReasoningPatterns|
      invariant lastPos == MaxEnd(text, ReasoningPatterns[..i])
      invariant lastMatch.None? <==> lastPos == -1
      invariant lastMatch.Some? ==> lastMatch.value.end == lastPos
    {
      var pattern := ReasoningPatterns[i];
      assert ReasoningPatterns[..i + 1] == ReasoningPatterns[..i] + [pattern];
      var matches := FindIter(text, pattern, 0);
      if |matches| > 0 {
        var m := matches[|matches| - 1];
        if m.end > lastPos {
          lastPos := m.end;
          lastMatch := Some(m);
        }
      }
    }
    assert ReasoningPatterns[..|ReasoningPatterns|] == ReasoningPatterns;
  }

  /** The loop over the lines: meta-commentary bullets are skipped wherever
      they are, and the other lines are kept once the first answer line has
      switched `foundAnswer` on. */
  method KeepAnswerLines(lines: seq<string>) returns (cleaned: seq<string>)
    ensures cleaned == Kept(lines)
  {
    cleaned := [];
    var foundAnswer := false;
    for i := 0 to |lines|
      invariant KeepInvariant(lines, i, foundAnswer, cleaned)
    {
      var line := lines[i];
      if IsMetaBullet(line) {
        KeepSkip(lines, i, foundAnswer, cleaned);
        continue;
      }
      ghost var found0, cleaned0 := foundAnswer, cleaned;
      // `line.strip()` is non-empty exactly when the line is not all whitespace (`StripEmpty`).
      if !foundAnswer && !AllSpace(line) && !StartsBullet(line) {
        foundAnswer := true;
      }
      if foundAnswer {
        cleaned := cleaned + [line];
      }
      KeepLine(lines, i, found0, cleaned0, foundAnswer, cleaned);
    }
    KeepDone(lines, foundAnswer, cleaned);
  }

  /** What the line loop has built after the first `i` lines: nothing before
      the first answer line, and the filtered lines from it on afterwards. */
  ghost predicate KeepInvariant(lines: seq<string>, i: nat, foundAnswer: bool, cleaned: seq<string>) {
    && i <= |lines|
    && (!foundAnswer ==> cleaned == [] && i <= FirstAnswer(lines))
    && (foundAnswer ==> FirstAnswer(lines) < i && cleaned == DropMeta(lines[FirstAnswer(lines)..i]))
  }

  /** Skipping a meta-commentary bullet keeps `KeepInvariant`. */
  lemma KeepSkip(lines: seq<string>, i: nat, found: bool, cleaned: seq<string>)
    requires i < |lines| && IsMetaBullet(lines[i]) && KeepInvariant(lines, i, found, cleaned)
    ensures KeepInvariant(lines, i + 1, found, cleaned)
  {
    if found {
      KeepAfterStart(lines, i, cleaned);
    } else {
      KeepBeforeStart(lines, i);
    }
  }

  /** Any other line switches `foundAnswer` on if it starts the answer, and is
      kept once it is on; that keeps `KeepInvariant`. */
  lemma KeepLine(lines: seq<string>, i: nat, found: bool, cleaned: seq<string>, found': bool, cleaned': seq<string>)
    requires i < |lines| && !IsMetaBullet(lines[i]) && KeepInvariant(lines, i, found, cleaned)
    requires found' == (found || (!AllSpace(lines[i]) && !StartsBullet(lines[i])))
    requires cleaned' == if found' then cleaned + [lines[i]] else cleaned
    ensures KeepInvariant(lines, i + 1, found', cleaned')
  {
    if found {
      KeepAfterStart(lines, i, cleaned);
    } else if found' {
      KeepAtStart(lines, i);
    } else {
      KeepBeforeStart(lines, i);
    }
  }

  /** After the first answer line, the filter extends by line `i` unless it is meta-commentary. */
  lemma KeepAfterStart(lines: seq<string>, i: nat, cleaned: seq<string>)
    requires FirstAnswer(lines) < i < |lines| && cleaned == DropMeta(lines[FirstAnswer(lines)..i])
    ensures DropMeta(lines[FirstAnswer(lines)..i + 1]) == cleaned + (if IsMetaBullet(lines[i]) then [] else [lines[i]])
  {
    DropMetaSlice(lines, FirstAnswer(lines), i);
  }

  /** Filtering a slice one line longer extends the filtered slice by that line, unless it is meta-commentary. */
  lemma DropMetaSlice(lines: seq<string>, start: nat, i: nat)
    requires start <= i < |lines|
    ensures DropMeta(lines[start..i + 1]) == DropMeta(lines[start..i]) + (if IsMetaBullet(lines[i]) then [] else [lines[i]])
  {
    var prefix := lines[start..i];
    assert lines[start..i + 1] == prefix + [lines[i]];
    DropMetaSnoc(prefix, lines[i]);
  }

  /** An answer line reached before any other is the first answer line, and is kept. */
  lemma KeepAtStart(lines: seq<string>, i: nat)
    requires i < |lines| && i <= FirstAnswer(lines) && IsAnswerStart(lines[i])
    ensures FirstAnswer(lines) == i && DropMeta(lines[i..i + 1]) == [lines[i]]
  {
    FirstAnswerFirst(lines);
    assert lines[i..i + 1] == [] + [lines[i]];
    DropMetaSnoc([], lines[i]);
  }

  /** A line that does not start the answer, reached before the first answer line, lies before it. */
  lemma KeepBeforeStart(lines: seq<string>, i: nat)
    requires i < |lines| && i <= FirstAnswer(lines) && !IsAnswerStart(lines[i])
    ensures i < FirstAnswer(lines)
  {
    FirstAnswerFirst(lines);
  }

  /** When the line loop ends, it has built `Kept(lines)`. */
  lemma KeepDone(lines: seq<string>, foundAnswer: bool, cleaned: seq<string>)
    requires KeepInvariant(lines, |lines|, foundAnswer, cleaned)
    ensures cleaned == Kept(lines)
  {
    assert lines[FirstAnswer(lines)..|lines|] == lines[FirstAnswer(lines)..];
  }

  /** `clean_response(None)` is `None`; any string is cleaned as above. */
  method CleanOptional(text: Option<string>) returns (r: Option<string>)
    ensures text.None? ==> r.None?
    ensures text.Some? ==> r.Some? && r.value == Clean(text.value)
  {
    if text.None? {
      return None;
    }
    var cleaned := CleanResponse(text.value);
    r := Some(cleaned);
  }

  /** When a marker occurs, the answer is what follows the furthest-right
      match end, stripped; that offset ends an occurrence of a pattern, and the
      answer itself contains no marker. */
  lemma CleanMarkerCut(text: string)
    requires exists p, i: nat :: p in ReasoningPatterns && Occurs(text, p, i)
    ensures var e := MarkerEnd(text);
            && 0 <= e <= |text|
            && Clean(text) == Strip(text[e..])
            && (exists p :: p in ReasoningPatterns && |p| <= e && Occurs(text, p, e - |p|))
            && NoMarker(Clean(text))
  {
    MaxEndFound(text, ReasoningPatterns);
    MaxEndIsMatchEnd(text, ReasoningPatterns);
    CutHasNoMarker(text, MarkerEnd(text));
  }

  /** Without a marker the answer is built from the kept lines: a subsequence
      of the input lines, free of meta-commentary bullets, holding every
      other line from the first answer line on, as often as it occurs there;
      when their stripped join is empty, the stripped input is returned. */
  lemma CleanLinePath(text: string)
    requires text != [] && NoMarker(text)
    ensures var lines := Split(text, '\n');
            var kept := Kept(lines);
            && Subsequence(kept, lines[FirstAnswer(lines)..])
            && Subsequence(kept, lines)
            && (forall l :: l in kept ==> !IsMetaBullet(l))
            && (forall l :: !IsMetaBullet(l) ==> multiset(kept)[l] == multiset(lines[FirstAnswer(lines)..])[l])
            && Clean(text) == (if Strip(Join(kept, "\n")) != [] then Strip(Join(kept, "\n")) else Strip(text))
  {
    CleanNoMarker(text);
    KeptLines(Split(text, '\n'));
  }

  /** Without a marker the cleaner takes the line path. */
  lemma CleanNoMarker(text: string)
    requires text != [] && NoMarker(text)
    ensures var kept := Kept(Split(text, '\n'));
            Clean(text) == (if Strip(Join(kept, "\n")) != [] then Strip(Join(kept, "\n")) else Strip(text))
  {
    MaxEndFound(text, ReasoningPatterns);
  }

  /** The kept lines come from the first answer line on, in order, without
      meta-commentary bullets, and with every other line as often as it occurs there. */
  lemma KeptLines(lines: seq<string>)
    ensures var kept := Kept(lines);
            && Subsequence(kept, lines[FirstAnswer(lines)..])
            && Subsequence(kept, lines)
            && (forall l :: l in kept ==> !IsMetaBullet(l))
            && (forall l :: !IsMetaBullet(l) ==> multiset(kept)[l] == multiset(lines[FirstAnswer(lines)..])[l])
  {
    var n := FirstAnswer(lines);
    DropMetaFiltered(lines[n..]);
    SubsequenceOfSuffix(DropMeta(lines[n..]), lines, n);
    DropMetaCounts(lines[n..]);
  }

  /** A subsequence of a suffix is a subsequence of the whole. */
  lemma {:induction false} SubsequenceOfSuffix(a: seq<string>, b: seq<string>, n: nat)
    requires n <= |b| && Subsequence(a, b[n..])
    ensures Subsequence(a, b)
    decreases |b|
  {
    if a != [] && n < |b| {
      var b', bs := b[..|b| - 1], b[n..];
      assert bs[..|bs| - 1] == b'[n..];
      if a[|a| - 1] == bs[|bs| - 1] && Subsequence(a[..|a| - 1], bs[..|bs| - 1]) {
        SubsequenceOfSuffix(a[..|a| - 1], b', n);
      } else {
        SubsequenceOfSuffix(a, b', n);
      }
    }
  }

  /** Without a marker the answer is empty exactly when the input is blank:
      a non-blank input never yields an empty answer. */
  lemma CleanEmptyIffBlank(text: string)
    requires NoMarker(text)
    ensures Clean(text) == [] <==> AllSpace(text)
  {
    MaxEndFound(text, ReasoningPatterns);
    StripEmpty(text);
    if text != [] && AllSpace(text) {
      var lines := Split(text, '\n');
      JoinAllSpace(lines, "\n");
      assert Kept(lines) == [];
    }
  }

  /** A whitespace-only input yields the empty answer. */
  lemma CleanWhitespaceOnly(text: string)
    requires AllSpace(text)
    ensures Clean(text) == []
  {
    SpaceHasNoMarker(text);
    CleanEmptyIffBlank(text);
  }

  /** Text with no marker and no meta-commentary bullet line, that neither
      starts with whitespace or a bullet character nor ends with whitespace,
      is returned unchanged. */
  lemma CleanFixedPoint(text: string)
    requires NoMarker(text)
    requires forall l :: l in Split(text, '\n') ==> !IsMetaBullet(l)
    requires text != [] ==> PlainEnds(text)
    ensures Clean(text) == text
  {
    if text != [] {
      MaxEndFound(text, ReasoningPatterns);
      var lines := Split(text, '\n');
      FirstLineAnswers(text);
      DropMetaNone(lines);
      assert Kept(lines) == lines;
      StripUnchanged(text);
    }
  }

  /** Neither end is whitespace, and the text does not open with a bullet character. */
  predicate PlainEnds(text: string) {
    |text| > 0 && !IsSpace(text[0]) && text[0] != '-' && text[0] != '*' && !IsSpace(text[|text| - 1])
  }

  /** A text that opens with a visible non-bullet character opens with its answer line. */
  lemma FirstLineAnswers(text: string)
    requires PlainEnds(text)
    requires forall l :: l in Split(text, '\n') ==> !IsMetaBullet(l)
    ensures FirstAnswer(Split(text, '\n')) == 0
  {
    var lines := Split(text, '\n');
    JoinFirst(lines, "\n");
    assert lines[0] != [] && lines[0][0] == text[0];
    assert !IsMetaBullet(lines[0]);
    assert IsAnswerStart(lines[0]);
  }
}
