/**
 * Phase 2 of the response cleaner, used only when no reasoning marker occurs:
 * a line-by-line heuristic that drops the model's meta-commentary bullets and
 * everything before the first line that reads like an answer.
 */
module Lines {
  import opened Text

  /** `re.match(r'^[-*]', line)`: the line opens with a bullet character. */
  predicate StartsBullet(line: string) {
    |line| > 0 && (line[0] == '-' || line[0] == '*')
  }

  /** The alternatives of the meta-commentary regex, in the order they are tried. */
  function MetaPhrase(k: nat): (p: string)
    ensures |p| > 0
  {
    if k == 0 then "I should" else if k == 1 then "I'll" else if k == 2 then "I can" else "Let me"
  }

  /** `s` opens with one of the alternatives, matched ignoring case. */
  predicate StartsWithMetaPhrase(s: string) {
    PhraseFrom(s, 0)
  }

  /** `s` opens with one of the alternatives numbered `k` and up. */
  predicate PhraseFrom(s: string, k: nat)
    decreases 4 - k
  {
    k < 4 && (MatchesAt(s, 0, MetaPhrase(k)) || PhraseFrom(s, k + 1))
  }

  /** `re.match(r'^[-*]\s*(I should|I\'ll|I can|Let me)', line, re.IGNORECASE)`,
      reading the whitespace run after the bullet in full. */
  predicate IsMetaBullet(line: string) {
    StartsBullet(line) && StartsWithMetaPhrase(line[1 + LeadingSpaces(line[1..])..])
  }

  /** The same regex read the way a backtracking engine may: after the bullet,
      SOME run of whitespace, then one of the phrases. */
  ghost predicate MetaBulletRegex(line: string) {
    StartsBullet(line) &&
    exists k: nat :: 1 <= k <= |line| && AllSpace(line[1..k]) && StartsWithMetaPhrase(line[k..])
  }

  /** Every phrase opens with a letter, so a match can never begin on whitespace. */
  lemma PhraseStartsVisible(s: string)
    requires StartsWithMetaPhrase(s)
    ensures |s| > 0 && !IsSpace(s[0])
  {
    assert Lower(s[0]) == 'i' || Lower(s[0]) == 'l';
  }

  /** Taking the whitespace run greedily decides the regex exactly as backtracking does. */
  lemma MetaBulletGreedy(line: string)
    ensures IsMetaBullet(line) <==> MetaBulletRegex(line)
  {
    if IsMetaBullet(line) {
      GreedyMatchIsRegexMatch(line);
    }
    if MetaBulletRegex(line) {
      RegexMatchIsGreedyMatch(line);
    }
  }

  /** The greedy whitespace run is one the regex may take. */
  lemma GreedyMatchIsRegexMatch(line: string)
    requires IsMetaBullet(line)
    ensures MetaBulletRegex(line)
  {
    var k := 1 + LeadingSpaces(line[1..]);
    LeadingSpacesAll(line[1..]);
    assert line[1..k] == line[1..][..k - 1];
    assert StartsWithMetaPhrase(line[k..]);
  }

  /** Any whitespace run the regex takes is the greedy one, since a phrase never opens with whitespace. */
  lemma RegexMatchIsGreedyMatch(line: string)
    requires MetaBulletRegex(line)
    ensures IsMetaBullet(line)
  {
    var k: nat :| 1 <= k <= |line| && AllSpace(line[1..k]) && StartsWithMetaPhrase(line[k..]);
    var rest := line[1..];
    PhraseStartsVisible(line[k..]);
    assert rest[..k - 1] == line[1..k];
    assert rest[k - 1] == line[k..][0];
    LeadingSpacesIs(rest, k - 1);
  }

  /** The line that turns `found_answer` on: not meta-commentary, not blank
      (what `strip()` leaves is non-empty exactly then), and not opening with a bullet character. */
  predicate IsAnswerStart(line: string) {
    !IsMetaBullet(line) && !AllSpace(line) && !StartsBullet(line)
  }

  /** Index of the first answer line, or `|lines|` when there is none. */
  function FirstAnswer(lines: seq<string>): (n: nat)
    ensures n <= |lines|
  {
    if lines == [] then 0
    else if IsAnswerStart(lines[0]) then 0
    else 1 + FirstAnswer(lines[1..])
  }

  /** `FirstAnswer` finds the first answer line: none comes before it, and it is one. */
  lemma {:induction false} FirstAnswerFirst(lines: seq<string>)
    ensures forall j {:trigger IsAnswerStart(lines[j])} :: 0 <= j < FirstAnswer(lines) ==> !IsAnswerStart(lines[j])
    ensures FirstAnswer(lines) < |lines| ==> IsAnswerStart(lines[FirstAnswer(lines)])
  {
    if lines != [] && !IsAnswerStart(lines[0]) {
      FirstAnswerFirst(lines[1..]);
      forall j | 1 <= j < FirstAnswer(lines) ensures !IsAnswerStart(lines[j]) {
        assert lines[j] == lines[1..][j - 1];
      }
    }
  }

  /** `a` is `b` with some elements left out, the rest in their original order. */
  ghost predicate Subsequence(a: seq<string>, b: seq<string>)
    decreases |b|
  {
    if a == [] then true
    else if b == [] then false
    else
      var pairedLast := a[|a| - 1] == b[|b| - 1] && Subsequence(a[..|a| - 1], b[..|b| - 1]);
      pairedLast || Subsequence(a, b[..|b| - 1])
  }

  /** `lines` without its meta-commentary bullets, order and text unchanged. */
  function DropMeta(lines: seq<string>): (kept: seq<string>)
    ensures |kept| <= |lines|
  {
    if lines == [] then []
    else
      var kept := DropMeta(lines[..|lines| - 1]);
      var last := lines[|lines| - 1];
      if IsMetaBullet(last) then kept else kept + [last]
  }

  /** `DropMeta` keeps no meta-commentary bullet, and what it keeps is a
      subsequence of its input. */
  lemma {:induction false} DropMetaFiltered(lines: seq<string>)
    ensures forall l :: l in DropMeta(lines) ==> !IsMetaBullet(l)
    ensures Subsequence(DropMeta(lines), lines)
  {
    if lines != [] {
      var init, last := lines[..|lines| - 1], lines[|lines| - 1];
      DropMetaFiltered(init);
      var kept := DropMeta(init);
      if !IsMetaBullet(last) {
        assert (kept + [last])[..|kept|] == kept;
      } else {
        SubsequenceDropLast(kept, lines);
      }
    }
  }

  /** A subsequence of all but the last element is a subsequence of the whole. */
  lemma SubsequenceDropLast(a: seq<string>, b: seq<string>)
    requires b != [] && Subsequence(a, b[..|b| - 1])
    ensures Subsequence(a, b)
  {
  }

  /** `DropMeta` removes every meta-commentary bullet and keeps every other
      line exactly as many times as it occurs. */
  lemma {:induction false} DropMetaCounts(lines: seq<string>)
    ensures forall l :: multiset(DropMeta(lines))[l] == if IsMetaBullet(l) then 0 else multiset(lines)[l]
  {
    if lines != [] {
      var init, last := lines[..|lines| - 1], lines[|lines| - 1];
      assert lines == init + [last];
      DropMetaCounts(init);
    }
  }

  /** Filtering one more line extends the filtered list by that line, unless it is meta-commentary. */
  lemma DropMetaSnoc(lines: seq<string>, line: string)
    ensures DropMeta(lines + [line]) == DropMeta(lines) + (if IsMetaBullet(line) then [] else [line])
  {
    assert (lines + [line])[..|lines|] == lines;
  }

  /** The lines the cleaner keeps: from the first answer line on, minus meta bullets. */
  function Kept(lines: seq<string>): (kept: seq<string>)
    ensures kept == [] <==> forall j {:trigger IsAnswerStart(lines[j])} :: 0 <= j < |lines| ==> !IsAnswerStart(lines[j])
    ensures kept != [] ==> FirstAnswer(lines) < |lines| && kept[0] == lines[FirstAnswer(lines)]
  {
    var n := FirstAnswer(lines);
    var kept := DropMeta(lines[n..]);
    FirstAnswerFirst(lines);
    if n < |lines| then
      FirstKeptLine(lines[n..]);
      kept
    else
      kept
  }

  /** A list that opens with a line that is not meta-commentary keeps it first. */
  lemma {:induction false} FirstKeptLine(lines: seq<string>)
    requires |lines| > 0 && !IsMetaBullet(lines[0])
    ensures DropMeta(lines) != [] && DropMeta(lines)[0] == lines[0]
    decreases |lines|
  {
    if |lines| > 1 {
      var init := lines[..|lines| - 1];
      assert init[0] == lines[0];
      FirstKeptLine(init);
    }
  }

  /** Lines with no meta-commentary bullet pass the filter untouched. */
  lemma {:induction false} DropMetaNone(lines: seq<string>)
    requires forall l :: l in lines ==> !IsMetaBullet(l)
    ensures DropMeta(lines) == lines
  {
    if lines != [] {
      var init := lines[..|lines| - 1];
      assert forall l :: l in init ==> l in lines;
      DropMetaNone(init);
      assert lines == init + [lines[|lines| - 1]];
    }
  }
}
