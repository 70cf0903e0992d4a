/**
 * Two shapes of model output and what the cleaner makes of them: a marker
 * wrapped in backquotes, and meta-commentary bullets around the answer
 * line; each is proved in general and then for a concrete text.
 *
 * The concrete texts enter each lemma as parameters fixed by `requires`
 * rather than as constants. The solver then unfolds a string literal only
 * in the lemma that is about it, and the character facts are stated once,
 * in small helper lemmas (`MarkerExampleChars`, `PlainLine`,
 * `ExampleLineChars`). Over constants, every proof that mentions one
 * unfolds its literal, which costs the solver considerably more.
 */
module SanitizerExamples {
  import opened Text
  import opened Markers
  import opened Lines
  import opened Sanitizer

  /** Whatever precedes a backquoted `</think>` (so long as it holds no
      backquote), the answer is the text after it, stripped, provided that
      text holds no backquote or `>` that could close a later marker. */
  lemma BackquotedMarkerCut(head: string, bt: string, tail: string)
    requires bt == "`</think>`"
    requires '`' !in head && '`' !in tail && '>' !in tail
    ensures MarkerEnd(head + bt + tail) == |head| + |bt|
    ensures Clean(head + bt + tail) == Strip(tail)
  {
    BackquotedMarkerEnd(head, bt, tail);
    var text := head + bt + tail;
    assert text[|head| + |bt|..] == tail;
  }

  /** The cut offset is the end of the backquoted marker: no match ends
      earlier than it, and none later, since `tail` holds no closing character. */
  lemma BackquotedMarkerEnd(head: string, bt: string, tail: string)
    requires bt == "`</think>`"
    requires '`' !in head && '`' !in tail && '>' !in tail
    ensures MarkerEnd(head + bt + tail) == |head| + |bt|
  {
    var text := head + bt + tail;
    var n := |head|;
    FirstOccurrence(head, bt, tail);
    MaxEndCoversFirst(text, ReasoningPatterns, bt, n);
    CutFollowsCloser(text);
    forall k | n + |bt| <= k < |text| ensures text[k] != '`' && text[k] != '>' {
      assert text[k] == tail[k - n - |bt|];
    }
  }

  /** The backquoted marker occurs right after `head`, and nowhere before. */
  lemma FirstOccurrence(head: string, bt: string, tail: string)
    requires bt == "`</think>`" && '`' !in head
    ensures bt in ReasoningPatterns
    ensures Occurs(head + bt + tail, bt, |head|)
    ensures forall j: nat :: j < |head| ==> !Occurs(head + bt + tail, bt, j)
  {
    var text := head + bt + tail;
    assert text[|head|..|head| + |bt|] == bt;
    MatchesAtSame(text, |head|, bt);
    forall j: nat | j < |head| ensures !Occurs(text, bt, j) {
      assert text[j] == head[j] && head[j] in head;
    }
  }

  /** A text cut after a backquoted marker. */
  lemma MarkerExample(head: string, bt: string, tail: string, answer: string)
    requires head == "some text " && bt == "`</think>`" && tail == " ANSWER HERE" && answer == "ANSWER HERE"
    ensures Clean(head + bt + tail) == answer
  {
    MarkerExampleChars(head, tail, answer);
    BackquotedMarkerCut(head, bt, tail);
    StripOneBlank(tail, answer);
  }

  /** The characters of the marker example that the cut depends on. */
  lemma MarkerExampleChars(head: string, tail: string, answer: string)
    requires head == "some text " && tail == " ANSWER HERE" && answer == "ANSWER HERE"
    ensures '`' !in head && '`' !in tail && '>' !in tail
    ensures tail == " " + answer && !IsSpace(answer[0]) && !IsSpace(answer[|answer| - 1])
  {
  }

  /** One blank before a text that neither starts nor ends with whitespace is all `Strip` removes. */
  lemma StripOneBlank(s: string, answer: string)
    requires s == " " + answer && answer != [] && !IsSpace(answer[0]) && !IsSpace(answer[|answer| - 1])
    ensures Strip(s) == answer
  {
    assert s[1..] == answer;
    assert LeadingSpaces(s) == 1;
  }

  /** Meta-commentary bullets are dropped before AND after the answer line:
      with no marker, a meta bullet, an answer line and another meta bullet
      give the answer line alone, stripped. */
  lemma MetaAroundAnswer(l1: string, l2: string, l3: string)
    requires IsMetaBullet(l1) && IsAnswerStart(l2) && IsMetaBullet(l3)
    requires '\n' !in l1 && '\n' !in l2 && '\n' !in l3
    requires NoMarker(l1 + "\n" + l2 + "\n" + l3)
    ensures Clean(l1 + "\n" + l2 + "\n" + l3) == Strip(l2)
  {
    var text := l1 + "\n" + l2 + "\n" + l3;
    MaxEndFound(text, ReasoningPatterns);
    StripEmpty(l2);
    var lines := [l1, l2, l3];
    ThreeLines(l1, l2, l3);
    assert FirstAnswer(lines) == 1;
    assert lines[1..] == [l2] + [l3];
    DropMetaSnoc([l2], l3);
    assert DropMeta([l2]) == [l2] by {
      DropMetaSnoc([], l2);
    }
    assert Kept(lines) == [l2];
  }

  /** Three lines without a line break split back into those three lines. */
  lemma ThreeLines(l1: string, l2: string, l3: string)
    requires '\n' !in l1 && '\n' !in l2 && '\n' !in l3
    ensures Split(l1 + "\n" + l2 + "\n" + l3, '\n') == [l1, l2, l3]
  {
    var lines := [l1, l2, l3];
    assert lines[1..] == [l2, l3] && lines[1..][1..] == [l3];
    assert Join(lines, "\n") == l1 + "\n" + l2 + "\n" + l3;
    SplitJoin(lines, '\n');
  }

  /** Lines holding neither a backquote nor `<` join into a text without a marker. */
  lemma NoOpenerLines(l1: string, l2: string, l3: string)
    requires '`' !in l1 && '`' !in l2 && '`' !in l3
    requires '<' !in l1 && '<' !in l2 && '<' !in l3
    ensures NoMarker(l1 + "\n" + l2 + "\n" + l3)
  {
    NoOpenerNoMarker(l1 + "\n" + l2 + "\n" + l3);
  }

  /** A bullet of the form `- I should ...` is meta-commentary. */
  lemma IShouldBullet(line: string)
    requires |line| >= 10 && line[..10] == "- I should"
    ensures IsMetaBullet(line)
  {
    var rest := line[1..];
    assert rest[0] == ' ' && rest[1] == 'I';
    assert LeadingSpaces(rest) == 1;
    var q := "I should";
    assert line[2..][0..8] == q;
    MatchesAtSame(line[2..], 0, q);
  }

  /** The example's lines hold no line break and no marker opener. */
  lemma PlainLine(l: string)
    requires l == "- I should explain" || l == "Actual answer line" || l == "- I should note"
    ensures '\n' !in l && '`' !in l && '<' !in l
  {
  }

  /** The answer line between two meta-commentary bullets is all that is left. */
  lemma BulletExample(l1: string, l2: string, l3: string)
    requires l1 == "- I should explain" && l2 == "Actual answer line" && l3 == "- I should note"
    ensures Clean(l1 + "\n" + l2 + "\n" + l3) == "Actual answer line"
  {
    IShouldBullet(l1);
    IShouldBullet(l3);
    assert l2[0] == 'A' && l2[|l2| - 1] == 'e';
    assert IsAnswerStart(l2);
    PlainLine(l1);
    PlainLine(l2);
    PlainLine(l3);
    NoOpenerLines(l1, l2, l3);
    MetaAroundAnswer(l1, l2, l3);
    StripUnchanged(l2);
  }

  /** Cleaning is not idempotent: a line opening with blanks starts the answer
      and is kept, but stripping the kept text turns it into a bullet line,
      which a second pass no longer counts as the answer's start. */
  lemma CleanNotIdempotent(a: string, c: string, b: string)
    requires a == "  - x" && c == "- x" && b == "foo"
    ensures Clean(a + "\n" + b) == c + "\n" + b
    ensures Clean(c + "\n" + b) == b
    ensures Clean(Clean(a + "\n" + b)) != Clean(a + "\n" + b)
  {
    IndentedLineFirst(a, c, b);
    BulletLineDropped(c, b);
  }

  /** The characters of the idempotence example that the cleaner looks at. */
  lemma ExampleLineChars(a: string, c: string, b: string)
    requires a == "  - x" && c == "- x" && b == "foo"
    ensures '\n' !in a && '\n' !in b && '\n' !in c
    ensures '`' !in a && '`' !in b && '`' !in c && '<' !in a && '<' !in b && '<' !in c
    ensures |a| == 5 && a[0] == ' ' && a[1] == ' ' && a[2..] == c
    ensures |c| == 3 && c[0] == '-' && c[1] == ' ' && c[2] == 'x'
    ensures |b| == 3 && b[0] == 'f' && b[2] == 'o'
  {
  }

  /** Two lines without a line break split back into those two lines. */
  lemma TwoLines(l1: string, l2: string)
    requires '\n' !in l1 && '\n' !in l2
    ensures Split(l1 + "\n" + l2, '\n') == [l1, l2]
    ensures Join([l1, l2], "\n") == l1 + "\n" + l2
  {
    var lines := [l1, l2];
    assert lines[1..] == [l2];
    assert Join(lines, "\n") == l1 + "\n" + l2;
    SplitJoin(lines, '\n');
  }

  /** A text without a backquote or `<` leaves the marker cut off. */
  lemma NoOpenerNoCut(text: string)
    requires text != [] && '`' !in text && '<' !in text
    ensures MarkerEnd(text) == -1
  {
    NoOpenerNoMarker(text);
    MaxEndFound(text, ReasoningPatterns);
  }

  /** First pass: the indented line starts the answer, both lines are kept,
      and stripping removes only the two leading blanks. */
  lemma IndentedLineFirst(a: string, c: string, b: string)
    requires a == "  - x" && c == "- x" && b == "foo"
    ensures Clean(a + "\n" + b) == c + "\n" + b
  {
    ExampleLineChars(a, c, b);
    var t := a + "\n" + b;
    NoOpenerNoCut(t);
    TwoLines(a, b);
    assert !AllSpace(a) by { assert !IsSpace(a[2]); }
    assert IsAnswerStart(a);
    var lines := [a, b];
    assert FirstAnswer(lines) == 0;
    assert lines[0..] == lines;
    DropMetaNone(lines);
    assert Kept(lines) == lines;
    assert t[..2] == "  " && t[2] == '-';
    LeadingSpacesIs(t, 2);
    assert t[|t| - 1] == 'o';
    assert TrailingCut(t, 2) == |t|;
    assert t[2..] == c + "\n" + b;
  }

  /** A phrase of the meta-commentary regex is at least four characters long,
      so a shorter text opens with none of them. */
  lemma {:induction false} ShortHasNoPhrase(s: string, k: nat)
    requires |s| < 4
    ensures !PhraseFrom(s, k)
    decreases 4 - k
  {
    if k < 4 {
      ShortHasNoPhrase(s, k + 1);
    }
  }

  /** Second pass: `- x` is a bullet without a meta phrase, so it is neither
      dropped as meta-commentary nor an answer start, and only `foo` is kept. */
  lemma BulletLineDropped(c: string, b: string)
    requires c == "- x" && b == "foo"
    ensures Clean(c + "\n" + b) == b
  {
    ExampleLineChars("  - x", c, b);
    var t := c + "\n" + b;
    NoOpenerNoCut(t);
    TwoLines(c, b);
    var rest := c[1..];
    assert rest[..1] == " " && rest[1] == 'x';
    LeadingSpacesIs(rest, 1);
    ShortHasNoPhrase(c[2..], 0);
    assert !IsMetaBullet(c);
    assert !IsAnswerStart(c);
    assert !AllSpace(b) by { assert !IsSpace(b[0]); }
    assert IsAnswerStart(b);
    var lines := [c, b];
    assert lines[1..] == [b];
    assert FirstAnswer(lines) == 1;
    DropMetaSnoc([], b);
    assert [] + [b] == [b];
    assert Kept(lines) == [b];
    StripUnchanged(b);
  }

  /** "`</think>`" overlaps itself by one backquote. In the text below it occurs
      at offsets 0 and 9, but `finditer` resumes after the match at 0 and so
      yields only that one; the cut is the end of the later plain `</think>`
      at 18, not the end 19 of the occurrence `finditer` skips. */
  lemma SelfOverlapCut(t: string, bt: string, q: string)
    requires bt == "`</think>`" && q == "</think>" && t == bt + q + "`"
    ensures Occurs(t, bt, 9) && FindIter(t, bt, 0) == [Match(0, 10)]
    ensures MarkerEnd(t) == 18
    ensures Clean(t) == "`"
  {
    OverlapChars(t, bt, q);
    OverlapBackquoted(t, bt, q);
    OverlapPlain(t, bt, q);
    MaxEndIsLargest(t, ReasoningPatterns);
    assert q in ReasoningPatterns;
    assert 18 <= MarkerEnd(t);
    if MarkerEnd(t) == 19 {
      MaxEndIsYielded(t, ReasoningPatterns);
      OverlapNoLaterEnd(t, bt, q);
      assert false;
    }
    StripUnchanged(t[18..]);
  }

  /** The characters of the self-overlapping text that the scan depends on. */
  lemma OverlapChars(t: string, bt: string, q: string)
    requires bt == "`</think>`" && q == "</think>" && t == bt + q + "`"
    ensures |t| == 19 && t[0..10] == bt && t[9..19] == bt && t[1..9] == q && t[10..18] == q
    ensures t[0] == '`' && t[9] == '`' && t[7] == 'k' && t[8] == '>' && t[11] == '/' && t[12] == 't'
    ensures t[18..] == "`"
  {
  }

  /** `finditer` yields the backquoted marker once, at 0, and skips its occurrence at 9. */
  lemma OverlapBackquoted(t: string, bt: string, q: string)
    requires bt == "`</think>`" && q == "</think>" && t == bt + q + "`"
    ensures Occurs(t, bt, 9) && FindIter(t, bt, 0) == [Match(0, 10)]
  {
    OverlapChars(t, bt, q);
    MatchesAtSame(t, 0, bt);
    MatchesAtSame(t, 9, bt);
    assert FindIter(t, bt, 10) == [];
  }

  /** `finditer` yields the plain `</think>` at 1 and at 10. */
  lemma OverlapPlain(t: string, bt: string, q: string)
    requires bt == "`</think>`" && q == "</think>" && t == bt + q + "`"
    ensures Match(10, 18) in FindIter(t, q, 0)
  {
    OverlapChars(t, bt, q);
    assert !Occurs(t, q, 0) && !Occurs(t, q, 9) by {
      MatchesAtChars(t, 0, q);
      MatchesAtChars(t, 9, q);
      assert q[0] == '<';
    }
    MatchesAtSame(t, 1, q);
    MatchesAtSame(t, 10, q);
    assert FindIter(t, q, 10) == [Match(10, 18)] + FindIter(t, q, 18);
    assert FindIter(t, q, 1) == [Match(1, 9)] + FindIter(t, q, 10);
    assert FindIter(t, q, 0)[1] == Match(10, 18);
  }

  /** No match `finditer` yields for any marker ends at 19: the backquoted
      marker's only match ends at 10, and no other marker occurs so as to end there. */
  lemma OverlapNoLaterEnd(t: string, bt: string, q: string)
    requires bt == "`</think>`" && q == "</think>" && t == bt + q + "`"
    ensures forall p, m :: p in ReasoningPatterns && m in FindIter(t, p, 0) ==> m.end != 19
  {
    OverlapChars(t, bt, q);
    OverlapBackquoted(t, bt, q);
    forall p, m | p in ReasoningPatterns && m in FindIter(t, p, 0) ensures m.end != 19 {
      if m.end == 19 && p != bt {
        assert Occurs(t, p, m.start) && m.start == 19 - |p|;
        MatchesAtChars(t, m.start, p);
      }
    }
  }
}
