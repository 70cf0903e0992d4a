# AgentForce Infotech chatbot API: answer cleaning and the chat pipeline

This project models the core of the chatbot service's `api.py` in Dafny and
proves properties of that model. The core has three parts:

- `clean_response`. It removes the model's visible reasoning from a raw
  answer. When a reasoning marker such as `</think>` occurs, it keeps the text
  after the marker match that ends furthest right. Otherwise it drops the
  lines before the first answer line and every meta-commentary bullet
  ("- I should …", "* Let me …"). When nothing is left, it falls back to the
  stripped input.
- The prompt. The user message is built with Python's `str.format` semantics:
  the template is parsed into literal characters and named fields, and each
  field is filled from the variables.
- The `/chat` handler. It retrieves documents, joins their contents into the
  context and formats the prompt. Then it lets the model answer, cleans the
  answer and lists one source per document. Any failure becomes an
  `Error: …` answer with no sources.

Modules, one file each:

- `Wrappers` holds `Option` and `Result`.
- `Text` models Python's `strip`, `split`, `join` and `find`, ASCII
  whitespace and case folding.
- `Markers` models `re.finditer` over the marker patterns and the
  furthest-right cut.
- `Lines` models the meta-commentary regex of line 63 as `IsMetaBullet`,
  the answer-start test of line 65 as `IsAnswerStart`, the first answer
  line as `FirstAnswer` and the line filter as `DropMeta` and `Kept`.
- `Sanitizer` holds the cleaner as the function `Clean` and as the method
  `CleanResponse`. That method runs the two loops the source runs:
  `FindReasoningEnd` (lines 44-53) and `KeepAnswerLines` (lines 58-68).
- `SanitizerExamples` works through two shapes of model output and two
  concrete texts. It gives a text that shows cleaning is not idempotent, and
  one where the backquoted marker overlaps itself, so `finditer` skips one of
  its occurrences.
- `Prompt` holds `str.format` as `Format`, which is the parser `Parse`
  followed by the renderer `Render`. It also holds the system text and the
  user template `UserTemplate`.
- `ChatApi` holds the `/chat` handler as the function `Chat`. The prompt the
  chain builds is `PromptMessages`, the context is `Context` and the source
  list is `Sources`.

Meta-commentary bullets are dropped wherever they occur, after the answer
line as well as before it: the `continue` on line 64 runs for every line. So
`"- I should explain\nActual answer line\n- I should note"` is cleaned to
`"Actual answer line"`, as `SanitizerExamples.BulletExample` proves.

## Model

| member | source | states |
|---|---|---|
| Sanitizer.Clean | api.py:30-72 | An empty input is returned unchanged. |
| Sanitizer.CleanResponse | api.py:30-72 | The method runs the marker loop and then, only when that loop found nothing, the line loop and the fallback. Its result equals `Clean`. |
| Sanitizer.CleanOptional | api.py:30-32 | `None` is returned as `None`. Any string is cleaned by `Clean`. |
| Sanitizer.FindReasoningEnd | api.py:44-53 | The loop over the pattern list finds no match exactly when no pattern occurs. Otherwise the match it keeps ends at the largest end offset of any pattern's last match. |
| Sanitizer.KeepAnswerLines | api.py:58-68 | The line loop builds exactly `Kept(lines)`: the lines from the first answer line on, minus meta-commentary bullets. |
| Sanitizer.KeepSkip | api.py:63-64 | Skipping a meta-commentary bullet keeps the loop invariant: nothing is kept before the first answer line, and the filtered lines from it on are kept. |
| Sanitizer.KeepLine | api.py:65-68 | Switching `found_answer` on at an answer line and appending once it is on keeps the loop invariant. |
| Sanitizer.KeepAfterStart | api.py:67-68 | After the first answer line, line `i` extends the kept lines unless it is meta-commentary. |
| Sanitizer.DropMetaSlice | api.py:62-68 | Filtering a slice one line longer extends the result by that line, unless the line is meta-commentary. |
| Sanitizer.KeepAtStart | api.py:65-66 | The first answer-start line the loop reaches is the first answer line, and it is kept. |
| Sanitizer.KeepBeforeStart | api.py:65 | A line before `found_answer` is switched on that does not start the answer lies before the first answer line. |
| Sanitizer.KeepDone | api.py:62-68 | When the loop ends, the list it built is `Kept(lines)`. |
| Sanitizer.CleanMarkerCut | api.py:55-56 | When a marker occurs, the answer is the stripped text after the cut offset. That offset is the end of a real occurrence of some pattern, and the answer contains no marker. |
| Sanitizer.CleanLinePath | api.py:58-72 | Without a marker, the kept lines are a subsequence of the input lines from the first answer line on, so nothing before that line is kept, and they contain no meta-commentary bullet. Every other line from the first answer line on is kept as often as it occurs. The answer is their stripped join, or the stripped input when that join is empty. |
| Sanitizer.CleanNoMarker | api.py:55-72 | Without a marker, the answer is the stripped join of the kept lines, or the stripped input when that join is empty. |
| Sanitizer.KeptLines | api.py:62-68 | The kept lines are a subsequence of the lines from the first answer line on, and so of all the lines. They contain no meta-commentary bullet, and every other line from the first answer line on is kept as often as it occurs. |
| Sanitizer.SubsequenceOfSuffix | api.py:62-68 | Lines kept from a suffix of the input are a subsequence of the whole input. |
| Sanitizer.CleanEmptyIffBlank | api.py:70-72 | Without a marker, the answer is empty exactly when the input is whitespace only. |
| Sanitizer.CleanWhitespaceOnly | api.py:70-72 | A whitespace-only input gives the empty answer. |
| Sanitizer.CleanFixedPoint | api.py:58-72 | Text with no marker and no meta-commentary bullet, with no whitespace at either end and no bullet character at the start, is returned unchanged. |
| Sanitizer.FirstLineAnswers | api.py:65 | Such a text starts with its answer line. |
| Markers.FindIter | api.py:48 | `re.finditer` of a literal pattern, ignoring case, yields non-overlapping occurrences of the pattern in increasing order. |
| Markers.FindIterNone | api.py:48-49 | When `finditer` yields nothing, the pattern occurs nowhere from that offset on. |
| Markers.FindIterFirst | api.py:48 | No occurrence starts before the first match `finditer` yields. |
| Markers.FindIterGap | api.py:48 | No occurrence starts between the end of one match `finditer` yields and the start of the next: the scan resumes at a match's end and yields the next occurrence it meets. |
| Markers.FindIterLast | api.py:50 | No occurrence starts at or after the end of the last match (`matches[-1]`). |
| Markers.FindIterLastAfterHit | api.py:50 | The same, when a match starts at the scan offset. |
| Markers.OnlyHit | api.py:50 | A match with no later match is the last match. |
| Markers.LastOfRest | api.py:50 | After a match, the last match is the last match of the rest of the scan. |
| Markers.LastEnd | api.py:48-50 | The end of a pattern's last match, or -1, stays within the text. |
| Markers.MaxEnd | api.py:47-53 | The largest last-match end over the patterns, or -1, stays within the text. |
| Markers.MarkerEnd | api.py:34-53 | The cut offset over the cleaner's seven patterns, or -1, stays within the text. |
| Markers.MaxEndFound | api.py:49-55 | A marker is found exactly when some pattern occurs somewhere in the text. |
| Markers.MaxEndIsMatchEnd | api.py:50-53 | A cut offset of 0 or more is the end of an occurrence of one of the patterns. |
| Markers.MaxEndNoLater | api.py:47-53 | Every occurrence of every pattern starts before the cut offset. |
| Markers.MaxEndCoversFirst | api.py:47-53 | The first occurrence of any pattern ends at or before the cut offset. |
| Markers.MaxEndUpper | api.py:50-53 | Each pattern's last-match end is at most the cut offset. |
| Markers.MaxEndAttained | api.py:50-53 | A cut offset of 0 or more is the last-match end of one of the patterns. |
| Markers.MaxEndIsLargest | api.py:47-53 | Every match `finditer` yields for any pattern ends at or before the cut offset. |
| Markers.MatchEndUpper | api.py:47-53 | The same, for the match at one index of one pattern's matches. |
| Markers.MaxEndIsYielded | api.py:50-53 | A cut offset of 0 or more is the end of a match `finditer` yields for one of the patterns, not only the end of some occurrence. |
| Markers.LastMatchLatest | api.py:50 | Every match `finditer` yields ends no later than the last one. |
| Markers.OccursInSlice | api.py:56 | An occurrence in a slice of the text is an occurrence in the text. |
| Markers.SliceHasNone | api.py:56 | A slice of a text without a pattern holds none either. |
| Markers.StripHasNone | api.py:56 | Stripping a text without a pattern leaves a text without one. |
| Markers.AfterCutHasNone | api.py:56 | The text after the cut offset holds no pattern. |
| Markers.CutHasNone | api.py:56 | The stripped text from any offset at or after the cut holds no pattern. |
| Markers.CutHasNoMarker | api.py:55-56 | The returned answer holds no reasoning marker. |
| Markers.PatternsOpen | api.py:34-42 | Every pattern starts with a backquote or `<`. |
| Markers.PatternsClose | api.py:34-42 | Every pattern ends with `>` or a backquote. |
| Markers.NoOpenerNone | api.py:48 | A text with neither a backquote nor `<` holds none of the patterns. |
| Markers.NoOpenerNoMarker | api.py:48-55 | A text with neither a backquote nor `<` holds no marker. |
| Markers.SpaceHasNoMarker | api.py:48-55 | Whitespace holds no marker. |
| Markers.CutFollowsCloser | api.py:34-56 | The character just before the cut offset is `>` or a backquote. |
| Markers.CloserAt | api.py:50-53 | The same, for any pattern list whose patterns all end in one of these characters. |
| Lines.MetaPhrase | api.py:63 | Each alternative of the meta-commentary regex is non-empty. |
| Lines.PhraseStartsVisible | api.py:63 | Every alternative starts with a letter, so a match never starts on whitespace. |
| Lines.MetaBulletGreedy | api.py:63 | Taking the whitespace after the bullet greedily decides the meta-commentary regex (a bullet, optional whitespace, then one of four phrases, ignoring case) exactly as a backtracking engine does, in both directions. |
| Lines.GreedyMatchIsRegexMatch | api.py:63 | A greedy match is a regex match. |
| Lines.RegexMatchIsGreedyMatch | api.py:63 | Any regex match is the greedy one. |
| Lines.FirstAnswer | api.py:65-66 | The index of the first answer line is at most the number of lines. |
| Lines.FirstAnswerFirst | api.py:65-66 | No line before `FirstAnswer` starts the answer, and the line at it does. |
| Lines.DropMeta | api.py:63-64 | Filtering never adds lines. |
| Lines.DropMetaFiltered | api.py:63-64 | The filtered lines hold no meta-commentary bullet and are a subsequence of the input. |
| Lines.SubsequenceDropLast | api.py:63-64 | A subsequence of all but the last line is a subsequence of all the lines. |
| Lines.DropMetaCounts | api.py:63-68 | The filter removes every meta-commentary bullet and keeps every other line exactly as many times as it occurs. |
| Lines.DropMetaSnoc | api.py:62-68 | Filtering one more line appends it unless it is meta-commentary. |
| Lines.Kept | api.py:62-68 | Nothing is kept exactly when no line starts the answer. Otherwise the first kept line is the first answer line. |
| Lines.FirstKeptLine | api.py:67-68 | Lines that start with a line that is not meta-commentary keep it first. |
| Lines.DropMetaNone | api.py:63-64 | Lines with no meta-commentary bullet pass the filter unchanged. |
| Text.LowerEqual | api.py:48 | Under `re.IGNORECASE` two characters match exactly when they are equal or are the capital and small forms of one ASCII letter. |
| Text.MatchesFromChars | api.py:48 | A match compares each remaining character, ignoring case. |
| Text.MatchesAtChars | api.py:48 | A match at an offset pairs each pattern character with the text character as far along, ignoring case. |
| Text.MatchLastChar | api.py:50-51 | A match ends on the last character of the pattern, up to case. |
| Text.MatchesAtSame | api.py:48 | Text that holds the pattern verbatim matches it there. |
| Text.LeadingSpaces | api.py:63 | `\s*` stops at the first non-whitespace character. |
| Text.LeadingSpacesAll | api.py:63 | Everything `\s*` consumes is whitespace. |
| Text.LeadingSpacesIs | api.py:63 | A whitespace run followed by a non-space, or by the end, is exactly what `\s*` consumes. |
| Text.TrailingCut | api.py:56 | Trailing whitespace is cut back to a non-space character, never below the given lower bound. |
| Text.TrailingCutAll | api.py:56 | Everything cut from the end is whitespace. |
| Text.Strip | api.py:56 | `str.strip()` never lengthens its input and leaves no whitespace at either end. |
| Text.StripSlice | api.py:56 | `strip` keeps one slice of the input and removes only whitespace. |
| Text.StripEmpty | api.py:65 | `line.strip()` is empty exactly when the line is whitespace only. |
| Text.StripUnchanged | api.py:70-72 | A string with no whitespace at either end is left unchanged by `strip`. |
| Text.IndexOf | api.py:58 | Finding a character gives its first index, or nothing exactly when it is absent. |
| Text.IndexOfAt | api.py:58 | The first index of a character is found. |
| Text.Join | api.py:70 | A join of one piece is that piece. |
| Text.JoinLength | api.py:70 | A join ends right after its last piece. |
| Text.JoinSuffix | api.py:118 | From the offset of piece `i` on, the join is the join of the pieces from `i` on. |
| Text.JoinAt | api.py:118 | Each piece appears in the join at its offset, followed by the separator unless it is the last. |
| Text.Split | api.py:58 | `split('\n')` gives at least one piece, no piece contains the separator, and joining the pieces back gives the input. |
| Text.SplitJoin | api.py:58 | `split` undoes `join` when no piece contains the separator. |
| Text.JoinFirst | api.py:70 | The first piece starts the join, followed by the separator when more pieces follow. |
| Text.JoinAllSpace | api.py:70-72 | When the join is all whitespace, so is every piece. |
| Prompt.PieceText | api.py:85-90 | Every piece is written as non-empty template text. |
| Prompt.Unparse | api.py:85-90 | Pieces are written as empty text exactly when there are none. |
| Prompt.ParseUnparse | api.py:85-90 | A successfully parsed template is written back exactly, and its field names contain no braces. |
| Prompt.FirstPiece | api.py:85-90 | A successful parse reads its first piece off the front of the template. |
| Prompt.FirstField | api.py:86 | A single `{` opens a field that runs to the next `}`. |
| Prompt.UnparseParse | api.py:85-90 | Writing pieces out and parsing them back gives the same pieces. |
| Prompt.ParsePieceThen | api.py:85-90 | A written piece in front of any text parses to that piece first. |
| Prompt.ParseCharThen | api.py:85-90 | A literal character, escaped if it is a brace, parses to itself. |
| Prompt.ParseFieldThen | api.py:86 | A braced name without braces parses to a field. |
| Prompt.CharsPieces | api.py:85 | The literal pieces of a text are one per character: piece `i` is the character at `i`. `Prompt.ParsePlainThen` shows that brace-free text parses to exactly these pieces. |
| Prompt.ParsePlainThen | api.py:85-90 | Brace-free text in front of a template parses to its characters followed by the template's pieces, and only when the template parses. |
| Prompt.RenderPiece | api.py:121-124 | A piece fails exactly when it is a field with no variable. |
| Prompt.RenderOk | api.py:121-124 | Formatting succeeds exactly when every field has a variable. |
| Prompt.RenderAppend | api.py:121-124 | Rendering two piece sequences one after the other gives the two renderings joined. |
| Prompt.RenderChars | api.py:85-90 | Literal characters render to themselves. |
| Prompt.FormatPlain | api.py:85-90 | A template without braces formats to itself, whatever the variables. |
| Prompt.PlaceholderField | api.py:86-88 | A placeholder `{name}` with a brace-free name parses back to that one field. It formats to the variable's value, and fails exactly when the variable is missing. |
| Prompt.PromptVarsFields | api.py:121-124 | The chain is invoked with only the variables `context` and `query`, so a template formats exactly when every one of its fields is named `context` or `query`. |
| Prompt.FormatFieldThen | api.py:85-90 | A field's value is copied verbatim, braces included, between the text before it and the rest of the template. |
| Prompt.FormatTwoFields | api.py:85-90 | A two-field template between brace-free labels formats to the labels with the two values in place. |
| Prompt.UserMessage | api.py:85-90 | The user message is the context header, the context, the question label, the question and the answer label, with both values inserted verbatim. Formatting never fails. |
| ChatApi.Sources | api.py:119 | There is one source per retrieved document, in retrieval order. |
| ChatApi.Contents | api.py:118 | There is one content per retrieved document, in retrieval order. |
| ChatApi.ContextHoldsContents | api.py:118 | The context holds every document's content at its offset, each but the last followed by a blank line. |
| ChatApi.ContextExtent | api.py:118 | No documents give an empty context. Otherwise the context ends right after the last document's content. |
| ChatApi.ContextOfTwo | api.py:118 | Two documents give their contents with one blank line between them. |
| ChatApi.ContextOrder | api.py:118 | A later document's content starts after an earlier one's content and the blank line after it. |
| ChatApi.PromptMessagesOk | api.py:74-91 | Building the prompt never fails. It gives the system text and the user message with the context and question in place. |
| ChatApi.ChatSuccess | api.py:113-131 | When search and generation succeed, the answer is the cleaned generation for the prompt built from the documents. There is one source per document, in order. |
| ChatApi.ChatSearchFails | api.py:115-116 | A failed search gives an error answer with no sources. |
| ChatApi.ChatGenerateFails | api.py:121-124 | A failed generation gives an error answer with no sources, even though documents were found. |
| ChatApi.ChatOutcomes | api.py:113-137 | Every response is one of three: the cleaned generation for the prompt built from the retrieved documents, with every document's source; the failed search's message after `Error: `, with no sources; or the failed generation's message after `Error: `, with no sources. |
| SanitizerExamples.BackquotedMarkerCut | api.py:35 | With a backquoted `</think>` after text without backquotes, and no later backquote or `>`, the answer is the stripped text after the closing backquote. |
| SanitizerExamples.BackquotedMarkerEnd | api.py:34-53 | The cut offset in that case is the end of the backquoted marker. |
| SanitizerExamples.FirstOccurrence | api.py:35 | The backquoted marker is a pattern and occurs right after the text before it, and nowhere earlier. |
| SanitizerExamples.MarkerExample | api.py:55-56 | `"some text `</think>` ANSWER HERE"` is cleaned to `"ANSWER HERE"`. |
| SanitizerExamples.StripOneBlank | api.py:56 | Stripping one leading blank before visible text gives that text. |
| SanitizerExamples.MetaAroundAnswer | api.py:62-72 | Without a marker, a meta bullet, an answer line and another meta bullet give the stripped answer line alone. |
| SanitizerExamples.ThreeLines | api.py:58 | Three lines without line breaks, joined by `\n`, split back into those three lines. |
| SanitizerExamples.NoOpenerLines | api.py:34-53 | Lines without a backquote or `<` join into a text with no marker. |
| SanitizerExamples.IShouldBullet | api.py:63 | A line starting `- I should` is meta-commentary. |
| SanitizerExamples.BulletExample | api.py:58-72 | `"- I should explain\nActual answer line\n- I should note"` is cleaned to `"Actual answer line"`. |
| SanitizerExamples.CleanNotIdempotent | api.py:58-72 | Cleaning is not idempotent. `"  - x\nfoo"` is cleaned to `"- x\nfoo"`, and cleaning that again gives `"foo"`. |
| SanitizerExamples.IndentedLineFirst | api.py:58-72 | An indented line starts the answer. Both lines are kept, and stripping removes only the two leading blanks. |
| SanitizerExamples.BulletLineDropped | api.py:62-72 | A bullet without a meta phrase is neither dropped as meta-commentary nor an answer start. Only the line after it is kept. |
| SanitizerExamples.TwoLines | api.py:58 | Two lines without line breaks, joined by `\n`, split back into those two lines. |
| SanitizerExamples.ShortHasNoPhrase | api.py:63 | Every meta phrase is at least four characters long, so a shorter text starts with none of them. |
| SanitizerExamples.NoOpenerNoCut | api.py:44-55 | A non-empty text without a backquote or `<` has no marker cut. |
| SanitizerExamples.SelfOverlapCut | api.py:44-56 | In "`</think>`</think>`" the backquoted marker occurs at 0 and 9, but `finditer` yields only the match at 0. The cut is 18, the end of the second plain `</think>`, and the answer is "`". |
| SanitizerExamples.OverlapChars | api.py:44-56 | The characters of that text that the scan depends on. |
| SanitizerExamples.OverlapBackquoted | api.py:48 | `finditer` yields the backquoted marker only at 0 in that text, although it also occurs at 9. |
| SanitizerExamples.OverlapPlain | api.py:48 | `finditer` yields the plain `</think>` at 10 in that text. |
| SanitizerExamples.OverlapNoLaterEnd | api.py:48-53 | No match `finditer` yields for any marker in that text ends at 19. |

## Left out

- The web layer is not modelled: the FastAPI app, the CORS middleware, the `/` and `/health` routes, response validation and the uvicorn entry point. These are framework wiring with no logic of their own.
- The language model and the vector store are parameters of `ChatApi.Chat`: `search` returns documents or an error, and `generate` returns text or an error. Their behaviour (similarity ranking, the Ollama call, the output parser) is not modelled. `k` is passed to the search as the request gives it, and the search decides what an unusual `k` means.
- `config.py` is not part of this model. The `DEFAULT_K` default of `ChatRequest.k`, the model name and the temperature are therefore not modelled.
- `document_loader.py` (loading, splitting and indexing documents) and `gradio_app.py` (the web front end) lie outside the modelled core.
- The system message is passed to the model as written, without formatting. It holds no brace, so formatting it would give it back unchanged, but that is not proved.
- `Prompt.Parse` covers only the `str.format` features the templates use: literal text, doubled braces and named fields. Conversions (`!r`), format specs (`:>10`), positional or automatic fields (`{}`, `{0}`) and attribute or index access inside a field are not modelled.
- An error message (a `KeyError`, a format error, a failed search or generation) is a string in the model. Python's exact `str(e)` text for each exception type is approximated.
- Exceptions raised inside `clean_response` or while building the response are not modelled: on a string input neither can fail.
- Document metadata is modelled as a map from strings to strings. A non-string `source` value, which the response type would reject or coerce, is not modelled.
- Whitespace (`\s`, `str.strip`, `str.isspace`) and `re.IGNORECASE` are modelled on the ASCII range only. Unicode whitespace and Unicode case folding are not.
- Sanitizer.CleanFixedPoint: states when an answer is returned unchanged, not that cleaning is idempotent in general. It is not. `SanitizerExamples.CleanNotIdempotent` shows an indented bullet line that starts the answer on the first pass, but no longer does once stripped.
