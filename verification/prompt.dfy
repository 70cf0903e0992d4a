/**
 * The prompt handed to the generation model. Its user message is a template
 * in Python's `str.format` syntax: `{name}` is a field filled from the
 * variables, `{{` and `}}` stand for single braces, and every other
 * character is copied. A template is parsed into pieces, then rendered.
 */
module Prompt {
  import opened Wrappers
  import opened Text

  /** One unit of a parsed template: a literal character or a named field. */
  datatype Piece = Char(c: char) | Field(name: string)

  /** No `{` and no `}` anywhere in `s`. */
  predicate BraceFree(s: string) {
    '{' !in s && '}' !in s
  }

  /** Puts `p` in front of a successful parse; an error is passed on. */
  function Prepend(p: Piece, r: Result<seq<Piece>>): (r': Result<seq<Piece>>)
    ensures r'.Ok? <==> r.Ok?
    ensures r'.Ok? ==> r'.value == [p] + r.value
    ensures r'.Err? ==> r' == r
  {
    if r.Err? then r else Ok([p] + r.value)
  }

  /** The format-string parser: doubled braces are escapes, `{name}` is a
      field whose name holds no `{`, and any other lone brace is an error. */
  function Parse(t: string): (r: Result<seq<Piece>>)
    decreases |t|
  {
    if t == [] then Ok([])
    else if t[0] == '{' then
      if |t| > 1 && t[1] == '{' then Prepend(Char('{'), Parse(t[2..]))
      else
        match IndexOf(t[1..], '}')
        case None => Err("expected '}' before end of string")
        case Some(j) =>
          var name := t[1..j + 1];
          if '{' in name then Err("unexpected '{' in field name")
          else Prepend(Field(name), Parse(t[j + 2..]))
    else if t[0] == '}' then
      if |t| > 1 && t[1] == '}' then Prepend(Char('}'), Parse(t[2..]))
      else Err("Single '}' encountered in format string")
    else Prepend(Char(t[0]), Parse(t[1..]))
  }

  /** The template text a piece is written as: braces doubled, fields braced. */
  function PieceText(p: Piece): (s: string)
    ensures |s| > 0
  {
    match p
    case Char(c) => if c == '{' || c == '}' then [c, c] else [c]
    case Field(name) => "{" + name + "}"
  }

  /** The template text a sequence of pieces is written as. */
  function Unparse(ps: seq<Piece>): (t: string)
    ensures ps == [] <==> t == []
  {
    if ps == [] then [] else PieceText(ps[0]) + Unparse(ps[1..])
  }

  /** Pieces a parse can produce: field names never hold a brace. */
  predicate WellFormed(ps: seq<Piece>) {
    forall k :: 0 <= k < |ps| ==> (ps[k].Field? ==> BraceFree(ps[k].name))
  }

  /** Parsing loses nothing: a parsed template is written back exactly. */
  lemma {:induction false} ParseUnparse(t: string)
    requires Parse(t).Ok?
    ensures Unparse(Parse(t).value) == t
    ensures WellFormed(Parse(t).value)
    decreases |t|
  {
    if t != [] {
      var ps := Parse(t).value;
      FirstPiece(t);
      var n := |PieceText(ps[0])|;
      ParseUnparse(t[n..]);
      assert WellFormed(ps) by {
        forall k | 1 <= k < |ps| ensures ps[k].Field? ==> BraceFree(ps[k].name) {
          assert ps[k] == ps[1..][k - 1];
        }
      }
    }
  }

  /** A successful parse of a non-empty template reads its first piece off the front. */
  lemma FirstPiece(t: string)
    requires t != [] && Parse(t).Ok?
    ensures var ps := Parse(t).value;
            && ps != []
            && |PieceText(ps[0])| <= |t|
            && t[..|PieceText(ps[0])|] == PieceText(ps[0])
            && Parse(t[|PieceText(ps[0])|..]) == Ok(ps[1..])
            && (ps[0].Field? ==> BraceFree(ps[0].name))
  {
    if t[0] == '{' && !(|t| > 1 && t[1] == '{') {
      FirstField(t);
    }
  }

  /** An opening brace that is not doubled starts a field running to the next closing brace. */
  lemma FirstField(t: string)
    requires t != [] && t[0] == '{' && !(|t| > 1 && t[1] == '{') && Parse(t).Ok?
    ensures var ps := Parse(t).value;
            && ps != [] && ps[0].Field?
            && |PieceText(ps[0])| <= |t|
            && t[..|PieceText(ps[0])|] == PieceText(ps[0])
            && Parse(t[|PieceText(ps[0])|..]) == Ok(ps[1..])
            && BraceFree(ps[0].name)
  {
    var j := IndexOf(t[1..], '}').value;
    var name := t[1..j + 1];
    assert name == t[1..][..j];
    assert t[..j + 2] == "{" + name + "}";
  }

  /** Writing pieces out and parsing them back gives the same pieces. */
  lemma {:induction false} UnparseParse(ps: seq<Piece>)
    requires WellFormed(ps)
    ensures Parse(Unparse(ps)) == Ok(ps)
  {
    if ps != [] {
      var rest := ps[1..];
      assert WellFormed(rest) by {
        forall k | 0 <= k < |rest| ensures rest[k].Field? ==> BraceFree(rest[k].name) {
          assert rest[k] == ps[k + 1];
        }
      }
      UnparseParse(rest);
      assert Unparse(ps) == PieceText(ps[0]) + Unparse(rest);
      ParsePieceThen(ps[0], Unparse(rest));
      assert [ps[0]] + rest == ps;
    }
  }

  /** A piece written out in front of any text parses to that piece first. */
  lemma ParsePieceThen(p: Piece, rest: string)
    requires p.Field? ==> BraceFree(p.name)
    ensures Parse(PieceText(p) + rest) == Prepend(p, Parse(rest))
  {
    match p
    case Char(c) => ParseCharThen(c, rest);
    case Field(name) => ParseFieldThen(name, rest);
  }

  /** A literal character, escaped if it is a brace, parses to itself. */
  lemma ParseCharThen(c: char, rest: string)
    ensures Parse(PieceText(Char(c)) + rest) == Prepend(Char(c), Parse(rest))
  {
    var t := PieceText(Char(c)) + rest;
    if c == '{' || c == '}' {
      assert t[2..] == rest;
    } else {
      assert t[1..] == rest;
    }
  }

  /** A braced name without braces inside parses to a field. */
  lemma ParseFieldThen(name: string, rest: string)
    requires BraceFree(name)
    ensures Parse("{" + name + "}" + rest) == Prepend(Field(name), Parse(rest))
  {
    var t := "{" + name + "}" + rest;
    assert t[1..] == name + "}" + rest;
    assert (name + "}" + rest)[..|name|] == name;
    IndexOfAt(t[1..], '}', |name|);
    assert t[1..|name| + 1] == name;
    assert t[|name| + 2..] == rest;
  }

  /** The pieces of a text without braces: one literal character each. */
  function Chars(s: string): (ps: seq<Piece>)
    ensures |ps| == |s|
  {
    if s == [] then [] else [Char(s[0])] + Chars(s[1..])
  }

  /** Piece `i` of `Chars(s)` is the literal character `s[i]`. */
  lemma {:induction false} CharsPieces(s: string)
    ensures |Chars(s)| == |s|
    ensures forall i :: 0 <= i < |s| ==> Chars(s)[i] == Char(s[i])
  {
    if s != [] {
      CharsPieces(s[1..]);
      var ps := Chars(s);
      assert ps == [Char(s[0])] + Chars(s[1..]);
      forall i | 1 <= i < |s| ensures ps[i] == Char(s[i]) {
        assert ps[i] == Chars(s[1..])[i - 1];
        assert s[i] == s[1..][i - 1];
      }
    }
  }

  /** Brace-free text in front of a template parses to its characters, then the template. */
  lemma {:induction false} ParsePlainThen(a: string, rest: string)
    requires BraceFree(a)
    ensures Parse(a + rest).Ok? <==> Parse(rest).Ok?
    ensures Parse(rest).Ok? ==> Parse(a + rest).value == Chars(a) + Parse(rest).value
  {
    if a != [] {
      var t := a + rest;
      assert a[0] in a;
      assert t[0] == a[0] && a[0] != '{' && a[0] != '}';
      assert t[1..] == a[1..] + rest;
      assert Parse(t) == Prepend(Char(a[0]), Parse(t[1..]));
      assert BraceFree(a[1..]) by {
        assert forall c :: c in a[1..] ==> c in a;
      }
      ParsePlainThen(a[1..], rest);
      if Parse(rest).Ok? {
        var p := Parse(rest).value;
        assert Parse(t).value == [Char(a[0])] + (Chars(a[1..]) + p);
        assert Chars(a) == [Char(a[0])] + Chars(a[1..]);
        assert [Char(a[0])] + (Chars(a[1..]) + p) == Chars(a) + p;
      }
    } else {
      assert a + rest == rest;
    }
  }

  /** One piece filled in: a character as itself, a field with its variable;
      a field with no variable is an error naming it. */
  function RenderPiece(p: Piece, vars: map<string, string>): (r: Result<string>)
    ensures r.Err? <==> p.Field? && p.name !in vars
  {
    match p
    case Char(c) => Ok([c])
    case Field(name) => if name in vars then Ok(vars[name]) else Err(name)
  }

  /** Fills the pieces from left to right; the first field with no variable is the error. */
  function Render(ps: seq<Piece>, vars: map<string, string>): (r: Result<string>)
  {
    if ps == [] then Ok([])
    else
      var head := RenderPiece(ps[0], vars);
      var tail := Render(ps[1..], vars);
      if head.Err? then head
      else if tail.Err? then tail
      else Ok(head.value + tail.value)
  }

  /** Rendering fails exactly when some field has no variable. */
  lemma {:induction false} RenderOk(ps: seq<Piece>, vars: map<string, string>)
    ensures Render(ps, vars).Ok? <==> forall k :: 0 <= k < |ps| ==> (ps[k].Field? ==> ps[k].name in vars)
  {
    if ps != [] {
      RenderOk(ps[1..], vars);
      assert forall k :: 1 <= k < |ps| ==> ps[k] == ps[1..][k - 1];
    }
  }

  /** Rendering is piecewise: the rendering of two sequences is the two renderings joined. */
  lemma {:induction false} RenderAppend(ps: seq<Piece>, qs: seq<Piece>, vars: map<string, string>, a: string, b: string)
    requires Render(ps, vars) == Ok(a) && Render(qs, vars) == Ok(b)
    ensures Render(ps + qs, vars) == Ok(a + b)
  {
    if ps != [] {
      var head := RenderPiece(ps[0], vars).value;
      var a' := Render(ps[1..], vars).value;
      assert a == head + a';
      assert ps + qs != [] && (ps + qs)[0] == ps[0] && (ps + qs)[1..] == ps[1..] + qs;
      RenderAppend(ps[1..], qs, vars, a', b);
      assert Render(ps[1..] + qs, vars) == Ok(a' + b);
      assert a + b == head + (a' + b);
      assert Render(ps + qs, vars) == Ok(head + (a' + b));
    } else {
      assert ps + qs == qs && a + b == b;
    }
  }

  /** The characters of a text render to that text. */
  lemma {:induction false} RenderChars(s: string, vars: map<string, string>)
    ensures Render(Chars(s), vars) == Ok(s)
  {
    if s != [] {
      var ps := Chars(s);
      assert ps == [Char(s[0])] + Chars(s[1..]);
      assert ps[0] == Char(s[0]) && ps[1..] == Chars(s[1..]);
      RenderChars(s[1..], vars);
      assert Render(ps, vars) == Ok([s[0]] + s[1..]);
      assert s == [s[0]] + s[1..];
    }
  }

  /** `template.format(**vars)`. */
  function Format(template: string, vars: map<string, string>): (r: Result<string>)
  {
    match Parse(template)
    case Err(e) => Err(e)
    case Ok(ps) => Render(ps, vars)
  }

  /** A template without braces formats to itself, whatever the variables. */
  lemma FormatPlain(template: string, vars: map<string, string>)
    requires BraceFree(template)
    ensures Format(template, vars) == Ok(template)
  {
    ParsePlainThen(template, []);
    assert template + [] == template;
    assert Chars(template) + [] == Chars(template);
    RenderChars(template, vars);
  }

  /** The system message: the assistant's role and answering rules. It holds no field. */
  const SystemText: string :=
    "You are a helpful assistant for AgentForce Infotech. \n"
    + "Answer questions based ONLY on the provided context from company documents.\n"
    + "\n"
    + "IMPORTANT RULES:\n"
    + "- Provide direct answers only\n"
    + "- Do NOT include any thinking, reasoning tags, or metadata\n"
    + "- Do NOT say things like \"I'll organize\" or include tags like `</think>`\n"
    + "- Do NOT include any reasoning process\n"
    + "- Answer concisely and professionally"

  /** The template text of a field. */
  function Placeholder(name: string): (t: string)
    ensures Unparse([Field(name)]) == t
  {
    PieceText(Field(name))
  }

  /** A placeholder parses back to its one field, and formats to the field's
      variable; it fails exactly when that variable is missing. */
  lemma PlaceholderField(name: string, vars: map<string, string>)
    requires BraceFree(name)
    ensures Parse(Placeholder(name)) == Ok([Field(name)])
    ensures Format(Placeholder(name), vars).Err? <==> name !in vars
    ensures name in vars ==> Format(Placeholder(name), vars) == Ok(vars[name])
  {
    var ps := [Field(name)];
    ParseFieldThen(name, []);
    assert Placeholder(name) == "{" + name + "}" + [];
    assert Parse([]) == Ok([]) && [Field(name)] + [] == ps;
    assert ps[1..] == [];
    if name in vars {
      assert Render(ps, vars) == Ok(vars[name] + []);
      assert vars[name] + [] == vars[name];
    }
  }

  const ContextHeader: string := "Context from company documents:\n"
  const QuestionLabel: string := "\n\nQuestion: "
  const AnswerLabel: string := "\n\nAnswer:"

  /** The user message template: the retrieved context, then the question. */
  const UserTemplate: string := ContextHeader + Placeholder("context") + QuestionLabel + Placeholder("query") + AnswerLabel

  /** The variables the chat pipeline formats the prompt with. */
  function PromptVars(context: string, query: string): (vars: map<string, string>)
    ensures vars.Keys == {"context", "query"}
    ensures vars["context"] == context && vars["query"] == query
  {
    map["context" := context, "query" := query]
  }

  /** With the pipeline's two variables, a template formats exactly when each
      of its fields is `context` or `query`: no other name can be filled. */
  lemma PromptVarsFields(template: string, context: string, query: string)
    requires Parse(template).Ok?
    ensures var ps := Parse(template).value;
            Format(template, PromptVars(context, query)).Ok? <==>
            forall k :: 0 <= k < |ps| ==> (ps[k].Field? ==> ps[k].name == "context" || ps[k].name == "query")
  {
    RenderOk(Parse(template).value, PromptVars(context, query));
  }

  /** Brace-free text and a bound field in front of a template format to the
      text, the field's value copied verbatim (braces and all), then the rest. */
  lemma FormatFieldThen(a: string, name: string, rest: string, vars: map<string, string>, r: string)
    requires BraceFree(a) && BraceFree(name) && name in vars
    requires Format(rest, vars) == Ok(r)
    ensures Format(a + (Placeholder(name) + rest), vars) == Ok(a + (vars[name] + r))
  {
    var ps := Parse(rest).value;
    ParseFieldThen(name, rest);
    ParsePlainThen(a, Placeholder(name) + rest);
    var v := vars[name];
    assert Render([Field(name)], vars) == Ok(v) by {
      assert [Field(name)][1..] == [];
      assert v + [] == v;
    }
    RenderAppend([Field(name)], ps, vars, v, r);
    RenderChars(a, vars);
    RenderAppend(Chars(a), [Field(name)] + ps, vars, a, v + r);
  }

  /** A template of two fields between brace-free labels formats to the
      labels with the two variables' values in place of the fields. */
  lemma FormatTwoFields(h: string, n1: string, q: string, n2: string, e: string, vars: map<string, string>)
    requires BraceFree(h) && BraceFree(n1) && BraceFree(q) && BraceFree(n2) && BraceFree(e)
    requires n1 in vars && n2 in vars
    ensures Format(h + Placeholder(n1) + q + Placeholder(n2) + e, vars) == Ok(h + vars[n1] + q + vars[n2] + e)
  {
    var v1, v2 := vars[n1], vars[n2];
    FormatPlain(e, vars);
    FormatFieldThen(q, n2, e, vars, e);
    FormatFieldThen(h, n1, q + (Placeholder(n2) + e), vars, q + (v2 + e));
    Regroup(h, Placeholder(n1), q, Placeholder(n2), e);
    Regroup(h, v1, q, v2, e);
  }

  /** Concatenation regrouped from the right to the left. */
  lemma Regroup(a: string, b: string, c: string, d: string, e: string)
    ensures a + (b + (c + (d + e))) == a + b + c + d + e
  {
    assert a + (b + (c + (d + e))) == (a + b) + (c + (d + e));
    assert (a + b) + (c + (d + e)) == ((a + b) + c) + (d + e);
  }

  /** The user message for a context and a question: both are inserted
      verbatim, braces included, between the fixed labels. */
  lemma UserMessage(context: string, query: string)
    ensures Format(UserTemplate, PromptVars(context, query)) == Ok(ContextHeader + context + QuestionLabel + query + AnswerLabel)
  {
    UserLabels(ContextHeader, QuestionLabel, AnswerLabel, "context", "query");
    FormatTwoFields(ContextHeader, "context", QuestionLabel, "query", AnswerLabel, PromptVars(context, query));
  }

  /** The labels and field names of the user template hold no braces.
      The strings come in as parameters equal to the constants, so that the
      solver unfolds each literal only inside this lemma and the one below;
      stating the same facts on the constants directly costs it several times more. */
  lemma UserLabels(header: string, question: string, answer: string, n1: string, n2: string)
    requires header == ContextHeader && question == QuestionLabel && answer == AnswerLabel
    requires n1 == "context" && n2 == "query"
    ensures BraceFree(header) && BraceFree(question) && BraceFree(answer) && BraceFree(n1) && BraceFree(n2)
  {
    HeaderBraceFree(header);
  }

  /** The context header holds no braces. */
  lemma HeaderBraceFree(header: string)
    requires header == ContextHeader
    ensures BraceFree(header)
  {
  }
}
