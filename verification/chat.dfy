/**
 * The `/chat` request pipeline: retrieve the documents closest to the
 * question, join their contents into the prompt's context, let the
 * generation model answer, clean the answer and list the documents' sources.
 * Retrieval and generation are parameters: their behaviour is not modelled,
 * only what the pipeline does with what they return, failures included.
 */
module ChatApi {
  import opened Wrappers
  import opened Text
  import opened Prompt
  import opened Sanitizer

  /** A retrieved document chunk: its text and its string metadata. */
  datatype Doc = Doc(pageContent: string, metadata: map<string, string>)

  /** The request body: the question and how many chunks to retrieve. */
  datatype ChatRequest = ChatRequest(query: string, k: int)

  /** The response body: the cleaned answer and one source per retrieved chunk. */
  datatype ChatResponse = ChatResponse(answer: string, sources: seq<string>)

  /** The two messages the generation model receives. */
  datatype Messages = Messages(system: string, user: string)

  /** Separator between chunks in the context: a blank line. */
  const ContextSeparator: string := "\n\n"

  /** `doc.metadata.get('source', 'unknown')`. */
  function Source(doc: Doc): (s: string)
    ensures "source" in doc.metadata ==> s == doc.metadata["source"]
    ensures "source" !in doc.metadata ==> s == "unknown"
  {
    if "source" in doc.metadata then doc.metadata["source"] else "unknown"
  }

  /** One source per document, in retrieval order. */
  function Sources(docs: seq<Doc>): (sources: seq<string>)
    ensures |sources| == |docs|
    ensures forall i :: 0 <= i < |docs| ==> sources[i] == Source(docs[i])
  {
    if docs == [] then [] else [Source(docs[0])] + Sources(docs[1..])
  }

  /** The documents' contents, in retrieval order. */
  function Contents(docs: seq<Doc>): (contents: seq<string>)
    ensures |contents| == |docs|
    ensures forall i :: 0 <= i < |docs| ==> contents[i] == docs[i].pageContent
  {
    if docs == [] then [] else [docs[0].pageContent] + Contents(docs[1..])
  }

  /** The prompt context: the contents joined by blank lines. */
  function Context(docs: seq<Doc>): string {
    Join(Contents(docs), ContextSeparator)
  }

  /** The context holds every document's content, in retrieval order, each
      but the last followed by a blank line. */
  lemma ContextHoldsContents(docs: seq<Doc>, i: nat)
    requires i < |docs|
    ensures var o := JoinOffset(Contents(docs), ContextSeparator, i);
            && o <= |Context(docs)|
            && (if i + 1 < |docs| then docs[i].pageContent + ContextSeparator else docs[i].pageContent) <= Context(docs)[o..]
  {
    JoinAt(Contents(docs), ContextSeparator, i);
  }

  /** The context is empty when no document was retrieved, and otherwise ends
      with the last document's content: nothing is added after it. */
  lemma ContextExtent(docs: seq<Doc>)
    ensures docs == [] ==> Context(docs) == []
    ensures docs != [] ==>
              |Context(docs)| == JoinOffset(Contents(docs), ContextSeparator, |docs| - 1) + |docs[|docs| - 1].pageContent|
  {
    if docs != [] {
      JoinLength(Contents(docs), ContextSeparator);
    }
  }

  /** Two documents give their contents with one blank line between them. */
  lemma ContextOfTwo(d0: Doc, d1: Doc)
    ensures Context([d0, d1]) == d0.pageContent + "\n\n" + d1.pageContent
  {
    var docs := [d0, d1];
    assert docs[1..] == [d1];
    assert Contents(docs) == [d0.pageContent, d1.pageContent];
    assert Contents(docs)[1..] == [d1.pageContent];
  }

  /** A later document's content starts after an earlier one's, separator included. */
  lemma {:induction false} ContextOrder(docs: seq<Doc>, i: nat, j: nat)
    requires i < j <= |docs|
    ensures JoinOffset(Contents(docs), ContextSeparator, i) + |docs[i].pageContent| + |ContextSeparator|
            <= JoinOffset(Contents(docs), ContextSeparator, j)
  {
    if i > 0 {
      assert docs[1..][i - 1] == docs[i];
      assert Contents(docs)[1..] == Contents(docs[1..]);
      ContextOrder(docs[1..], i - 1, j - 1);
    }
  }

  /** The messages the chain sends for a context and a question; formatting
      the user template is the step that could fail. */
  function PromptMessages(context: string, query: string): (r: Result<Messages>)
  {
    match Format(UserTemplate, PromptVars(context, query))
    case Err(e) => Err(e)
    case Ok(user) => Ok(Messages(SystemText, user))
  }

  /** Formatting never fails here: both fields are supplied, and the user
      message is the labels with the context and the question in place. */
  lemma PromptMessagesOk(context: string, query: string)
    ensures PromptMessages(context, query) == Ok(Messages(SystemText, ContextHeader + context + QuestionLabel + query + AnswerLabel))
  {
    UserMessage(context, query);
  }

  /** What any exception becomes: an error answer and no sources. */
  function Failure(message: string): (resp: ChatResponse)
    ensures resp.sources == []
    ensures resp.answer == "Error: " + message
  {
    ChatResponse("Error: " + message, [])
  }

  /** The `/chat` handler. `search(query, k)` is the vector store's similarity
      search and `generate` the model behind the prompt; each may fail with a
      message. `k` is passed to the search as the request gives it. */
  function Chat(req: ChatRequest, search: (string, int) -> Result<seq<Doc>>, generate: Messages -> Result<string>): (resp: ChatResponse)
  {
    match search(req.query, req.k)
    case Err(e) => Failure(e)
    case Ok(docs) =>
      var context := Context(docs);
      var sources := Sources(docs);
      match PromptMessages(context, req.query)
      case Err(e) => Failure(e)
      case Ok(messages) =>
        match generate(messages)
        case Err(e) => Failure(e)
        case Ok(raw) => ChatResponse(Clean(raw), sources)
  }

  /** On success the answer is the cleaned generation for the prompt built
      from the retrieved documents, and there is one source per document, in order. */
  lemma ChatSuccess(req: ChatRequest, search: (string, int) -> Result<seq<Doc>>, generate: Messages -> Result<string>,
                    docs: seq<Doc>, raw: string)
    requires search(req.query, req.k) == Ok(docs)
    requires generate(Messages(SystemText, ContextHeader + Context(docs) + QuestionLabel + req.query + AnswerLabel)) == Ok(raw)
    ensures Chat(req, search, generate).answer == Clean(raw)
    ensures |Chat(req, search, generate).sources| == |docs|
    ensures forall i :: 0 <= i < |docs| ==> Chat(req, search, generate).sources[i] == Source(docs[i])
  {
    PromptMessagesOk(Context(docs), req.query);
  }

  /** A failed search becomes an error answer with no sources. */
  lemma ChatSearchFails(req: ChatRequest, search: (string, int) -> Result<seq<Doc>>, generate: Messages -> Result<string>)
    requires search(req.query, req.k).Err?
    ensures Chat(req, search, generate) == ChatResponse("Error: " + search(req.query, req.k).message, [])
  {
  }

  /** A failed generation becomes an error answer with no sources, even though documents were found. */
  lemma ChatGenerateFails(req: ChatRequest, search: (string, int) -> Result<seq<Doc>>, generate: Messages -> Result<string>,
                          docs: seq<Doc>, message: string)
    requires search(req.query, req.k) == Ok(docs)
    requires generate(Messages(SystemText, ContextHeader + Context(docs) + QuestionLabel + req.query + AnswerLabel)) == Err(message)
    ensures Chat(req, search, generate) == ChatResponse("Error: " + message, [])
  {
    PromptMessagesOk(Context(docs), req.query);
  }

  /** Every response is either the cleaned generation for the prompt with all
      the sources, or the error answer of the stage that failed with none:
      sources are listed only when the whole pipeline succeeds. */
  lemma ChatOutcomes(req: ChatRequest, search: (string, int) -> Result<seq<Doc>>, generate: Messages -> Result<string>)
    ensures var resp := Chat(req, search, generate);
            || (exists docs, raw :: search(req.query, req.k) == Ok(docs)
                  && generate(Messages(SystemText, ContextHeader + Context(docs) + QuestionLabel + req.query + AnswerLabel)) == Ok(raw)
                  && resp == ChatResponse(Clean(raw), Sources(docs)))
            || (search(req.query, req.k).Err? && resp == ChatResponse("Error: " + search(req.query, req.k).message, []))
            || (exists docs, e :: search(req.query, req.k) == Ok(docs)
                  && generate(Messages(SystemText, ContextHeader + Context(docs) + QuestionLabel + req.query + AnswerLabel)) == Err(e)
                  && resp == ChatResponse("Error: " + e, []))
  {
    var resp := Chat(req, search, generate);
    match search(req.query, req.k)
    case Err(e) =>
      assert resp == ChatResponse("Error: " + e, []);
    case Ok(docs) =>
      PromptMessagesOk(Context(docs), req.query);
      match generate(Messages(SystemText, ContextHeader + Context(docs) + QuestionLabel + req.query + AnswerLabel))
      case Err(e) =>
        assert resp == ChatResponse("Error: " + e, []);
      case Ok(raw) =>
        assert resp == ChatResponse(Clean(raw), Sources(docs));
  }
}
