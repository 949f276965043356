/**
  The control flow of `CodeAssistant`: which answer `ask_question` gives for
  a blank question, an empty store, a failing chain and a successful one;
  how the chain's source documents are turned into previews; and the
  conversation memory that the chain extends and `clear_conversation_history`
  empties.

  The retrieval chain is a parameter `chain(question, history)` that either
  raises (with the text of the exception) or replies with the entries it
  found and the conversation history after the exchange. The document count
  of the vector store is a parameter too: `None` stands for the empty
  statistics the store reports when it cannot count.
*/
module Assistant {
  import opened Wrappers
  import Text
  import Config

  /** A retrieved chunk: `page_content` and `metadata`. */
  datatype Document = Document(pageContent: string, metadata: map<string, string>)

  /** One entry of the `sources` list of a response. */
  datatype Source = Source(content: string, metadata: map<string, string>)

  /** One message of the conversation memory. */
  datatype Message = Message(role: string, text: string)

  /** The dictionary `ask_question` returns. */
  datatype Response = Response(answer: string, sources: seq<Source>, error: Option<string>)

  /** What the retrieval chain does with a question: raise, or return a
      dictionary whose `answer` and `source_documents` keys may be missing,
      having saved the exchange in memory. */
  datatype ChainReply =
    | Raised(message: string)
    | Replied(answer: Option<string>, sourceDocuments: Option<seq<Document>>, history: seq<Message>)

  const PreviewLength: nat := 500

  const InvalidQuestion: string := "Please provide a valid question."
  const NothingEmbedded: string := "No codebase has been embedded yet. Please embed your codebase first."
  const NoAnswer: string := "No answer generated."
  const Apology: string := "Sorry, I encountered an error while processing your question."

  /** The `content` of a source: the page content when it has at most 500
      characters, else its first 500 followed by "...". */
  function Preview(content: string): (p: string)
    ensures |content| <= PreviewLength ==> p == content
    ensures |content| > PreviewLength ==>
      |p| == PreviewLength + 3 && p[..PreviewLength] == content[..PreviewLength] && p[PreviewLength..] == "..."
  {
    if |content| > PreviewLength then content[..PreviewLength] + "..." else content
  }

  /** The loop that builds `sources`: one entry per document, in order. */
  method FormatSources(docs: seq<Document>) returns (sources: seq<Source>)
    ensures |sources| == |docs|
    ensures forall i :: 0 <= i < |docs| ==>
      sources[i].content == Preview(docs[i].pageContent) && sources[i].metadata == docs[i].metadata
  {
    sources := [];
    for i := 0 to |docs|
      invariant |sources| == i
      invariant forall j :: 0 <= j < i ==>
        sources[j].content == Preview(docs[j].pageContent) && sources[j].metadata == docs[j].metadata
    {
      sources := sources + [Source(Preview(docs[i].pageContent), docs[i].metadata)];
    }
  }

  /** What `get_system_info` reports; the temperature is not part of this
      model. */
  datatype SystemInfo = SystemInfo(
    modelName: string,
    maxTokens: int,
    totalDocuments: Option<int>,
    conversationHistoryLength: nat)

  /** The assistant's conversation memory; the language model and the
      retriever live behind the `chain` parameter. */
  class CodeAssistant {
    var history: seq<Message>

    constructor ()
      ensures history == []
    {
      history := [];
    }

    /** `ask_question`. The question goes to the chain unvalidated. */
    method AskQuestion(question: string, totalDocuments: Option<int>, chain: (string, seq<Message>) -> ChainReply)
      returns (r: Response)
      modifies this
      ensures Text.AllSpace(question) ==>
        r == Response(InvalidQuestion, [], None) && history == old(history)
      ensures !Text.AllSpace(question) && totalDocuments.GetOr(0) == 0 ==>
        r == Response(NothingEmbedded, [], None) && history == old(history)
      ensures !Text.AllSpace(question) && totalDocuments.GetOr(0) != 0 && chain(question, old(history)).Raised? ==>
        r == Response(Apology, [], Some(chain(question, old(history)).message)) && history == old(history)
      ensures !Text.AllSpace(question) && totalDocuments.GetOr(0) != 0 && chain(question, old(history)).Replied? ==>
        var reply := chain(question, old(history));
        var docs := reply.sourceDocuments.GetOr([]);
        && r.answer == reply.answer.GetOr(NoAnswer)
        && r.error == None
        && |r.sources| == |docs|
        && (forall i :: 0 <= i < |docs| ==>
              r.sources[i].content == Preview(docs[i].pageContent) && r.sources[i].metadata == docs[i].metadata)
        && history == reply.history
    {
      Text.StripEnds(question);
      if Text.Strip(question) == [] {
        return Response(InvalidQuestion, [], None);
      }
      if totalDocuments.GetOr(0) == 0 {
        return Response(NothingEmbedded, [], None);
      }
      var reply := chain(question, history);
      match reply
      case Raised(message) =>
        r := Response(Apology, [], Some(message));
      case Replied(answer, sourceDocuments, after) =>
        history := after;
        var sources := FormatSources(sourceDocuments.GetOr([]));
        r := Response(answer.GetOr(NoAnswer), sources, None);
    }

    /** `get_conversation_history`. */
    function ConversationHistory(): (h: seq<Message>)
      reads this
      ensures h == history
    {
      history
    }

    /** `clear_conversation_history`; `clearRaises` says whether the memory
        refused to clear. */
    method ClearConversationHistory(clearRaises: bool) returns (ok: bool)
      modifies this
      ensures ok <==> !clearRaises
      ensures ok ==> history == []
      ensures !ok ==> history == old(history)
    {
      if clearRaises {
        return false;
      }
      history := [];
      return true;
    }

    /** `get_system_info`. */
    function GetSystemInfo(openAi: Config.OpenAISettings, totalDocuments: Option<int>): (info: SystemInfo)
      reads this
      ensures info.conversationHistoryLength == |ConversationHistory()|
      ensures info.modelName == openAi.modelName && info.maxTokens == openAi.maxTokens
      ensures info.totalDocuments == totalDocuments
    {
      SystemInfo(openAi.modelName, openAi.maxTokens, totalDocuments, |ConversationHistory()|)
    }
  }
}
