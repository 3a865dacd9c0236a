/** `analyzeSupplements`: builds the prompt from the list, makes one
    generation request, and turns the reply or the failure into either the
    reply text or one of two fixed error messages. The network client is not
    modelled: the answer to the request is supplied by a `generate`
    parameter. */
module GeminiService {
  import opened Wrappers
  import opened JsString

  const ModelName: string := "gemini-3-flash-preview"

  /** The instructions before the list. Their wording is not modelled. */
  const PromptPreamble: string

  /** The report template and closing instructions after the list. Their
      wording is not modelled. */
  const PromptTemplate: string

  const ListSeparator: string := ", "

  /** The substring that marks a failure as a credential problem. */
  const KeyMarker: string := "API_KEY"

  /** Thrown inside the `try` block when the reply has no text. */
  const EmptyReplyMessage: string := "분석 결과를 생성하지 못했습니다."

  /** Rethrown for a failure whose message mentions the key. */
  const KeyConfigMessage: string := "API 키 설정에 문제가 있습니다. 관리자에게 문의하세요."

  /** Rethrown for every other failure. */
  const TemporaryProblemMessage: string := "AI 분석 서비스에 일시적인 문제가 발생했습니다."

  /** What is sent to the generation service. */
  datatype GenerationRequest = GenerationRequest(model: string, contents: string)

  /** How the generation call ends: a reply whose text may be absent, or a
      thrown error whose message may be absent. */
  datatype CallOutcome = Replied(text: Option<string>) | Raised(message: Option<string>)

  /** The list as it appears in the prompt: the items in order, separated by
      ", ", in brackets. */
  function ItemListing(items: seq<string>): (listing: string)
    ensures |listing| >= 2 && listing[0] == '[' && listing[|listing| - 1] == ']'
  {
    "[" + Join(items, ListSeparator) + "]"
  }

  /** The prompt: the list section between the preamble and the template,
      at a position that does not depend on the list. */
  function BuildPrompt(items: seq<string>): (prompt: string)
    ensures |prompt| == |PromptPreamble| + |ItemListing(items)| + |PromptTemplate|
    ensures prompt[..|PromptPreamble|] == PromptPreamble
    ensures prompt[|PromptPreamble| + |ItemListing(items)|..] == PromptTemplate
    ensures prompt[|PromptPreamble|..|PromptPreamble| + |ItemListing(items)|] == ItemListing(items)
  {
    PromptPreamble + ItemListing(items) + PromptTemplate
  }

  /** The one request `analyzeSupplements` sends. */
  function RequestFor(items: seq<string>): GenerationRequest {
    GenerationRequest(ModelName, BuildPrompt(items))
  }

  /** The `try` block after the call returns: the reply text, or the
      (optional) message of the error that reaches the `catch`. An empty or
      absent text is thrown from inside the `try`, so it reaches the `catch`
      too. */
  function TryBlock(outcome: CallOutcome): (r: Result<string, Option<string>>)
    ensures r.Ok? <==> outcome.Replied? && outcome.text.Some? && outcome.text.value != ""
    ensures r.Ok? ==> r.value == outcome.text.value
    ensures outcome.Raised? ==> r == Err(outcome.message)
    ensures outcome.Replied? && r.Err? ==> r == Err(Some(EmptyReplyMessage))
  {
    match outcome
    case Raised(message) => Err(message)
    case Replied(text) =>
      if text == None || text == Some("") then Err(Some(EmptyReplyMessage))
      else Ok(text.value)
  }

  /** The `catch` block: the message of the error it rethrows. */
  function CatchBlock(message: Option<string>): (rethrown: string)
    ensures rethrown == KeyConfigMessage <==> message.Some? && Contains(message.value, KeyMarker)
  {
    if message.Some? && Contains(message.value, KeyMarker) then KeyConfigMessage
    else TemporaryProblemMessage
  }

  /** How `analyzeSupplements` settles once the call has ended. */
  function Respond(outcome: CallOutcome): (r: Result<string, string>)
    ensures r.Ok? <==> outcome.Replied? && outcome.text.Some? && outcome.text.value != ""
    ensures r.Ok? ==> r.value == outcome.text.value
    ensures r.Err? ==> r.error == KeyConfigMessage || r.error == TemporaryProblemMessage
    ensures r.Err? ==> (r.error == KeyConfigMessage <==>
                          outcome.Raised? && outcome.message.Some? && Contains(outcome.message.value, KeyMarker))
  {
    EmptyReplyLacksKeyMarker();
    match TryBlock(outcome)
    case Ok(text) => Ok(text)
    case Err(message) => Err(CatchBlock(message))
  }

  /** `analyzeSupplements(items)`. Building the client happens before the
      `try`: `clientError` is the message of the error it throws, if it
      throws, and that error leaves the function as it is. Otherwise
      `generate` answers the one request sent, and the result is the reply
      text or one of the two fixed messages. */
  function AnalyzeSupplements(items: seq<string>, clientError: Option<string>, generate: GenerationRequest -> CallOutcome): (r: Result<string, string>)
    ensures clientError.Some? ==> r == Err(clientError.value)
    ensures var o := generate(RequestFor(items));
      r.Ok? <==> clientError.None? && o.Replied? && o.text.Some? && o.text.value != ""
    ensures r.Ok? ==> r.value == generate(RequestFor(items)).text.value && r.value != ""
    ensures clientError.None? && r.Err? ==> r.error == KeyConfigMessage || r.error == TemporaryProblemMessage
    ensures var o := generate(RequestFor(items));
      clientError.None? && r.Err? ==>
        (r.error == KeyConfigMessage <==> o.Raised? && o.message.Some? && Contains(o.message.value, KeyMarker))
  {
    match clientError
    case Some(message) => Err(message)
    case None => Respond(generate(RequestFor(items)))
  }

  /** The message thrown for an empty reply does not mention the key, so the
      `catch` turns it into the temporary-problem message. */
  lemma EmptyReplyLacksKeyMarker()
    ensures !Contains(EmptyReplyMessage, KeyMarker)
  {
    LacksFirstCharNotContains(EmptyReplyMessage, KeyMarker);
  }

  /** A non-empty reply text is returned unchanged. */
  lemma ReplyPassesThrough(text: string)
    requires text != ""
    ensures Respond(Replied(Some(text))) == Ok(text)
  {
  }

  /** A reply without text ends in the temporary-problem message, not the
      key message nor the message thrown for it. */
  lemma EmptyReplyIsTemporaryProblem(text: Option<string>)
    requires text == None || text == Some("")
    ensures Respond(Replied(text)) == Err(TemporaryProblemMessage)
  {
    EmptyReplyLacksKeyMarker();
  }

  /** A failure mentioning `API_KEY` becomes the key message; any other
      failure, one without a message included, the temporary-problem message. */
  lemma FailureClassification(message: Option<string>)
    ensures Respond(Raised(message)) ==
      if message.Some? && Contains(message.value, KeyMarker) then Err(KeyConfigMessage)
      else Err(TemporaryProblemMessage)
  {
  }

  /** The result depends only on the answer to the request built from the
      list: two services that give the same answer to it lead to the same
      result, whatever they would answer to anything else. */
  lemma OneRequestDecides(items: seq<string>, clientError: Option<string>, g1: GenerationRequest -> CallOutcome, g2: GenerationRequest -> CallOutcome)
    requires g1(RequestFor(items)) == g2(RequestFor(items))
    ensures AnalyzeSupplements(items, clientError, g1) == AnalyzeSupplements(items, clientError, g2)
  {
  }

  /** The empty list is sent as `[]`. */
  lemma EmptyListPrompt()
    ensures BuildPrompt([]) == PromptPreamble + "[]" + PromptTemplate
  {
  }

  /** ", " has no border, so it can be split back out of a joined list. */
  lemma ListSeparatorBorderless()
    ensures Borderless(ListSeparator)
  {
    assert ListSeparator[1..][0] == ' ' && ListSeparator[..1][0] == ',';
  }

  /** The list section of the prompt names exactly the items, in list order,
      as long as no item itself contains ", ". */
  lemma ListingNamesItems(items: seq<string>)
    requires |items| >= 1
    requires forall i :: 0 <= i < |items| ==> !Contains(items[i], ListSeparator)
    ensures var listing := ItemListing(items);
      Split(listing[1..|listing| - 1], ListSeparator) == items
  {
    var listing := ItemListing(items);
    assert listing[1..|listing| - 1] == Join(items, ListSeparator);
    ListSeparatorBorderless();
    SplitJoin(items, ListSeparator);
  }

  /** Under the same condition, different lists give different prompts:
      the prompt determines the list. */
  lemma PromptDeterminesItems(a: seq<string>, b: seq<string>)
    requires |a| >= 1 && |b| >= 1
    requires forall i :: 0 <= i < |a| ==> !Contains(a[i], ListSeparator)
    requires forall i :: 0 <= i < |b| ==> !Contains(b[i], ListSeparator)
    requires BuildPrompt(a) == BuildPrompt(b)
    ensures a == b
  {
    ListingNamesItems(a);
    ListingNamesItems(b);
  }

  /** An item containing ", " cannot be told apart from two items: the
      prompts for ["a, b"] and ["a", "b"] are the same. */
  lemma SeparatorInItemIsAmbiguous()
    ensures BuildPrompt(["a, b"]) == BuildPrompt(["a", "b"])
  {
  }
}
