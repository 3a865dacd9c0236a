/** The state of the App component and the handlers that change it: adding
    and removing items, and running an analysis and recording its outcome.
    The component's rendering is left out except for the result panel's
    reading of the stored reply. */
module AppComponent {
  import opened Wrappers
  import opened JsString
  import ItemList
  import Markup
  import GeminiService

  /** The error messages the component checks for by exact comparison. */
  const KeyMissingSignal: string := "API_KEY_MISSING"
  const KeyInvalidSignal: string := "API_KEY_INVALID"

  const EmptyListMessage: string := "분석할 항목을 하나 이상 추가해주세요."
  const KeyMissingMessage: string := "API 키가 설정되지 않았습니다. 분석을 위해 Google AI 키가 필요합니다."
  const KeyInvalidMessage: string := "현재 사용 중인 API 키가 유효하지 않습니다. 새로운 키를 선택하거나 설정을 확인해주세요."
  const UnknownErrorMessage: string := "분석 중 알 수 없는 오류가 발생했습니다."

  /** The `type` of an error that offers the key-selection button. */
  datatype KeyProblem = KeyMissing | KeyInvalid

  /** The `error` state: the message shown, and the key problem if any. */
  datatype ErrorState = ErrorState(message: string, kind: Option<KeyProblem>)

  /** The error the component shows for a message caught from the service:
      the two key signals get their own text and kind, any other message is
      shown as it is, and an empty one is replaced by a fallback text. */
  function ErrorFor(message: string): (e: ErrorState)
    ensures e.kind == Some(KeyMissing) <==> message == KeyMissingSignal
    ensures e.kind == Some(KeyInvalid) <==> message == KeyInvalidSignal
    ensures message == KeyMissingSignal ==> e.message == KeyMissingMessage
    ensures message == KeyInvalidSignal ==> e.message == KeyInvalidMessage
    ensures e.kind == None && message != "" ==> e.message == message
    ensures message == "" ==> e == ErrorState(UnknownErrorMessage, None)
    ensures e.message != ""
  {
    if message == KeyMissingSignal then ErrorState(KeyMissingMessage, Some(KeyMissing))
    else if message == KeyInvalidSignal then ErrorState(KeyInvalidMessage, Some(KeyInvalid))
    else ErrorState(if message == "" then UnknownErrorMessage else message, None)
  }

  /** Once the client is built, the service never fails with either key
      signal, so every error it reports is shown as it is, without a key
      problem: the component's two key branches can be reached only by an
      error thrown while building the client. */
  lemma ServiceNeverSignalsKeyProblem(items: seq<string>, clientError: Option<string>, generate: GeminiService.GenerationRequest -> GeminiService.CallOutcome)
    ensures var reply := GeminiService.AnalyzeSupplements(items, clientError, generate);
      reply.Err? && clientError.None? ==> ErrorFor(reply.error) == ErrorState(reply.error, None)
    ensures var reply := GeminiService.AnalyzeSupplements(items, clientError, generate);
      reply.Err? ==> (ErrorFor(reply.error).kind.Some? <==>
                        clientError.Some? && (clientError.value == KeyMissingSignal || clientError.value == KeyInvalidSignal))
  {
    assert GeminiService.KeyConfigMessage[3] != KeyMissingSignal[3];
    assert GeminiService.KeyConfigMessage[3] != KeyInvalidSignal[3];
    assert GeminiService.TemporaryProblemMessage[1] != KeyMissingSignal[1];
    assert GeminiService.TemporaryProblemMessage[1] != KeyInvalidSignal[1];
  }

  /** What `result.text` reads in the result panel. The state holds the
      string the service returned, and a string has no `text` property, so
      the read gives `undefined`. */
  function TextPropertyOfReply(reply: string): Option<string> {
    None
  }

  /** The result panel as written: `renderText(result.text)`. `renderText`
      calls `split` on its argument, which throws on `undefined`; `None`
      stands for that TypeError. */
  function ResultPanelAsWritten(reply: string): Option<seq<Markup.Paragraph>> {
    match TextPropertyOfReply(reply)
    case None => None
    case Some(text) => Some(Markup.RenderText(text))
  }

  /** Every successful analysis makes the result panel throw. */
  lemma ResultPanelAsWrittenThrows(reply: string)
    ensures ResultPanelAsWritten(reply) == None
  {
  }

  /** The result panel as intended: the stored reply rendered, losing
      nothing of it. */
  function ResultPanel(reply: string): (panel: seq<Markup.Paragraph>)
    ensures Markup.Unrender(panel) == reply
    ensures |panel| == Occurrences(reply, Markup.LineBreak) + 1
  {
    Markup.RenderRoundTrip(reply);
    Markup.ParagraphCount(reply);
    Markup.RenderText(reply)
  }

  /** The component's state. */
  class App {
    var supplements: seq<string>
    var newItem: string
    var isLoading: bool
    var error: Option<ErrorState>
    var result: Option<string>
    var hasKey: bool

    /** The item list stays free of duplicates and of empty or untrimmed items. */
    ghost predicate Valid()
      reads this
    {
      ItemList.WellFormed(supplements)
    }

    /** The initial state; whether a key is configured is an input. */
    constructor (keyConfigured: bool)
      ensures Valid()
      ensures supplements == ItemList.Seed && newItem == ""
      ensures !isLoading && error == None && result == None && hasKey == keyConfigured
    {
      supplements := ItemList.Seed;
      newItem := "";
      isLoading := false;
      error := None;
      result := None;
      hasKey := keyConfigured;
      ItemList.SeedWellFormed();
    }

    /** The input field's change handler. */
    method SetNewItem(text: string)
      modifies this`newItem
      ensures newItem == text
    {
      newItem := text;
    }

    /** Submitting the form: the trimmed input is appended when it is
      non-empty and new, and then the input field is cleared. */
    method HandleAddItem()
      requires Valid()
      modifies this`supplements, this`newItem
      ensures Valid()
      ensures supplements == ItemList.Add(old(supplements), old(newItem))
      ensures newItem == if ItemList.Accepts(old(supplements), old(newItem)) then "" else old(newItem)
    {
      ItemList.AddPreservesWellFormed(supplements, newItem);
      var trimmed := Trim(newItem);
      if trimmed != "" && trimmed !in supplements {
        supplements := supplements + [trimmed];
        newItem := "";
      }
    }

    /** A pill's remove button: every copy of `item` is filtered out. The
      list has no duplicates, so removing the item at a position cuts out
      exactly that position. */
    method RemoveItem(item: string)
      requires Valid()
      modifies this`supplements
      ensures Valid()
      ensures supplements == ItemList.Remove(old(supplements), item)
      ensures forall i :: 0 <= i < |old(supplements)| && old(supplements)[i] == item ==>
                supplements == old(supplements)[..i] + old(supplements)[i + 1..]
    {
      forall i | 0 <= i < |supplements| && supplements[i] == item
        ensures ItemList.Remove(supplements, item) == supplements[..i] + supplements[i + 1..]
      {
        ItemList.RemoveAt(supplements, i);
      }
      ItemList.RemovePreservesWellFormed(supplements, item);
      supplements := ItemList.Remove(supplements, item);
    }

    /** `runAnalysis` up to the call: an empty list only sets an error;
      otherwise loading starts and the previous error and result are
      cleared. `started` says whether the call is made. */
    method StartAnalysis() returns (started: bool)
      modifies this`isLoading, this`error, this`result
      ensures started <==> supplements != []
      ensures !started ==> error == Some(ErrorState(EmptyListMessage, None))
                           && isLoading == old(isLoading) && result == old(result)
      ensures started ==> isLoading && error == None && result == None
    {
      if |supplements| == 0 {
        error := Some(ErrorState(EmptyListMessage, None));
        return false;
      }
      isLoading := true;
      error := None;
      result := None;
      return true;
    }

    /** `runAnalysis` after the call settles: the reply is stored, or the
      caught message becomes the error (a key signal also clears `hasKey`);
      either way loading ends. */
    method FinishAnalysis(reply: Result<string, string>)
      modifies this`isLoading, this`error, this`result, this`hasKey
      ensures !isLoading
      ensures reply.Ok? ==> result == Some(reply.value) && error == old(error) && hasKey == old(hasKey)
      ensures reply.Err? ==> error == Some(ErrorFor(reply.error)) && result == old(result)
                             && hasKey == (old(hasKey) && ErrorFor(reply.error).kind == None)
    {
      match reply {
        case Ok(data) =>
          result := Some(data);
        case Err(message) =>
          var shown := ErrorFor(message);
          if shown.kind.Some? {
            hasKey := false;
          }
          error := Some(shown);
      }
      isLoading := false;
    }

    /** The whole `runAnalysis` against this service, with `clientError`
      and `generate` deciding how the service ends. On an empty list nothing
      but the error changes. Otherwise loading ends, and either the reply is
      the result and there is no error, or there is no result and the error
      is what `ErrorFor` makes of the service's message. Once the client is
      built, that message is shown as it is and `hasKey` does not change. */
    method RunAnalysis(clientError: Option<string>, generate: GeminiService.GenerationRequest -> GeminiService.CallOutcome)
      modifies this`isLoading, this`error, this`result, this`hasKey
      ensures supplements == [] ==> error == Some(ErrorState(EmptyListMessage, None))
                                    && isLoading == old(isLoading) && result == old(result) && hasKey == old(hasKey)
      ensures supplements != [] ==>
        var reply := GeminiService.AnalyzeSupplements(supplements, clientError, generate);
        && !isLoading
        && (reply.Ok? ==> result == Some(reply.value) && error == None && hasKey == old(hasKey))
        && (reply.Err? ==> result == None && error == Some(ErrorFor(reply.error))
                           && hasKey == (old(hasKey) && ErrorFor(reply.error).kind == None))
      ensures supplements != [] && clientError.None? ==>
        var reply := GeminiService.AnalyzeSupplements(supplements, clientError, generate);
        && hasKey == old(hasKey)
        && (reply.Err? ==> error == Some(ErrorState(reply.error, None)))
    {
      var started := StartAnalysis();
      if started {
        var reply := GeminiService.AnalyzeSupplements(supplements, clientError, generate);
        ServiceNeverSignalsKeyProblem(supplements, clientError, generate);
        FinishAnalysis(reply);
      }
    }
  }
}
