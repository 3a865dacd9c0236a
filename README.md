# Supplement interaction checker: a Dafny model of its core

The app keeps a list of drugs and supplements, sends the list to a language model, and is meant to display the reply. This project models the logic that remains once the UI and the network are taken away:

- **The item list** (`ItemList`, and `AppComponent.App.HandleAddItem` / `RemoveItem`). Adding trims the input and appends it only when it is non-empty and new. Removing filters the item out. The list starts from three seed items and never holds a duplicate, an empty item or an item with whitespace at either end.
- **The reply renderer** (`Markup`, the component's `renderText`). The reply is split on line feeds into paragraphs. Each line is split on `**`, and the pieces at odd positions are shown in bold.
- **The analysis call** (`GeminiService`, and `AppComponent.App.StartAnalysis` / `FinishAnalysis` / `RunAnalysis`). The prompt puts the items in brackets, joined by `", "`, between a fixed preamble and a fixed template. The client is built before the `try`. An error thrown while building it escapes the service unclassified, with its own message; the model takes that message as the input `clientError`. After that, the call's outcome is an input too: `generate` answers the one request sent. A non-empty reply text is returned. Every failure of the call becomes one of two fixed messages: the key message when the raw message contains `API_KEY`, and the temporary-problem message otherwise. An empty reply is thrown inside the same `try`, so it also ends as the temporary-problem message. The component then stores the reply or shows the error, and always clears the loading flag.
- **JavaScript string built-ins** (`JsString`): `trim`, `split` with a string separator, `join`, and `includes`, written out over `seq<char>`.

The component's state is a class, `AppComponent.App`, whose fields mirror the React state (`supplements`, `newItem`, `isLoading`, `error`, `result`, `hasKey`). Its handlers are methods proved against the pure functions of `ItemList`, `GeminiService` and `AppComponent`. `runAnalysis` waits for the call, so it is split at that point into `StartAnalysis` and `FinishAnalysis`. `RunAnalysis` composes the two around the service.

What the code does not do:

- The reply is not parsed into headings and bullet lists. A `###` line or a `- ` line is an ordinary paragraph (`Markup.HeadingLineIsPlainParagraph`, `Markup.BulletLineIsPlainParagraph`).
- An unterminated `**` is not kept as literal text. The marker disappears and the rest of the line is bold (`Markup.LastRunBoldIffOddMarkers`).
- Citations are not extracted or de-duplicated. The service returns a plain string.
- There is no not-found class, no quota class and no empty-response class. Once the client is built, the service knows two messages only. The component's two key branches compare against `API_KEY_MISSING` and `API_KEY_INVALID`, which the service never produces itself; only an error thrown while building the client could carry them (`AppComponent.ServiceNeverSignalsKeyProblem`).
- The service checks no credential itself. A missing or rejected key shows up either as an error thrown while building the client, which the service does not classify, or as a failed call.
- The prompt is also built for an empty list (`[]`). Only the component's guard keeps an empty list from being sent.

## Model

| member | source | states |
|---|---|---|
| `JsString.Trim` | App.tsx:47 | The result is the slice of the input with only whitespace before and after it, and with no whitespace at either end of its own; it is empty exactly when the input is whitespace only |
| `JsString.TrimFixesTrimmed` | App.tsx:47 | Trimming returns its input exactly when that input is already trimmed, so trimming twice is trimming once |
| `JsString.Split` | App.tsx:115-117 | `split` yields at least one part, and joining the parts with the separator gives back the input |
| `JsString.SplitCount` | App.tsx:115-117 | k non-overlapping occurrences of the separator give k + 1 parts |
| `JsString.SplitPartsLackSep` | App.tsx:117 | No part that `split` produces contains the separator |
| `JsString.SplitCutsLeftmost` | App.tsx:115-117 | `split` cuts at the leftmost occurrence: no occurrence of the separator starts inside a part and runs into the separator after it |
| `JsString.SplitUnique` | App.tsx:115-117 | Parts without the separator and without such a straddling occurrence are exactly what splitting their join gives, so `split`'s result is the only one with these properties |
| `JsString.Join` | services/geminiService.ts:18 | `join`, with the separator between neighbours only; it has no contract of its own, and the two rows below state its laws |
| `JsString.JoinAppend` | services/geminiService.ts:18 | Joining after appending a part adds the separator and that part at the end |
| `JsString.JoinStartsWithFirst` | services/geminiService.ts:18 | The joined string starts with the first part |
| `JsString.Contains` | services/geminiService.ts:59 | `includes`: the substring is a prefix of the string or of one of its suffixes; `JsString.ContainsAt` states what it means |
| `JsString.ContainsAt` | services/geminiService.ts:59 | `includes` holds exactly when the substring is found at some position |
| `JsString.OccurrencesOfChar` | App.tsx:115 | For a one-character separator, the occurrences counted by `split` are the copies of that character |
| `JsString.OccurrencesZero` | App.tsx:117 | `split` finds no occurrence exactly when the string does not contain the separator |
| `JsString.SplitJoin` | services/geminiService.ts:18 | Splitting undoes `join` when the separator has no border and no part contains it |
| `ItemList.Remove` | App.tsx:55 | The filtered list is no longer than before, and holds exactly the items other than the removed one |
| `ItemList.Accepts` | App.tsx:47-48 | An input is accepted when its trimmed form is non-empty and not yet in the list |
| `ItemList.Add` | App.tsx:47-49 | Adding keeps every earlier item in place, grows the list by at most one, and afterwards the list holds any non-blank input in trimmed form |
| `ItemList.SeedWellFormed` | App.tsx:18 | The seed list has no duplicates, no empty items and no untrimmed items |
| `ItemList.AddUnchangedIffRejected` | App.tsx:47-48 | The list is unchanged exactly when the trimmed input is empty or already present |
| `ItemList.AddAppends` | App.tsx:48-49 | An accepted input is appended in trimmed form at the end; earlier items are unchanged and the length grows by one |
| `ItemList.AddPreservesWellFormed` | App.tsx:47-49 | Adding keeps the list free of duplicates and of empty or untrimmed items |
| `ItemList.AddIdempotent` | App.tsx:48-49 | Submitting the same input twice adds it at most once |
| `ItemList.RemoveAbsent` | App.tsx:55 | Removing an absent item changes nothing |
| `ItemList.RemoveConcat` | App.tsx:55 | Removal distributes over concatenation, so the remaining items keep their relative order |
| `ItemList.RemoveAt` | App.tsx:55 | In a duplicate-free list, removing the item at position i gives the list with just that position cut out |
| `ItemList.RemoveKeepsNoDuplicates` | App.tsx:55 | Filtering a duplicate-free list leaves it duplicate-free |
| `ItemList.RemovePreservesWellFormed` | App.tsx:55 | Removing keeps the list free of duplicates and of empty or untrimmed items |
| `ItemList.RemoveUndoesAdd` | App.tsx:49-55 | Removing the item an accepted input just added restores the previous list |
| `Markup.RenderLine` | App.tsx:117-118 | Every line, the empty one included, gives at least one run, and the first run is plain |
| `Markup.RenderText` | App.tsx:114-122 | There is at least one paragraph, and every paragraph has at least one run |
| `Markup.RenderLineShape` | App.tsx:117-118 | A line with k `**` markers gives k + 1 runs, bold exactly at odd positions; re-joining them with `**` gives the line back; no run shows `**` |
| `Markup.PlainLine` | App.tsx:117-118 | A line without `**` has no markers and is a single plain run holding the whole line |
| `Markup.LastRunBoldIffOddMarkers` | App.tsx:117-118 | Rendering never fails on unbalanced markers: the text after the last marker is bold exactly when the number of markers is odd |
| `Markup.ParagraphCount` | App.tsx:115 | The number of paragraphs is the number of line-feed characters plus one, empty lines included |
| `Markup.RenderRoundTrip` | App.tsx:115-118 | Re-joining runs with `**` and paragraphs with line feeds gives back the reply |
| `Markup.ParagraphsAreSingleLines` | App.tsx:115 | No paragraph spans a line feed |
| `Markup.HeadingLineIsPlainParagraph` | App.tsx:115-118 | A `###` line is one plain paragraph that still shows the `###` |
| `Markup.BulletLineIsPlainParagraph` | App.tsx:115-118 | A `- **word**note` line is a plain dash, a bold word and a plain rest, not a list item |
| `GeminiService.ItemListing` | services/geminiService.ts:18 | The list section is bracketed |
| `GeminiService.BuildPrompt` | services/geminiService.ts:15-40 | The prompt is the fixed preamble, then the list section, then the fixed template, so the list section sits at a position that does not depend on the list |
| `GeminiService.RequestFor` | services/geminiService.ts:43-45 | The request names the fixed model and carries the prompt built from the list |
| `GeminiService.TryBlock` | services/geminiService.ts:42-56 | The `try` block yields text exactly for a non-empty reply text; a raised failure reaches the `catch` with its own message, an empty reply with the message thrown for it |
| `GeminiService.CatchBlock` | services/geminiService.ts:57-62 | The key message is rethrown exactly when the caught message exists and contains `API_KEY` |
| `GeminiService.Respond` | services/geminiService.ts:52-62 | The result is text exactly for a reply with non-empty text, and then it is that text; every error is one of the two messages; it is the key message exactly for a raised failure mentioning `API_KEY` |
| `GeminiService.AnalyzeSupplements` | services/geminiService.ts:7-64 | An error thrown while building the client is passed on unchanged. Otherwise the result is text exactly when the answer to the request is a non-empty reply text, and then it is that text; every error is one of the two fixed messages, the key message exactly for a raised failure mentioning `API_KEY` |
| `GeminiService.EmptyReplyLacksKeyMarker` | services/geminiService.ts:53 | The message thrown for an empty reply does not contain `API_KEY` |
| `GeminiService.ReplyPassesThrough` | services/geminiService.ts:52-56 | A non-empty reply text is returned unchanged |
| `GeminiService.EmptyReplyIsTemporaryProblem` | services/geminiService.ts:52-62 | An absent or empty reply text ends in the temporary-problem message, because the local throw is caught by the same `catch` |
| `GeminiService.FailureClassification` | services/geminiService.ts:57-62 | A raw failure mentioning `API_KEY` becomes the key message; any other raw failure, one without a message included, becomes the temporary-problem message |
| `GeminiService.OneRequestDecides` | services/geminiService.ts:43-50 | The result depends only on the answer to the request built from the list, whatever the service would answer to other requests |
| `GeminiService.EmptyListPrompt` | services/geminiService.ts:15-40 | An empty list is sent as `[]` between the preamble and the template |
| `GeminiService.ListingNamesItems` | services/geminiService.ts:18 | The bracketed list names exactly the items in list order, provided no item contains `", "` |
| `GeminiService.PromptDeterminesItems` | services/geminiService.ts:15-40 | Under that proviso, two non-empty lists with the same prompt are the same list |
| `GeminiService.SeparatorInItemIsAmbiguous` | services/geminiService.ts:18 | Without the proviso, the prompts for `["a, b"]` and `["a", "b"]` coincide |
| `AppComponent.ErrorFor` | App.tsx:94-108 | The key-missing kind, with its text, is shown exactly for `API_KEY_MISSING`, the key-invalid kind, with its text, exactly for `API_KEY_INVALID`; any other non-empty message is shown as it is; an empty one becomes the default text; the shown message is never empty |
| `AppComponent.ServiceNeverSignalsKeyProblem` | App.tsx:93-108 | Once the client is built, every error from the service is shown unchanged and without a key kind; a key kind appears only for an error thrown while building the client whose message is one of the two signals |
| `AppComponent.TextPropertyOfReply` | App.tsx:263 | Reading `text` of the stored string gives `undefined` |
| `AppComponent.ResultPanelAsWritten` | App.tsx:263 | The panel as written renders `result.text`, and fails when that is `undefined` |
| `AppComponent.ResultPanelAsWrittenThrows` | App.tsx:263 | Rendering `result.text` of the stored string throws for every successful reply |
| `AppComponent.ResultPanel` | App.tsx:263 | The intended panel renders the reply with nothing lost, one paragraph per line |
| `AppComponent.App.constructor` | App.tsx:18-26 | The component starts with the seed list, an empty input, no loading, error or result, and `hasKey` as configured |
| `AppComponent.App.SetNewItem` | App.tsx:159 | The input field holds the typed text |
| `AppComponent.App.HandleAddItem` | App.tsx:45-52 | The new list is `ItemList.Add` of the old list and input; the input is cleared exactly when the item was added; the list invariant holds |
| `AppComponent.App.RemoveItem` | App.tsx:54-56 | The new list is `ItemList.Remove` of the old one; removing the item at a position cuts out exactly that position; the list invariant holds |
| `AppComponent.App.StartAnalysis` | App.tsx:77-85 | On an empty list only the error is set and the call is not made; otherwise loading starts and error and result are cleared |
| `AppComponent.App.FinishAnalysis` | App.tsx:87-111 | Loading ends; a reply is stored as the result; a failure becomes `ErrorFor` of its message, and `hasKey` is cleared exactly for a key kind |
| `AppComponent.App.RunAnalysis` | App.tsx:77-112 | Empty list: only the error changes. Otherwise loading ends, with the reply as result and no error, or no result and `ErrorFor` of the service's message as the error. Once the client is built, that message is shown as it is and `hasKey` does not change |

## Findings

| source | as written | input that shows it | evidently intended | confidence | as-written member | corrected member |
|---|---|---|---|---|---|---|
| App.tsx:263 | `renderText(result.text)`, where `result` holds the plain string that `analyzeSupplements` returns; `result.text` is `undefined`, and `split` on it throws a TypeError | any successful analysis, for example the reply `"ok"` | render the reply string itself | high; not executed | `AppComponent.ResultPanelAsWrittenThrows` | `AppComponent.ResultPanel` |

## Left out

- Presentation: JSX, CSS classes, icons, the footer and the print button (App.tsx:124-294). The model keeps only the reply renderer and the result panel's read of the stored reply.
- The sources list (App.tsx:266-282). It reads `result.sources`, which the stored string does not have. The service produces no citations, so there is nothing to extract.
- The key-selection dialog, the key check on mount, `isSelectingKey` and the `alert` calls (App.tsx:6-15, 31-43, 58-75). These are browser plumbing around a foreign API.
- Reading the credential from the environment (App.tsx:26; services/geminiService.ts:10). `hasKey` is a constructor input. Whether building the client throws, and with what message, depends on the client library and the environment; it is the input `clientError`.
- The generation client and its settings (services/geminiService.ts:10, 43-50). The call is the `generate` parameter. The model name is kept; `temperature` and `topP` are floating-point settings without logic.
- The wording of the prompt. `GeminiService.PromptPreamble` and `GeminiService.PromptTemplate` are constants whose value is not modelled.
- `setTimeout` / `scrollIntoView` and `console.error` (App.tsx:90-92; services/geminiService.ts:58). These are timing and logging side effects.
- `e.preventDefault()` (App.tsx:46): a browser event detail.
- Asynchrony: `RunAnalysis` runs from start to finish without interleaving. Re-renders while the call is pending are visible only through `StartAnalysis` and `FinishAnalysis`. A second `runAnalysis` started while one is pending is not modelled; the UI prevents it by disabling the button.
- Thrown values that are not `Error` objects. The raw failure carries an optional message string; a thrown `null`, on which the `catch` itself would fail, is not modelled.
