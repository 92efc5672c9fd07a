# Voice assistant activity: listening toggle and completion adapter

This project models the two pieces of logic in the Android activity
`MainActivity` of the voice assistant app, and proves properties about them.

1. **The listening toggle.** One button starts and stops speech recognition.
   The activity keeps a `listening` flag and a nullable `speechRecognizer`
   field. The button press, `startListening`, `stopListening` and the
   recognizer callbacks `onError` and `onResults` change them.
   `Assistant.MainActivity` is a class with those fields, and its methods
   perform each event in place. Each method's postcondition ties the new
   state to the pure function `AfterPress`, `AfterStart`, `AfterStop`,
   `AfterError`, `AfterResults` or `AfterProcess` of the old state. The lemmas
   are about those functions. In addition to the source's fields, the state
   records:
   - the request bodies posted (`sent`);
   - the texts handed to text-to-speech (`spoken`);
   - the status line as a datatype;
   - a ghost count of recognizers overwritten while still alive (`orphans`).
2. **The completion adapter** (`sendToOpenAI` and the success/failure split
   in `processUserText`). `Completion.BuildRequest` builds the request map:
   model `"gpt-3.5-turbo"`, one user message holding the text verbatim,
   `max_tokens` 300. `Completion.Reply` turns the HTTP outcome into either
   the trimmed content of `choices[0].message.content` or the exception that
   `sendToOpenAI` would throw. JSON is `Json.Value`, which is what Gson
   hands back after parsing.

`Text` models the Kotlin library functions involved: `Char.isWhitespace`,
`String.trim()`, `joinToString(" ")` and the decimal form of an `Int` in a
string template.

Behaviour worth knowing, all taken from the code:
- `onResults` does not reset `listening`. After an answer, the next press
  only stops; a second press listens again (`ResultsThenTwoPresses`).
- The transcript is forwarded even when it is empty. There is no
  empty-input check.
- The transcript is every recognition alternative in `RESULTS_RECOGNITION`,
  not just the best one, run together with single spaces into one prompt
  (`TranscriptSplits`).
- A missing or ill-typed field on the `choices[0].message.content` path
  gives the empty answer `""`, not an error.
- An empty `choices` array is an error, because `List.get(0)` throws.
- `speechRecognizer` is never set back to null. After `destroy()` it keeps
  the dead recognizer (`Handle.Destroyed`).

Things the code does not do, so neither does the model:
- It keeps no session id, offers no cancellation and has no write-once
  fields.
- It does not reject empty input.
- It has no separate classification for a response of the wrong shape.
  Any wrong shape on the `choices[0].message.content` path gives the answer
  `""`. The only exception is an empty `choices` array.

Inputs from outside the activity are parameters:
- whether recognition is available (`available`);
- the recognizer's matches (`Option<seq<string>>`; a missing bundle or list
  is `None`);
- the network's outcome (`Completion.Exchange`).

OkHttp's `isSuccessful` is `code in 200..299`. In the model it is derived
from the code (`HttpResponse.IsSuccessful`). OkHttp refuses negative codes,
so `code` is a `nat`.

## Model

| member | source | states |
|---|---|---|
| Text.Trim | app/src/main/java/com/example/voiceassistant/MainActivity.kt:159 | `trim()` returns a slice of its input whose cut-off prefix and suffix are all whitespace, and whose first and last characters are not whitespace |
| Text.TrimPadded | app/src/main/java/com/example/voiceassistant/MainActivity.kt:159 | for a string with no whitespace at either end, padded on both sides with whitespace, `trim()` returns exactly that string (this pins `trim` down uniquely) |
| Text.TrimIdempotent | app/src/main/java/com/example/voiceassistant/MainActivity.kt:159 | trimming an already trimmed answer changes nothing |
| Text.IsWhitespace | app/src/main/java/com/example/voiceassistant/MainActivity.kt:159 | `Char.isWhitespace`, the test behind `trim()`: it accepts space, tab, line feed and carriage return, and every character it accepts is at most U+3000, so it is one UTF-16 code unit |
| Text.Join | app/src/main/java/com/example/voiceassistant/MainActivity.kt:83 | `joinToString(" ")`; no contract of its own: `Text.SplitJoinAll` with `Text.JoinSplit` states what it computes on a non-empty list, and `Assistant.ResultsForwardTranscript` gives `""` for the empty one |
| Text.JoinSplit | app/src/main/java/com/example/voiceassistant/MainActivity.kt:83 | rejoining the pieces of any string split on spaces gives the string back, so splitting is injective and `Text.SplitJoinAll` determines `joinToString(" ")` on every non-empty list |
| Text.SplitAround | app/src/main/java/com/example/voiceassistant/MainActivity.kt:83 | splitting on spaces at a space splits the two sides separately, for any two strings |
| Text.SplitJoinAll | app/src/main/java/com/example/voiceassistant/MainActivity.kt:83 | for one or more parts, of any content, splitting `joinToString(" ")` on spaces gives the space-separated words of each part in order: the separator is exactly one more split point |
| Text.SplitAllWords | app/src/main/java/com/example/voiceassistant/MainActivity.kt:83 | parts that hold no space are their own words |
| Text.SplitJoin | app/src/main/java/com/example/voiceassistant/MainActivity.kt:83 | corollary: one or more parts that hold no space split back into the same parts |
| Text.Decimal | app/src/main/java/com/example/voiceassistant/MainActivity.kt:152 | the code in the HTTP error message is a non-empty run of decimal digits with no leading zero; the code 0 is the single digit `"0"` |
| Text.DecimalRoundTrip | app/src/main/java/com/example/voiceassistant/MainActivity.kt:152 | reading the digits of the rendered code back gives the code |
| Completion.BuildRequest | app/src/main/java/com/example/voiceassistant/MainActivity.kt:134-138 | the request reads back, through the independent reader `RequestUserText`, as exactly the user text it was built from |
| Completion.UserMessage | app/src/main/java/com/example/voiceassistant/MainActivity.kt:136 | the single message `mapOf("role" to "user", "content" to userText)`; no contract of its own: `Completion.RequestShape` states its exact keys and values |
| Completion.RequestShape | app/src/main/java/com/example/voiceassistant/MainActivity.kt:134-138 | the request body has exactly the keys `model`, `messages`, `max_tokens`: model `"gpt-3.5-turbo"`, `max_tokens` 300, and one message with exactly `role` `"user"` and `content` equal to the input text |
| Completion.RequestRoundTrip | app/src/main/java/com/example/voiceassistant/MainActivity.kt:134-138 | a JSON value is read back as text `t` if and only if it is the request built from `t`, so the text reaches the request verbatim and nothing else can look like a request |
| Completion.Reply | app/src/main/java/com/example/voiceassistant/MainActivity.kt:151-160 | an answer returned by `sendToOpenAI` never has leading or trailing whitespace |
| Completion.Answer | app/src/main/java/com/example/voiceassistant/MainActivity.kt:155-159 | on a parsed object, the answer is never padded with whitespace; `Completion.ReplySucceedsIff`, `Completion.ReplyWithContent` and `Completion.ReplyDefaultsToEmpty` state what it is |
| Completion.Content | app/src/main/java/com/example/voiceassistant/MainActivity.kt:155-158 | the string the safe-cast chain yields, when there is one, sits at `choices[0].message.content`; `Completion.ContentIff` gives the converse |
| Json.Lookup | app/src/main/java/com/example/voiceassistant/MainActivity.kt:155 | `json["choices"]` on the parsed map, a missing key reading as null; no contract of its own: `Completion.ContentIff` states what the lookups find |
| Json.Member | app/src/main/java/com/example/voiceassistant/MainActivity.kt:155-158 | `m?.get(key)`; no contract of its own: `Completion.ContentIff` states what the chain of lookups finds |
| Json.AsArray | app/src/main/java/com/example/voiceassistant/MainActivity.kt:155 | `as? List<*>`; no contract of its own: `Completion.ContentIff` and `Completion.ReplyFailures` state its effect |
| Json.AsObject | app/src/main/java/com/example/voiceassistant/MainActivity.kt:156-157 | `as? Map<*, *>`; no contract of its own: `Completion.ContentIff` states its effect |
| Json.AsString | app/src/main/java/com/example/voiceassistant/MainActivity.kt:158 | `as? String`; no contract of its own: `Completion.ContentIff` states its effect |
| Completion.HttpResponse.IsSuccessful | app/src/main/java/com/example/voiceassistant/MainActivity.kt:152 | OkHttp's `isSuccessful`, `code in 200..299`; no contract of its own: `Completion.ReplyFailures` and `Completion.ReplySucceedsIff` state its effect |
| Wrappers.Option.GetOr | app/src/main/java/com/example/voiceassistant/MainActivity.kt:158 | the `?: ""` default on the content; no contract of its own: `Completion.ReplyWithContent` and `Completion.ReplyDefaultsToEmpty` state its effect |
| Completion.ReplyFailures | app/src/main/java/com/example/voiceassistant/MainActivity.kt:151-156 | a transport failure gives `Transport`; a non-2xx status gives `HttpError` carrying the status code and message; a successful response with no body gives `EmptyResponse`; a parsed document that is not an object (Gson returned null, or threw) gives `BodyNotObject`; an empty `choices` array gives `NoChoices` |
| Completion.ReplySucceedsIff | app/src/main/java/com/example/voiceassistant/MainActivity.kt:151-159 | an answer is returned if and only if the response is 2xx, has a body that parses to an object, and that object's `choices` is not an empty array |
| Completion.ContentIff | app/src/main/java/com/example/voiceassistant/MainActivity.kt:155-158 | the chain of safe casts and null-safe lookups finds the string `c` if and only if `choices[0].message.content` of the object is the string `c` |
| Completion.ReplyWithContent | app/src/main/java/com/example/voiceassistant/MainActivity.kt:155-159 | when `choices[0].message.content` is a string, the answer is that string trimmed |
| Completion.ReplyDefaultsToEmpty | app/src/main/java/com/example/voiceassistant/MainActivity.kt:155-158 | when `choices` is absent or not a list, or the first choice or its `message` is not an object, or `content` is not a string, the answer is `""` |
| Completion.AnswerHasContent | app/src/main/java/com/example/voiceassistant/MainActivity.kt:155-159 | a non-empty answer always comes from a string at `choices[0].message.content` of a successful response, and is that string trimmed |
| Completion.AuthoredMessage | app/src/main/java/com/example/voiceassistant/MainActivity.kt:152-153 | the source writes a message of its own exactly for a non-2xx status and for a missing body; `Completion.HttpErrorMessage` and `Completion.UnauthorizedExample` give the text |
| Completion.HttpErrorMessage | app/src/main/java/com/example/voiceassistant/MainActivity.kt:152 | the HTTP error message is `"HTTP error: "`, then the status code as digits that read back as the code, then a space and the status message |
| Completion.HelloThereExample | app/src/main/java/com/example/voiceassistant/MainActivity.kt:155-159 | `{"choices":[{"message":{"content":" Hello there "}}]}` with status 200 gives the answer `"Hello there"` |
| Completion.UnauthorizedExample | app/src/main/java/com/example/voiceassistant/MainActivity.kt:152 | status 401 gives `HttpError(401, "Unauthorized")`, whose message is `"HTTP error: 401 Unauthorized"` |
| Completion.EmptyChoicesExample | app/src/main/java/com/example/voiceassistant/MainActivity.kt:155-156 | `{"choices":[]}` gives the `NoChoices` failure, not an answer |
| Assistant.Init | app/src/main/java/com/example/voiceassistant/MainActivity.kt:29-31 | the field initialisers: not listening, no recognizer; no contract of its own: `Assistant.MainActivity.constructor` states the launch state and `Assistant.ReachableInv` proves the invariant from it |
| Assistant.Released | app/src/main/java/com/example/voiceassistant/MainActivity.kt:79 | `speechRecognizer?.destroy()` (also at line 107) leaves no live recognizer, keeps "never created" as it was, and changes nothing else |
| Assistant.AfterPress | app/src/main/java/com/example/voiceassistant/MainActivity.kt:51-53 | the click listener; no contract of its own: `Assistant.PressToggles` states what it computes |
| Assistant.AfterStart | app/src/main/java/com/example/voiceassistant/MainActivity.kt:63-103 | `startListening`; no contract of its own: `Assistant.StartEffect` and `Assistant.StartWhileLiveOrphans` state what it computes |
| Assistant.AfterStop | app/src/main/java/com/example/voiceassistant/MainActivity.kt:105-111 | `stopListening`; no contract of its own: `Assistant.StopAndErrorRelease` states what it computes |
| Assistant.AfterError | app/src/main/java/com/example/voiceassistant/MainActivity.kt:75-80 | `onError`; no contract of its own: `Assistant.StopAndErrorRelease` states what it computes |
| Assistant.Transcript | app/src/main/java/com/example/voiceassistant/MainActivity.kt:82-83 | the text `onResults` passes on; no contract of its own: `Assistant.TranscriptSplits` and `Assistant.ResultsForwardTranscript` state what it is |
| Assistant.AfterResults | app/src/main/java/com/example/voiceassistant/MainActivity.kt:81-89 | `onResults`; no contract of its own: `Assistant.ResultsKeepListening` and `Assistant.ResultsForwardTranscript` state what it computes |
| Assistant.AfterProcess | app/src/main/java/com/example/voiceassistant/MainActivity.kt:113-128 | `processUserText`; no contract of its own: `Assistant.ProcessSpeaksReply` states what it computes |
| Assistant.PressToggles | app/src/main/java/com/example/voiceassistant/MainActivity.kt:51-53 | a press runs `stopListening` when listening and `startListening` otherwise, never both; afterwards the activity listens exactly when it was not listening and recognition is available |
| Assistant.StartEffect | app/src/main/java/com/example/voiceassistant/MainActivity.kt:63-103 | without recognition, `startListening` changes only the status: it creates no recognizer and leaves `listening` unchanged; with recognition, it ends listening on a live recognizer |
| Assistant.StartWhileLiveOrphans | app/src/main/java/com/example/voiceassistant/MainActivity.kt:68 | starting while a recognizer is alive overwrites it without destroying it and breaks the invariant, which is why only the guarded press may start |
| Assistant.StopAndErrorRelease | app/src/main/java/com/example/voiceassistant/MainActivity.kt:75-111 | `stopListening` and `onError` both end with `listening` false and the recognizer, if one was ever created, destroyed |
| Assistant.ResultsKeepListening | app/src/main/java/com/example/voiceassistant/MainActivity.kt:81-89 | `onResults` leaves `listening`, the recognizer and the live count unchanged |
| Assistant.ResultsForwardTranscript | app/src/main/java/com/example/voiceassistant/MainActivity.kt:82-88 | `onResults` posts exactly one new request, whose user text is the transcript verbatim; with no match list, or an empty one, that is the empty text |
| Assistant.TranscriptSplits | app/src/main/java/com/example/voiceassistant/MainActivity.kt:82-83 | for any non-empty list of matches, multi-word phrases included, the transcript split on spaces is the words of every match in order; when no match holds a space, it is the matches themselves |
| Assistant.ProcessSpeaksReply | app/src/main/java/com/example/voiceassistant/MainActivity.kt:113-128 | on success the reply is spoken exactly once and the status says an answer arrived; on failure nothing is spoken and the status reports that failure |
| Assistant.StepPreservesInv | app/src/main/java/com/example/voiceassistant/MainActivity.kt:51-128 | every event keeps the invariant: no orphaned recognizer, `listening` exactly when the field holds a live recognizer, every posted body is a well-formed request, every spoken text is trimmed |
| Assistant.RunPreservesInv | app/src/main/java/com/example/voiceassistant/MainActivity.kt:51-128 | every sequence of events keeps that invariant |
| Assistant.ReachableInv | app/src/main/java/com/example/voiceassistant/MainActivity.kt:29-31 | from the launch state (not listening, no recognizer) the invariant holds after any sequence of events |
| Assistant.ResultsThenTwoPresses | app/src/main/java/com/example/voiceassistant/MainActivity.kt:51-89 | because `onResults` keeps `listening` set, the first press after results only stops listening, and the second press starts again if recognition is available |
| Assistant.MainActivity.constructor | app/src/main/java/com/example/voiceassistant/MainActivity.kt:29-31 | the activity starts not listening, with no recognizer, nothing posted and nothing spoken |
| Assistant.MainActivity.Press | app/src/main/java/com/example/voiceassistant/MainActivity.kt:51-53 | the new state is `AfterPress` of the old one, and the invariant is kept |
| Assistant.MainActivity.StartListening | app/src/main/java/com/example/voiceassistant/MainActivity.kt:63-103 | the new state is `AfterStart` of the old one, and the invariant is kept |
| Assistant.MainActivity.StopListening | app/src/main/java/com/example/voiceassistant/MainActivity.kt:105-111 | the new state is `AfterStop` of the old one, and the invariant is kept |
| Assistant.MainActivity.OnError | app/src/main/java/com/example/voiceassistant/MainActivity.kt:75-80 | the new state is `AfterError` of the old one, and the invariant is kept |
| Assistant.MainActivity.OnResults | app/src/main/java/com/example/voiceassistant/MainActivity.kt:81-89 | the new state is `AfterResults` of the old one, and the invariant is kept |
| Assistant.MainActivity.ProcessUserText | app/src/main/java/com/example/voiceassistant/MainActivity.kt:113-128 | the new state is `AfterProcess` of the old one: one request posted, the reply spoken or the failure reported; the invariant is kept |

## Left out

- Assistant.MainActivity.StartListening: requires `!listening`. Its only caller is the click listener, which calls it only when not listening. The pure `AfterStart` has no such requirement, and `StartWhileLiveOrphans` shows what would happen without the guard.
- Screen text and button labels are left out (UI). The status line is recorded as a `Status` value, not as its Turkish text. The transcript view is not modelled.
- The audio permission request in `onCreate` is left out (platform UI).
- `onReadyForSpeech` and `onEndOfSpeech` are left out, because they only set status text. The other listener callbacks are left out because they are empty.
- The speech recognizer itself is left out (platform service): its creation, the `RecognizerIntent` extras, and its `stopListening` call. The model keeps only whether the field holds nothing, a live recognizer or a destroyed one.
- The model does not say which recognizer fires a callback. As in the source, `onError` destroys whatever the field holds at that moment.
- The text-to-speech engine, `onInit` and `speak`'s queueing are left out (platform service). Speaking is recorded by appending to `spoken`.
- The OkHttp call, the URL, the headers and the API key from the build configuration are left out (network I/O and configuration). The call's outcome is the input `Exchange`.
- An IOException from the call or from reading the body is folded into `TransportError`.
- Gson's writing and parsing are left out (foreign library):
  - The request is the map handed to Gson, so key order in the written text is not modelled.
  - The response is what Gson parsed: a `Value`, `JNull` when Gson returns null (an empty body or `null`), or `Unparsable` for a syntax error.
  - JSON numbers are kept as `real`. The extraction never reads them.
  - Which body texts Gson turns into a map is not modelled. For example, its map adapter also reads a top-level array of `[key, value]` pairs, so `[]` becomes an empty map and gives the answer `""`. The model starts from the document Gson produced.
- Messages of exceptions raised by the platform are left out (platform-dependent): the IOException, Gson's exceptions, the null dereference and the index error. `AuthoredMessage` gives only the two messages the source writes itself.
- Strings are Dafny strings, sequences of Unicode scalar values. A Kotlin `String` is a sequence of UTF-16 code units, so a string holding a lone surrogate has no counterpart in the model. `trim()` is unaffected, because every character `Text.IsWhitespace` accepts is a BMP character outside the surrogate range, so each one is a single code unit.
- Coroutines, dispatchers and `onDestroy` are left out (concurrency and lifecycle). `processUserText` runs to completion inside `OnResults`. Interleavings with later presses or callbacks are not modelled.
